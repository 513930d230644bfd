/** `bit_calculations.py`: binomials by one exact division, and the share of a selection expected to be known. */
module BitCalculations {
  import opened Arithmetic
  import opened Binomials
  import opened Sequences

  function Factorial(k: nat): (f: nat)
    ensures f > 0
  {
    if k == 0 then 1 else Positive(Factorial(k - 1), k)
  }

  function Positive(a: nat, b: nat): (p: nat)
    requires a > 0 && b > 0
    ensures p == a * b && p > 0
  {
    assert a * b > 0;
    a * b
  }

  /** n (n - 1) ... of k factors. */
  function Falling(n: nat, k: nat): int
    requires k <= n
  {
    if k == 0 then 1 else Falling(n, k - 1) * (n - k + 1)
  }

  /** (n - j) C(n, j) = n C(n - 1, j) */
  lemma Complement(n: nat, j: nat)
    requires 0 < n
    ensures (n - j) * Binomial(n, j) == n * Binomial(n - 1, j)
  {
    if j == 0 {
      assert Binomial(n, 0) == Binomial(n - 1, 0) == 1;
    } else {
      Absorption(n, j);
      assert Binomial(n, j) == Binomial(n - 1, j - 1) + Binomial(n - 1, j);
      MulDistributes(Binomial(n - 1, j - 1), Binomial(n - 1, j), n);
      MulDistributes(n, 0 - j, Binomial(n, j));
    }
  }

  /** (n - k + 1) C(n, k - 1) = k C(n, k) */
  lemma NextBinomial(n: nat, k: nat)
    requires 0 < k <= n
    ensures (n - k + 1) * Binomial(n, k - 1) == k * Binomial(n, k)
  {
    Complement(n, k - 1);
    Absorption(n, k);
  }

  /** The division is exact, and its quotient is the entry of Pascal's triangle. */
  lemma {:induction false} FallingIsBinomial(n: nat, k: nat)
    requires k <= n
    ensures Falling(n, k) == Binomial(n, k) * Factorial(k)
  {
    if k > 0 {
      FallingIsBinomial(n, k - 1);
      NextBinomial(n, k);
      Regroup(Binomial(n, k - 1), Factorial(k - 1), n - k + 1, k, Binomial(n, k));
    }
  }

  lemma Regroup(a: int, f: int, g: int, k: int, b: int)
    requires g * a == k * b
    ensures (a * f) * g == b * (f * k)
  {
    assert (a * f) * g == (g * a) * f;
    assert (k * b) * f == b * (f * k);
  }

  /** `ncr`; nothing where the product of an empty range raises. */
  method Ncr(n: int, r0: int) returns (result: Option<nat>)
    ensures result.Some? <==> 0 <= r0 <= n
    ensures 0 <= r0 <= n ==> result == Some(Binomial(n, r0))
  {
    var r := if r0 < n - r0 then r0 else n - r0;
    if r == 0 {
      if r0 == n {
        BinomialSelf(n);
      }
      return Some(1);
    }
    if r < 0 {
      return None;
    }
    var numer, denom := n, 1;
    assert Falling(n, 1) == Falling(n, 0) * n == n;
    for i := 1 to r
      invariant numer == Falling(n, i)
    {
      numer := numer * (n - i);
    }
    assert Factorial(1) == Factorial(0) * 1 == 1;
    for i := 1 to r
      invariant denom == Factorial(i)
    {
      denom := denom * (i + 1);
    }
    FallingIsBinomial(n, r);
    if r != r0 {
      BinomialSymmetric(n, r0);
    }
    DivModUnique(numer, denom, Binomial(n, r), 0);
    result := Some(numer / denom);
  }

  // The ratio

  /** With a <= b, the quotient C(a, m) / C(b, m) is at most 1 and does not grow with m. */
  lemma {:induction false} QuotientsFall(a: nat, b: nat, m: nat)
    requires a <= b && m < a
    ensures Binomial(a, m + 1) * Binomial(b, m) <= Binomial(a, m) * Binomial(b, m + 1)
  {
    var x, y, x', y' := Binomial(a, m), Binomial(b, m), Binomial(a, m + 1), Binomial(b, m + 1);
    NextBinomial(a, m + 1);
    NextBinomial(b, m + 1);
    CompareProducts(m + 1, x, y, x', y', a - m, b - m);
  }

  lemma CompareProducts(k: nat, x: nat, y: nat, x': nat, y': nat, p: nat, q: nat)
    requires k > 0 && p * x == k * x' && q * y == k * y' && p <= q
    ensures x' * y <= x * y'
  {
    assert k * (x' * y) == (k * x') * y == p * (x * y);
    assert k * (x * y') == x * (k * y') == q * (x * y);
    assert x * y >= 0;
    MulMonotone(p, q, x * y);
    if x' * y > x * y' {
      MulStrict(x * y', x' * y, k);
    }
  }

  lemma MulMonotone(p: nat, q: nat, z: nat)
    requires p <= q
    ensures p * z <= q * z
  {
  }

  lemma {:induction false} BinomialGrows(a: nat, b: nat, m: nat)
    requires a <= b
    ensures Binomial(a, m) <= Binomial(b, m)
  {
    if a < b {
      BinomialGrows(a, b - 1, m);
    }
  }

  /** 1 - C((k - 1) l, m) / C(k l, m) */
  function Ratio(k: nat, l: nat, m: nat): real
    requires k >= 1 && m <= (k - 1) * l
  {
    EnoughChoices(k, l, m);
    1.0 - Binomial((k - 1) * l, m) as real / Binomial(k * l, m) as real
  }

  /** Without factorials: what is missing from 1 is the product of ((k - 1) l - i) / (k l - i) for i below m. */
  lemma RatioSteps(k: nat, l: nat, m: nat)
    requires k >= 1 && m + 1 <= (k - 1) * l
    ensures Ratio(k, l, 0) == 0.0
    ensures (1.0 - Ratio(k, l, m + 1)) * (k * l - m) as real == (1.0 - Ratio(k, l, m)) * ((k - 1) * l - m) as real
  {
    hide Binomial;
    EnoughChoices(k, l, m);
    EnoughChoices(k, l, m + 1);
    EnoughChoices(k, l, 0);
    OneChoice((k - 1) * l);
    OneChoice(k * l);
    NextBinomial((k - 1) * l, m + 1);
    NextBinomial(k * l, m + 1);
    QuotientStep(Binomial((k - 1) * l, m), Binomial(k * l, m), Binomial((k - 1) * l, m + 1), Binomial(k * l, m + 1),
                 (k - 1) * l - m, k * l - m, m + 1);
  }

  lemma OneChoice(n: nat)
    ensures Binomial(n, 0) == 1
  {
  }

  lemma QuotientStep(a: nat, b: nat, a': nat, b': nat, x: nat, y: nat, n: nat)
    requires b > 0 && b' > 0 && n > 0 && x * a == n * a' && y * b == n * b'
    ensures (a' as real / b' as real) * y as real == (a as real / b as real) * x as real
  {
    var u, v := a as real / b as real, a' as real / b' as real;
    assert u * b as real == a as real && v * b' as real == a' as real;
    var r, s, t, w := n as real, b as real, x as real, y as real;
    assert w * s == r * b' as real && t * a as real == r * a' as real;
    // v w s == v r b' == r a' == t a == t u s
    RealChain(u, v, s, w, t, r, b' as real, a as real, a' as real);
  }

  lemma RealChain(u: real, v: real, s: real, w: real, t: real, r: real, b': real, a: real, a': real)
    requires s > 0.0 && u * s == a && v * b' == a' && w * s == r * b' && t * a == r * a'
    ensures v * w == u * t
  {
    assert (v * w) * s == v * (w * s) == v * (r * b') == r * (v * b') == r * a' == t * a == t * (u * s) == (u * t) * s;
  }

  lemma EnoughChoices(k: nat, l: nat, m: nat)
    requires k >= 1 && m <= (k - 1) * l
    ensures 0 <= (k - 1) * l <= k * l && m <= k * l && Binomial(k * l, m) > 0
  {
    MulDistributes(k, -1, l);
    BinomialPositive(k * l, m);
  }

  lemma RatioBetween0And1(k: nat, l: nat, m: nat)
    requires k >= 1 && m <= (k - 1) * l
    ensures 0.0 <= Ratio(k, l, m) <= 1.0
  {
    EnoughChoices(k, l, m);
    BinomialGrows((k - 1) * l, k * l, m);
    UnitQuotient(Binomial((k - 1) * l, m), Binomial(k * l, m));
  }

  lemma UnitQuotient(x: nat, y: nat)
    requires x <= y && y > 0
    ensures 0.0 <= x as real / y as real <= 1.0
  {
    QuotientsCompare(0, 1, x, y);
    QuotientsCompare(x, y, 1, 1);
  }

  lemma QuotientsCompare(x': nat, y': nat, x: nat, y: nat)
    requires y > 0 && y' > 0 && x' * y <= x * y'
    ensures x' as real / y' as real <= x as real / y as real
  {
    var q, q' := x as real / y as real, x' as real / y' as real;
    assert q * y as real == x as real && q' * y' as real == x' as real;
    ClearDenominators(q, q', x as real, y as real, x' as real, y' as real);
  }

  lemma ClearDenominators(q: real, q': real, x: real, y: real, x': real, y': real)
    requires y > 0.0 && y' > 0.0 && q * y == x && q' * y' == x' && x' * y <= x * y'
    ensures q' <= q
  {
    assert x' * y == q' * (y' * y) && x * y' == q * (y' * y);
    SignOf(q - q', y' * y);
  }

  lemma SignOf(d: real, z: real)
    requires z > 0.0 && d * z >= 0.0
    ensures d >= 0.0
  {
  }

  /** The ratio does not fall as more is selected. */
  lemma {:induction false} RatioMonotone(k: nat, l: nat, m: nat, m': nat)
    requires k >= 1 && m <= m' <= (k - 1) * l
    ensures Ratio(k, l, m) <= Ratio(k, l, m')
  {
    if m < m' {
      RatioMonotone(k, l, m, m' - 1);
      EnoughChoices(k, l, m');
      EnoughChoices(k, l, m' - 1);
      QuotientsFall((k - 1) * l, k * l, m' - 1);
      QuotientsCompare(Binomial((k - 1) * l, m'), Binomial(k * l, m'), Binomial((k - 1) * l, m' - 1),
                       Binomial(k * l, m' - 1));
    }
  }

  /** The number of selections m = 50, 100, ... below 256 l. */
  function Selections(l: nat): nat {
    if l == 0 then 0 else (256 * l - 1) / 50
  }

  /** The entry for the selection m: k times the ratio. */
  function Entry(k: nat, l: nat, m: nat): real
    requires k >= 1 && m <= (k - 1) * l
  {
    k as real * Ratio(k, l, m)
  }

  /** Every selection leaves something to be unknown. */
  ghost predicate ListExists(k: nat, l: nat) {
    k >= 1 && 50 * Selections(l) <= (k - 1) * l
  }

  /** `genList`, before rounding; nothing where `ncr` raises, which is exactly when the largest selection exceeds
      (k - 1) l. */
  method GenList(k: nat, l: nat) returns (output: Option<seq<real>>)
    requires k >= 1
    ensures output.Some? <==> ListExists(k, l)
    ensures output.Some? ==> |output.value| == Selections(l)
    ensures output.Some? ==>
              forall i :: 0 <= i < |output.value|
                ==> 50 * (i + 1) <= (k - 1) * l && output.value[i] == Entry(k, l, 50 * (i + 1))
  {
    hide Entry, Selections;
    var list: seq<real> := [];
    var m: nat := 50;
    SelectionBound(l, 0);
    NothingSelected(k, l);
    while m < 256 * l
      invariant m == 50 * (|list| + 1) && |list| <= Selections(l) && 50 * |list| <= (k - 1) * l
      invariant forall i :: 0 <= i < |list| ==> 50 * (i + 1) <= (k - 1) * l && list[i] == Entry(k, l, 50 * (i + 1))
    {
      SelectionBound(l, |list|);
      var value := ListEntry(k, l, m);
      if value == None {
        return None;
      }
      list := list + [value.value];
      m := m + 50;
    }
    SelectionBound(l, |list|);
    output := Some(list);
  }

  lemma SelectionBound(l: nat, n: nat)
    ensures n < Selections(l) <==> 50 * (n + 1) < 256 * l
  {
  }

  lemma NothingSelected(k: nat, l: nat)
    requires k >= 1
    ensures 0 <= (k - 1) * l
  {
  }

  method ListEntry(k: nat, l: nat, m: nat) returns (value: Option<real>)
    requires k >= 1
    ensures value.Some? <==> m <= (k - 1) * l
    ensures value.Some? ==> value.value == Entry(k, l, m)
  {
    var numer := Ncr((k - 1) * l, m);
    if numer == None {
      return None;
    }
    EnoughChoices(k, l, m);
    var denom := Ncr(k * l, m);
    var ratio := 1.0 - numer.value as real / denom.value as real;
    value := Some(k as real * ratio);
  }

  /** Where the list exists, its entries lie between 0 and k and do not fall. */
  lemma ListIsMonotone(k: nat, l: nat, m: nat, m': nat)
    requires k >= 1 && m <= m' <= (k - 1) * l
    ensures 0.0 <= k as real * Ratio(k, l, m) <= k as real * Ratio(k, l, m') <= k as real
  {
    RatioBetween0And1(k, l, m);
    RatioBetween0And1(k, l, m');
    RatioMonotone(k, l, m, m');
    ScaleReal(k as real, Ratio(k, l, m), Ratio(k, l, m'));
  }

  lemma ScaleReal(k: real, x: real, y: real)
    requires k >= 1.0 && 0.0 <= x <= y <= 1.0
    ensures 0.0 <= k * x <= k * y <= k
  {
  }

  /** With k = 256, the list exists for the lengths in use but not for 51: the selection 13050 exceeds 255 * 51. */
  lemma ListFails()
    ensures !ListExists(256, 51)
    ensures ListExists(256, 2) && ListExists(256, 3) && ListExists(256, 4) && ListExists(256, 8) && ListExists(256, 16)
  {
  }
}
