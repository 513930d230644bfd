/** Powers of two and right shifts of natural numbers, as `Integer::operator<<=` and
    `Integer::operator>>=` compute them. */
module Arithmetic {

  function Pow2(n: nat): (p: nat)
    ensures p > 0
  {
    if n == 0 then 1 else 2 * Pow2(n - 1)
  }

  /** The value of e shifted right by n bits. */
  function Shr(e: nat, n: nat): nat {
    if n == 0 then e else Shr(e, n - 1) / 2
  }

  /** Bit n of e, counted from the least significant. */
  predicate GetBit(e: nat, n: nat) {
    Shr(e, n) % 2 == 1
  }

  /** The number of bits in the binary notation of e. */
  function BitCount(e: nat): nat {
    if e == 0 then 0 else 1 + BitCount(e / 2)
  }

  function Abs(x: int): nat {
    if x < 0 then -x else x
  }

  function Min(a: nat, b: nat): nat {
    if a < b then a else b
  }

  function Bit(b: bool): (r: nat)
    ensures r <= 1
  {
    if b then 1 else 0
  }

  lemma {:induction false} Pow2Add(a: nat, b: nat)
    ensures Pow2(a + b) == Pow2(a) * Pow2(b)
  {
    if b > 0 {
      Pow2Add(a, b - 1);
      TwiceProduct(Pow2(a), Pow2(b - 1));
    }
  }

  lemma TwiceProduct(p: int, q: int)
    ensures p * (2 * q) == 2 * (p * q)
  {
  }

  lemma {:induction false} Pow2Exceeds(n: nat)
    ensures Pow2(n) > n
  {
    if n > 0 {
      Pow2Exceeds(n - 1);
    }
  }

  lemma {:induction false} Pow2Increasing(a: nat, b: nat)
    requires a <= b
    ensures Pow2(a) <= Pow2(b)
  {
    if a < b {
      Pow2Increasing(a, b - 1);
    }
  }

  lemma QuotientOf(x: nat, m: nat)
    requires m > 0
    ensures x == (x / m) * m + x % m && x % m < m
  {
  }

  lemma RemainderOfSmall(x: nat, m: nat)
    requires x < m
    ensures x % m == x
  {
  }

  lemma EvenSum(x: nat, e: nat)
    requires e % 2 == 0
    ensures (x + e) % 2 == x % 2
  {
  }

  lemma DivModUnique(x: int, m: int, q: int, r: int)
    requires x == q * m + r && 0 <= r < m
    ensures x / m == q && x % m == r
  {
    var q', r' := x / m, x % m;
    assert x == q' * m + r';
    assert (q - q') * m == r' - r;
    assert q - q' >= 1 ==> (q - q') * m >= m;
    assert q - q' <= -1 ==> (q - q') * m <= -m;
  }

  /** Regrouping q * p + r when the halved quotient leaves a bit behind. */
  lemma HalveQuotient(q: nat, p: nat, r: nat)
    requires r < p
    ensures q * p + r == (q / 2) * (2 * p) + ((q % 2) * p + r)
    ensures 0 <= (q % 2) * p + r < 2 * p
  {
    var h, b := q / 2, q % 2;
    assert q == 2 * h + b;
    assert (2 * h + b) * p == h * (2 * p) + b * p;
    assert b == 0 || b == 1;
  }

  lemma {:induction false} ShrIsDiv(e: nat, n: nat)
    ensures Shr(e, n) == e / Pow2(n)
    ensures e == Shr(e, n) * Pow2(n) + e % Pow2(n)
  {
    if n > 0 {
      ShrIsDiv(e, n - 1);
      var p, q, r := Pow2(n - 1), Shr(e, n - 1), e % Pow2(n - 1);
      HalveQuotient(q, p, r);
      DivModUnique(e, 2 * p, q / 2, (q % 2) * p + r);
    }
  }

  lemma {:induction false} ShrShr(e: nat, a: nat, b: nat)
    ensures Shr(Shr(e, a), b) == Shr(e, a + b)
  {
    if b > 0 {
      ShrShr(e, a, b - 1);
    }
  }

  lemma MulAssociates(a: int, b: int, c: int)
    ensures (a * b) * c == a * (b * c)
  {
  }

  lemma MulDistributes(a: int, b: int, m: int)
    ensures (a + b) * m == a * m + b * m
    ensures m * (a + b) == m * a + m * b
  {
  }

  lemma AddMultiple(x: int, k: int, m: int)
    requires m > 0
    ensures (x + k * m) / m == x / m + k && (x + k * m) % m == x % m
  {
    var q, r := x / m, x % m;
    assert x == q * m + r;
    MulDistributes(q, k, m);
    DivModUnique(x + k * m, m, q + k, r);
  }

  lemma ShrShift(e: nat, n: nat, k: nat)
    ensures k * Pow2(n) >= 0
    ensures Shr(e + k * Pow2(n), n) == Shr(e, n) + k
  {
    var p := Pow2(n);
    assert k * p >= 0;
    ShrIsDiv(e, n);
    ShrIsDiv(e + k * p, n);
    AddMultiple(e, k, p);
  }

  lemma {:induction false} ShrHead(e: nat, n: nat)
    requires n > 0
    ensures Shr(e, n) == Shr(e / 2, n - 1)
  {
    ShrShr(e, 1, n - 1);
    assert Shr(e, 1) == Shr(e, 0) / 2;
  }

  /** Bits at and above BitCount are zero. */
  lemma {:induction false} ShrVanishes(e: nat, n: nat)
    ensures n >= BitCount(e) ==> Shr(e, n) == 0
    ensures n < BitCount(e) ==> Shr(e, n) > 0
  {
    if e == 0 {
      ShrIsDiv(0, n);
      assert Shr(e, n) * Pow2(n) <= 0;
    } else if n > 0 {
      ShrHead(e, n);
      ShrVanishes(e / 2, n - 1);
    }
  }

  lemma MulStrict(a: int, b: int, m: int)
    requires m > 0
    ensures a < b <==> a * m < b * m
    ensures a <= b <==> a * m <= b * m
    ensures a == b <==> a * m == b * m
  {
    if a < b {
      assert (b - a) * m > 0;
    } else if a > b {
      assert (a - b) * m > 0;
    }
  }
}
