/** Binomial coefficients by Pascal's triangle. */
module Binomials {
  import opened Arithmetic
  import opened NumberTheory

  function Binomial(n: nat, k: nat): nat {
    if k == 0 then 1
    else if n == 0 then 0
    else Binomial(n - 1, k - 1) + Binomial(n - 1, k)
  }

  lemma {:induction false} BinomialAbove(n: nat, k: nat)
    requires k > n
    ensures Binomial(n, k) == 0
  {
    if n > 0 {
      BinomialAbove(n - 1, k - 1);
      BinomialAbove(n - 1, k);
    }
  }

  lemma {:induction false} BinomialSelf(n: nat)
    ensures Binomial(n, n) == 1
  {
    if n > 0 {
      BinomialSelf(n - 1);
      BinomialAbove(n - 1, n);
    }
  }

  lemma {:induction false} BinomialPositive(n: nat, k: nat)
    requires k <= n
    ensures Binomial(n, k) > 0
  {
    if 0 < k {
      BinomialPositive(n - 1, k - 1);
    }
  }

  lemma {:induction false} BinomialSymmetric(n: nat, k: nat)
    requires k <= n
    ensures Binomial(n, k) == Binomial(n, n - k)
  {
    if k == 0 || k == n {
      BinomialSelf(n);
    } else {
      BinomialSymmetric(n - 1, k - 1);
      BinomialSymmetric(n - 1, k);
    }
  }

  /** k * C(n, k) = n * C(n - 1, k - 1). */
  lemma {:induction false} Absorption(n: nat, k: nat)
    requires n > 0 && k > 0
    ensures k * Binomial(n, k) == n * Binomial(n - 1, k - 1)
  {
    if n == 1 {
      if k > 1 {
        BinomialAbove(1, k);
        BinomialAbove(0, k - 1);
      }
    } else {
      var a, b := Binomial(n - 1, k - 1), Binomial(n - 1, k);
      Absorption(n - 1, k);
      if k == 1 {
        assert Binomial(n - 1, 1) == n - 1;
      } else {
        Absorption(n - 1, k - 1);
        var c, d := Binomial(n - 2, k - 2), Binomial(n - 2, k - 1);
        AbsorptionStep(n, k, a, b, c, d);
      }
    }
  }

  lemma AbsorptionStep(n: int, k: int, a: int, b: int, c: int, d: int)
    requires (k - 1) * a == (n - 1) * c && k * b == (n - 1) * d && a == c + d
    ensures k * (a + b) == n * a
  {
    assert (n - 1) * c + (n - 1) * d == (n - 1) * a;
  }

  /** A prime divides every inner entry of its row. */
  lemma PrimeDividesRow(p: nat, k: nat)
    requires IsPrime(p) && 0 < k < p
    ensures Divides(p, Binomial(p, k))
  {
    Absorption(p, k);
    MultipleOf(p, Binomial(p - 1, k - 1));
    PrimeDividesProduct(p, k, Binomial(p, k));
    if Divides(p, k) {
      DivisorAtMost(p, k);
    }
  }

  /** The first m + 1 terms of the binomial expansion of (x + 1)^n. */
  function Expansion(x: int, n: nat, m: nat): int {
    (if m == 0 then 0 else Expansion(x, n, m - 1)) + Binomial(n, m) * Pow(x, m)
  }

  lemma {:induction false} ExpansionPascal(x: int, n: nat, m: nat)
    ensures Expansion(x, n + 1, m) == Expansion(x, n, m) + (if m == 0 then 0 else x * Expansion(x, n, m - 1))
  {
    if m > 0 {
      ExpansionPascal(x, n, m - 1);
      var a, b, p := Binomial(n, m - 1), Binomial(n, m), Pow(x, m - 1);
      assert Binomial(n + 1, m) == a + b;
      PascalTerm(a, b, p, x);
      MulDistributes(if m == 1 then 0 else Expansion(x, n, m - 2), a * p, x);
    }
  }

  lemma PascalTerm(a: int, b: int, p: int, x: int)
    ensures (a + b) * (p * x) == x * (a * p) + b * (p * x)
  {
    MulDistributes(a, b, p * x);
    Rearrange(a, p, x);
  }

  lemma LastTermVanishes(x: int, n: nat)
    requires n > 0
    ensures Expansion(x, n - 1, n) == Expansion(x, n - 1, n - 1)
  {
    BinomialAbove(n - 1, n);
  }

  /** The binomial theorem for x + 1. */
  lemma {:induction false} BinomialTheorem(x: int, n: nat)
    ensures Expansion(x, n, n) == Pow(x + 1, n)
  {
    if n == 0 {
      assert Pow(x, 0) == 1;
    } else {
      BinomialTheorem(x, n - 1);
      ExpansionPascal(x, n - 1, n);
      LastTermVanishes(x, n);
      MulDistributes(x, 1, Pow(x + 1, n - 1));
    }
  }
}
