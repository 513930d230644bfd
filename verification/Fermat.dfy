/** Fermat's little theorem, and Euler's theorem for a product of two primes. */
module Fermat {
  import opened Arithmetic
  import opened NumberTheory
  import opened Binomials

  lemma {:induction false} InnerTermsVanish(x: int, p: nat, m: nat)
    requires IsPrime(p) && m < p
    ensures Congruent(Expansion(x, p, m), 1, p)
  {
    if m == 0 {
      assert Expansion(x, p, 0) == 1;
      CongruentReflexive(1, p);
    } else {
      InnerTermsVanish(x, p, m - 1);
      PrimeDividesRow(p, m);
      DividesProduct(p, Binomial(p, m), Pow(x, m));
      DividesSum(p, Expansion(x, p, m - 1) - 1, Binomial(p, m) * Pow(x, m));
    }
  }

  /** (x + 1)^p = x^p + 1 modulo a prime p. */
  lemma FreshmansDream(x: int, p: nat)
    requires IsPrime(p)
    ensures Congruent(Pow(x + 1, p), Pow(x, p) + 1, p)
  {
    BinomialTheorem(x, p);
    InnerTermsVanish(x, p, p - 1);
    BinomialSelf(p);
    assert Expansion(x, p, p) - (Pow(x, p) + 1) == Expansion(x, p, p - 1) - 1;
  }

  /** x^p = x modulo a prime p. */
  lemma {:induction false} FermatPower(x: nat, p: nat)
    requires IsPrime(p)
    ensures Congruent(Pow(x, p), x, p)
  {
    if x == 0 {
      assert Pow(0, p) == Pow(0, p - 1) * 0;
      CongruentReflexive(0, p);
    } else {
      FermatPower(x - 1, p);
      FreshmansDream(x - 1, p);
      CongruentReflexive(1, p);
      CongruentSum(Pow(x - 1, p), x - 1, 1, 1, p);
      CongruentTransitive(Pow(x, p), Pow(x - 1, p) + 1, x, p);
    }
  }

  /** x^(p - 1) = 1 modulo a prime p that does not divide x. */
  lemma FermatUnit(x: nat, p: nat)
    requires IsPrime(p) && !Divides(p, x)
    ensures Congruent(Pow(x, p - 1), 1, p)
  {
    FermatPower(x, p);
    MulDistributes(Pow(x, p - 1), -1, x);
    assert x * (Pow(x, p - 1) - 1) == Pow(x, p) - x;
    PrimeDividesProduct(p, x, Pow(x, p - 1) - 1);
  }

  /** Adding a multiple f of p - 1 to a positive exponent changes nothing modulo p, unit or not. */
  lemma ExponentPeriod(x: nat, p: nat, e: nat, k: nat, f: nat)
    requires IsPrime(p) && (e > 0 || !Divides(p, x)) && f == k * (p - 1)
    ensures Congruent(Pow(x, e + f), Pow(x, e), p)
  {
    PowAdd(x, e, f);
    if Divides(p, x) {
      PowersVanish(x, p, e, f);
    } else {
      hide Divides, IsPrime, Pow, Congruent;
      FermatUnit(x, p);
      CongruentPow(Pow(x, p - 1), 1, k, p);
      PowMul(x, p - 1, k);
      assert (p - 1) * k == f;
      PowOfOne(k);
      CongruentReflexive(Pow(x, e), p);
      CongruentProduct(Pow(x, e), Pow(x, e), Pow(x, f), 1, p);
    }
  }

  lemma PowersVanish(x: nat, p: nat, e: nat, f: nat)
    requires p > 0 && Divides(p, x) && e > 0
    ensures Congruent(Pow(x, e) * Pow(x, f), Pow(x, e), p)
  {
    hide Divides;
    DividesProduct(p, x, Pow(x, e - 1));
    DividesProduct(p, Pow(x, e), Pow(x, f));
    DividesSum(p, Pow(x, e) * Pow(x, f), Pow(x, e));
  }

  /** The part of e that reduction modulo a * b drops is a multiple of both factors. */
  lemma SplitExponent(e: nat, a: nat, b: nat, phi: nat) returns (dropped: nat, j: nat, l: nat)
    requires a > 0 && b > 0 && phi == a * b && phi > 0
    ensures e == e % phi + dropped && dropped == j * a && dropped == l * b
  {
    var k := e / phi;
    dropped, j, l := k * phi, k * b, k * a;
    Rearrange(k, b, a);
    Rearrange(k, a, b);
  }

  /** Euler's theorem for distinct primes p and q, as exponent reduction modulo (p - 1)(q - 1). It holds
      for every x as long as the reduced exponent is positive, and for units even if it is zero. */
  lemma EulerReduction(x: nat, p: nat, q: nat, e: nat, phi: nat)
    requires IsPrime(p) && IsPrime(q) && p != q
    requires phi == (p - 1) * (q - 1) && phi > 0
    requires e % phi > 0 || (!Divides(p, x) && !Divides(q, x))
    ensures p * q > 0
    ensures Congruent(Pow(x, e), Pow(x, e % phi), p * q)
  {
    assert p >= 2 && q >= 2;
    hide Divides, IsPrime, Pow;
    var dropped, j, l := SplitExponent(e, p - 1, q - 1, phi);
    var r := e % phi;
    ExponentPeriod(x, p, r, j, dropped);
    ExponentPeriod(x, q, r, l, dropped);
    DistinctPrimesDivide(p, q, Pow(x, e) - Pow(x, r));
  }
}
