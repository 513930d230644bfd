/** Divisibility, congruences, primes and greatest common divisors of integers. */
module NumberTheory {
  import opened Arithmetic

  ghost predicate Divides(d: int, n: int)
    requires d > 0
  {
    n % d == 0
  }

  ghost predicate Congruent(a: int, b: int, m: int)
    requires m > 0
  {
    Divides(m, a - b)
  }

  ghost predicate IsPrime(p: int) {
    p >= 2 && forall d {:trigger Divides(d, p)} :: 1 < d < p ==> !Divides(d, p)
  }

  lemma MultipleOf(d: int, k: int)
    requires d > 0
    ensures Divides(d, k * d) && Divides(d, d * k)
  {
    DivModUnique(k * d, d, k, 0);
    Commute(k, d);
  }

  lemma Commute(k: int, d: int)
    ensures k * d == d * k
  {
  }

  lemma Quotient(d: int, n: int) returns (k: int)
    requires d > 0 && Divides(d, n)
    ensures n == k * d
  {
    k := n / d;
  }

  lemma DividesSum(d: int, a: int, b: int)
    requires d > 0 && Divides(d, a) && Divides(d, b)
    ensures Divides(d, a + b) && Divides(d, a - b)
  {
    hide Divides;
    var j := Quotient(d, a);
    var k := Quotient(d, b);
    SumOfMultiples(j, k, d);
    MultipleOf(d, j + k);
    MultipleOf(d, j - k);
  }

  lemma DividesMagnitude(d: int, x: int)
    requires d > 0
    ensures Divides(d, Abs(x)) <==> Divides(d, x)
  {
    hide Divides;
    assert Divides(d, 0) by { MultipleOf(d, 0); }
    if Divides(d, x) {
      DividesSum(d, 0, x);
    }
    if Divides(d, Abs(x)) {
      DividesSum(d, 0, Abs(x));
    }
  }

  lemma SumOfMultiples(j: int, k: int, d: int)
    ensures j * d + k * d == (j + k) * d && j * d - k * d == (j - k) * d
  {
  }

  lemma DividesProduct(d: int, a: int, b: int)
    requires d > 0 && Divides(d, a)
    ensures Divides(d, a * b) && Divides(d, b * a)
  {
    var k := Quotient(d, a);
    Rearrange(k, d, b);
    MultipleOf(d, k * b);
  }

  lemma Rearrange(a: int, b: int, c: int)
    ensures (a * b) * c == (a * c) * b
    ensures (a * b) * c == a * (b * c)
    ensures c * (a * b) == (a * c) * b
  {
  }

  lemma DividesTransitive(a: int, b: int, n: int)
    requires a > 0 && b > 0 && Divides(a, b) && Divides(b, n)
    ensures Divides(a, n)
  {
    var k := Quotient(b, n);
    DividesProduct(a, b, k);
  }

  /** A divisor of a positive number is no larger. */
  lemma DivisorAtMost(d: int, n: int)
    requires d > 0 && n > 0 && Divides(d, n)
    ensures d <= n
  {
    if d > n {
      DivModUnique(n, d, 0, n);
    }
  }

  lemma CongruentReflexive(a: int, m: int)
    requires m > 0
    ensures Congruent(a, a, m)
  {
  }

  lemma CongruentSymmetric(a: int, b: int, m: int)
    requires m > 0 && Congruent(a, b, m)
    ensures Congruent(b, a, m)
  {
    DividesSum(m, 0, a - b);
  }

  lemma CongruentTransitive(a: int, b: int, c: int, m: int)
    requires m > 0 && Congruent(a, b, m) && Congruent(b, c, m)
    ensures Congruent(a, c, m)
  {
    DividesSum(m, a - b, b - c);
  }

  lemma CongruentSum(a: int, b: int, c: int, d: int, m: int)
    requires m > 0 && Congruent(a, b, m) && Congruent(c, d, m)
    ensures Congruent(a + c, b + d, m) && Congruent(a - c, b - d, m)
  {
    DividesSum(m, a - b, c - d);
    assert (a - b) + (c - d) == (a + c) - (b + d);
    assert (a - b) - (c - d) == (a - c) - (b - d);
  }

  lemma CongruentProduct(a: int, b: int, c: int, d: int, m: int)
    requires m > 0 && Congruent(a, b, m) && Congruent(c, d, m)
    ensures Congruent(a * c, b * d, m)
  {
    DividesProduct(m, a - b, c);
    DividesProduct(m, c - d, b);
    DividesSum(m, (a - b) * c, b * (c - d));
    ProductDifference(a, b, c, d);
  }

  lemma ProductDifference(a: int, b: int, c: int, d: int)
    ensures (a - b) * c + b * (c - d) == a * c - b * d
  {
  }

  lemma CongruentMod(a: int, m: int)
    requires m > 0
    ensures Congruent(a % m, a, m) && Congruent(a, a % m, m)
  {
    MultipleOf(m, a / m);
    MultipleOf(m, -(a / m));
    assert a - a % m == (a / m) * m;
    assert a % m - a == (-(a / m)) * m;
  }

  lemma CongruentIsSameMod(a: int, b: int, m: int)
    requires m > 0
    ensures Congruent(a, b, m) <==> a % m == b % m
  {
    if Congruent(a, b, m) {
      var k := Quotient(m, a - b);
      AddMultiple(b, k, m);
    }
    if a % m == b % m {
      CongruentMod(a, m);
      CongruentMod(b, m);
      CongruentTransitive(a, a % m, b, m);
    }
  }

  // Powers

  function Pow(b: int, e: nat): int {
    if e == 0 then 1 else Pow(b, e - 1) * b
  }

  lemma {:induction false} PowAdd(b: int, c: nat, d: nat)
    ensures Pow(b, c + d) == Pow(b, c) * Pow(b, d)
  {
    if d > 0 {
      PowAdd(b, c, d - 1);
      Rearrange(Pow(b, c), Pow(b, d - 1), b);
    }
  }

  lemma {:induction false} PowMul(b: int, c: nat, d: nat)
    ensures c * d >= 0
    ensures Pow(Pow(b, c), d) == Pow(b, c * d)
  {
    if d > 0 {
      PowMul(b, c, d - 1);
      MulDistributes(d - 1, 1, c);
      PowAdd(b, c * (d - 1), c);
    }
  }

  lemma {:induction false} PowOfOne(e: nat)
    ensures Pow(1, e) == 1
  {
    if e > 0 {
      PowOfOne(e - 1);
    }
  }

  lemma {:induction false} CongruentPow(a: int, b: int, e: nat, m: int)
    requires m > 0 && Congruent(a, b, m)
    ensures Congruent(Pow(a, e), Pow(b, e), m)
  {
    if e == 0 {
      CongruentReflexive(1, m);
    } else {
      CongruentPow(a, b, e - 1, m);
      CongruentProduct(Pow(a, e - 1), Pow(b, e - 1), a, b, m);
    }
  }

  // Greatest common divisors

  function Gcd(a: nat, b: nat): (g: nat)
    ensures a > 0 || b > 0 ==> g > 0
    decreases b
  {
    if b == 0 then a else Gcd(b, a % b)
  }

  lemma {:induction false} GcdDivides(a: nat, b: nat)
    requires a > 0 || b > 0
    ensures Divides(Gcd(a, b), a) && Divides(Gcd(a, b), b)
    decreases b
  {
    hide Divides;
    if b == 0 {
      MultipleOf(a, 1);
      MultipleOf(a, 0);
    } else {
      GcdDivides(b, a % b);
      var g, q, r := Gcd(a, b), a / b, a % b;
      DividesProduct(g, b, q);
      DividesSum(g, b * q, r);
      assert a == b * q + r;
    }
  }

  /** Bezout: the greatest common divisor is a combination of both numbers. */
  lemma {:induction false} GcdCombination(a: nat, b: nat) returns (u: int, v: int)
    ensures u * a + v * b == Gcd(a, b)
    decreases b
  {
    if b == 0 {
      u, v := 1, 0;
    } else {
      var s, t := GcdCombination(b, a % b);
      u, v := t, s - t * (a / b);
      CombinationStep(a, b, a / b, a % b, s, t);
    }
  }

  lemma CombinationStep(a: int, b: int, q: int, r: int, s: int, t: int)
    requires a == b * q + r
    ensures t * a + (s - t * q) * b == s * b + t * r
  {
    assert t * (b * q) == (t * q) * b;
    assert (s - t * q) * b == s * b - (t * q) * b;
    MulDistributes(b * q, r, t);
  }

  /** Every common divisor divides the greatest one. */
  lemma CommonDividesGcd(d: int, a: nat, b: nat)
    requires d > 0 && Divides(d, a) && Divides(d, b)
    ensures Divides(d, Gcd(a, b))
  {
    var u, v := GcdCombination(a, b);
    DividesProduct(d, a, u);
    DividesProduct(d, b, v);
    DividesSum(d, u * a, v * b);
  }

  /** If a * v is congruent to 1, or v combines a and m to 1, the two are coprime. */
  lemma CombinationCoprime(a: nat, m: nat, u: int, v: int)
    requires m > 0 && u * a + v * m == 1
    ensures Gcd(a, m) == 1
  {
    var g := Gcd(a, m);
    GcdDivides(a, m);
    DividesProduct(g, a, u);
    DividesProduct(g, m, v);
    DividesSum(g, u * a, v * m);
    DivisorAtMost(g, 1);
  }

  /** A number coprime to one factor of a product it divides divides the other. */
  lemma CoprimeDivides(d: nat, a: nat, b: int)
    requires d > 0 && Gcd(a, d) == 1 && Divides(d, a * b)
    ensures Divides(d, b)
  {
    var u, v := GcdCombination(a, d);
    DividesProduct(d, a * b, u);
    MultipleOf(d, v * b);
    DividesSum(d, u * (a * b), (v * b) * d);
    BezoutTimes(u, a, v, d, b);
  }

  lemma BezoutTimes(u: int, a: int, v: int, d: int, b: int)
    requires u * a + v * d == 1
    ensures u * (a * b) + (v * b) * d == b
  {
    assert u * (a * b) == (u * a) * b;
    assert (v * b) * d == (v * d) * b;
    MulDistributes(u * a, v * d, b);
  }

  // Primes

  lemma PrimeCoprime(p: nat, a: nat)
    requires IsPrime(p) && !Divides(p, a)
    ensures Gcd(a, p) == 1
  {
    var g := Gcd(a, p);
    GcdDivides(a, p);
    DivisorAtMost(g, p);
    assert Divides(g, p);
  }

  /** Euclid's lemma. */
  lemma PrimeDividesProduct(p: nat, a: nat, b: int)
    requires IsPrime(p) && Divides(p, a * b)
    ensures Divides(p, a) || Divides(p, b)
  {
    if !Divides(p, a) {
      PrimeCoprime(p, a);
      CoprimeDivides(p, a, b);
    }
  }

  /** Two distinct primes dividing a number divide it together. */
  lemma DistinctPrimesDivide(p: nat, q: nat, n: int)
    requires IsPrime(p) && IsPrime(q) && p != q && Divides(p, n) && Divides(q, n)
    ensures p * q > 0 && Divides(p * q, n)
  {
    var k := Quotient(p, n);
    if Divides(q, p) {
      DivisorAtMost(q, p);
      assert false;
    }
    PrimeDividesProduct(q, p, k);
    var j := Quotient(q, k);
    assert p * q > 0;
    Rearrange(j, q, p);
    assert j * (p * q) == n;
    MultipleOf(p * q, j);
  }
}
