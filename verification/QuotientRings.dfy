/** Euclid's algorithm and inverses in a quotient ring of the integers. */
module QuotientRings {
  import opened Arithmetic
  import opened NumberTheory

  /** `Integer::IsUnit`: plus or minus one. */
  predicate IsIntegerUnit(a: int) {
    a == 1 || a == -1
  }

  /** `QuotientRing::Equal`: congruence modulo the modulus. */
  predicate Equal(a: int, b: int, modulus: nat)
    requires modulus > 0
  {
    (a - b) % modulus == 0
  }

  // `Integer::Divide` leaves a remainder that is never negative, as `/` and `%` do here.

  function Divide(a: int, d: int): int
    requires d != 0
  {
    a / d
  }

  function Remainder(a: int, d: int): (r: int)
    requires d != 0
    ensures 0 <= r < Abs(d)
  {
    a % d
  }

  lemma DivisionAlgorithm(a: int, d: int)
    requires d != 0
    ensures a == d * Divide(a, d) + Remainder(a, d)
  {
  }

  /** Pairs with the same common divisors have the same greatest one. */
  lemma GcdStep(x: int, y: int)
    requires y != 0
    ensures Gcd(Abs(x), Abs(y)) == Gcd(Abs(y), Remainder(x, y))
  {
    hide Divides, Gcd, Remainder, Divide;
    var q, r := Divide(x, y), Remainder(x, y);
    DivisionAlgorithm(x, y);
    var g, h := Gcd(Abs(x), Abs(y)), Gcd(Abs(y), r);
    GcdDivides(Abs(x), Abs(y));
    DividesMagnitude(g, x);
    DividesMagnitude(g, y);
    DividesProduct(g, y, q);
    DividesSum(g, x, y * q);
    GcdDivides(Abs(y), r);
    DividesMagnitude(h, y);
    DividesProduct(h, y, q);
    DividesSum(h, y * q, r);
    DividesMagnitude(h, x);
    CommonDividesGcd(g, Abs(y), r);
    CommonDividesGcd(h, Abs(x), Abs(y));
    DivisorAtMost(g, h);
    DivisorAtMost(h, g);
  }

  /** Three slots taken in turn. */
  predicate Rotation(i0: nat, i1: nat, i2: nat) {
    i0 < 3 && i1 < 3 && i2 < 3 && i0 != i1 && i1 != i2 && i0 != i2
  }

  /** `AbstractEuclideanDomain::Gcd` for integers. The sign of the result is not fixed. */
  method IntegerGcd(a: int, b: int) returns (result: int)
    ensures Abs(result) == Gcd(Abs(a), Abs(b))
  {
    var g := [b, a, 0];
    var i0, i1, i2 := 0, 1, 2;
    GcdSymmetric(Abs(a), Abs(b));
    while g[i1] != 0
      invariant |g| == 3 && Rotation(i0, i1, i2)
      invariant Gcd(Abs(g[i0]), Abs(g[i1])) == Gcd(Abs(a), Abs(b))
      decreases Abs(g[i1])
    {
      GcdStep(g[i0], g[i1]);
      g := g[i2 := Remainder(g[i0], g[i1])];
      i0, i1, i2 := i1, i2, i0;
    }
    result := g[i0];
  }

  lemma GcdSymmetric(a: nat, b: nat)
    ensures Gcd(a, b) == Gcd(b, a)
  {
    if a > 0 || b > 0 {
      GcdDivides(a, b);
      GcdDivides(b, a);
      CommonDividesGcd(Gcd(a, b), b, a);
      CommonDividesGcd(Gcd(b, a), a, b);
      DivisorAtMost(Gcd(a, b), Gcd(b, a));
      DivisorAtMost(Gcd(b, a), Gcd(a, b));
    }
  }

  /** `QuotientRing::IsUnit`. */
  method IsUnit(a: int, modulus: nat) returns (unit: bool)
    requires modulus > 0
    ensures unit <==> Gcd(Abs(a), modulus) == 1
  {
    var g := IntegerGcd(a, modulus);
    unit := IsIntegerUnit(g);
  }

  /** What the two running pairs satisfy: each remainder is its cofactor times a. */
  ghost predicate Cofactors(a: int, modulus: nat, g0: int, v0: int, g1: int, v1: int)
    requires modulus > 0
  {
    Congruent(a * v0, g0, modulus) && Congruent(a * v1, g1, modulus)
  }

  lemma CofactorStep(a: int, modulus: nat, g0: int, v0: int, g1: int, v1: int)
    requires modulus > 0 && g1 != 0 && Cofactors(a, modulus, g0, v0, g1, v1)
    ensures Cofactors(a, modulus, g1, v1, Remainder(g0, g1), v0 - v1 * Divide(g0, g1))
  {
    hide Divides;
    var y := Divide(g0, g1);
    DivisionAlgorithm(g0, g1);
    CongruentReflexive(y, modulus);
    CongruentProduct(a * v1, g1, y, y, modulus);
    CongruentSum(a * v0, g0, (a * v1) * y, g1 * y, modulus);
    CofactorProduct(a, v0, v1, y);
  }

  lemma CofactorProduct(a: int, v0: int, v1: int, y: int)
    ensures a * v0 - (a * v1) * y == a * (v0 - v1 * y)
  {
    Rearrange(a, v1, y);
    MulDistributes(v0, -(v1 * y), a);
  }

  /** The inverse of a if a is a unit and, unless the modulus is 1, smaller in magnitude than the modulus.
      Zero otherwise: a unit given by a representative that is not reduced is not inverted. */
  method MultiplicativeInverse(a: int, modulus: nat) returns (inverse: int)
    requires modulus > 0
    ensures Congruent(a * inverse, 1, modulus) <==> Gcd(Abs(a), modulus) == 1 && (Abs(a) < modulus || modulus == 1)
    ensures !Congruent(a * inverse, 1, modulus) ==> inverse == 0
  {
    hide Divides, Congruent, Gcd, Cofactors, Searching, Equal, Divide, Remainder;
    var g: seq<int> := [modulus, a, 0];
    var v := [0, 1, 0];
    var i0, i1, i2 := 0, 1, 2;
    InverseStarts(a, modulus);
    assert Searching(a, modulus, modulus, a) by { SearchStarts(a, modulus); }
    while !Equal(g[i1], 0, modulus)
      invariant |g| == |v| == 3 && Rotation(i0, i1, i2)
      invariant Cofactors(a, modulus, g[i0], v[i0], g[i1], v[i1])
      invariant Gcd(Abs(g[i0]), Abs(g[i1])) == Gcd(Abs(a), modulus)
      invariant Searching(a, modulus, g[i0], g[i1])
      decreases Abs(g[i1])
    {
      SearchStep(a, modulus, g[i0], g[i1]);
      var y := Divide(g[i0], g[i1]);
      CofactorStep(a, modulus, g[i0], v[i0], g[i1], v[i1]);
      GcdStep(g[i0], g[i1]);
      g := g[i2 := Remainder(g[i0], g[i1])];
      v := v[i2 := v[i0] - v[i1] * y];
      i0, i1, i2 := i1, i2, i0;
    }
    inverse := if IsIntegerUnit(g[i0]) then Divide(v[i0], g[i0]) else 0;
    InverseFound(a, modulus, g[i0], v[i0], g[i1], v[i1], inverse);
  }

  /** Modulo 2, 3 is its own inverse, but zero is returned for it. */
  method InverseFails() returns (inverse: int)
    ensures inverse == 0 && Gcd(3, 2) == 1 && Congruent(3 * 3, 1, 2)
  {
    hide Gcd;
    GcdOfThreeAndTwo();
    inverse := MultiplicativeInverse(3, 2);
  }

  lemma GcdOfThreeAndTwo()
    ensures Gcd(3, 2) == 1
  {
    assert Gcd(3, 2) == Gcd(2, 1) && Gcd(2, 1) == Gcd(1, 0) && Gcd(1, 0) == 1;
  }

  /** The remainder the loop tests is a, or a reduced remainder below |a|, or - when a is not reduced -
      the modulus itself, which stops the loop at once. */
  ghost predicate Searching(a: int, modulus: nat, g0: int, g1: int) {
    || (g0 == modulus && g1 == a)
    || (Abs(a) < modulus && 0 <= g1 < Abs(a) && g0 != 0)
    || (Abs(a) > modulus && g0 == a && g1 == modulus)
  }

  lemma SearchStarts(a: int, modulus: nat)
    ensures Searching(a, modulus, modulus, a)
  {
  }

  lemma SearchStep(a: int, modulus: nat, g0: int, g1: int)
    requires modulus > 0 && Searching(a, modulus, g0, g1) && !Equal(g1, 0, modulus)
    ensures g1 != 0 && Searching(a, modulus, g1, Remainder(g0, g1))
    ensures Abs(Remainder(g0, g1)) < Abs(g1)
  {
    EqualZero(modulus);
    if g0 == modulus && g1 == a && Abs(a) > modulus {
      SmallRemainder(modulus, a);
    }
  }

  lemma EqualZero(modulus: nat)
    requires modulus > 0
    ensures Equal(0, 0, modulus) && Equal(modulus, 0, modulus) && Equal(-(modulus as int), 0, modulus)
  {
    MultipleOf(modulus, 1);
    MultipleOf(modulus, -1);
  }

  lemma SmallRemainder(m: nat, a: int)
    requires Abs(a) > m
    ensures Remainder(m, a) == m
  {
    DivisionAlgorithm(m, a);
    var q, r := Divide(m, a), Remainder(m, a);
    assert q * a == m - r;
    assert q != 0 ==> Abs(q * a) >= Abs(a);
  }

  lemma InverseStarts(a: int, modulus: nat)
    requires modulus > 0
    ensures Cofactors(a, modulus, modulus, 0, a, 1)
    ensures Gcd(modulus, Abs(a)) == Gcd(Abs(a), modulus)
  {
    MultipleOf(modulus, -1);
    CongruentReflexive(a, modulus);
    GcdSymmetric(modulus, Abs(a));
    assert a * 0 - modulus == (-1) * modulus;
  }

  lemma InverseFound(a: int, modulus: nat, g0: int, v0: int, g1: int, v1: int, inverse: int)
    requires modulus > 0 && Searching(a, modulus, g0, g1) && Equal(g1, 0, modulus)
    requires Cofactors(a, modulus, g0, v0, g1, v1)
    requires Gcd(Abs(g0), Abs(g1)) == Gcd(Abs(a), modulus)
    requires inverse == if IsIntegerUnit(g0) then Divide(v0, g0) else 0
    ensures Congruent(a * inverse, 1, modulus) <==> Gcd(Abs(a), modulus) == 1 && (Abs(a) < modulus || modulus == 1)
    ensures !Congruent(a * inverse, 1, modulus) ==> inverse == 0
  {
    if modulus == 1 {
      MultipleOf(1, a * inverse - 1);
      GcdOfOne(a);
    } else {
      if g1 != modulus && !(g0 == modulus && g1 == a && Abs(a) >= modulus) {
        assert Abs(g1) < modulus;
        ReducedZero(g1, modulus);
        GcdWithZero(g0);
      }
      if IsIntegerUnit(g0) {
        UnitInverse(a, modulus, g0, v0);
      } else {
        ZeroIsNoInverse(a, modulus);
      }
    }
  }

  lemma GcdWithZero(g: int)
    ensures Gcd(Abs(g), 0) == Abs(g)
  {
  }

  lemma ReducedZero(g: int, modulus: nat)
    requires modulus > 0 && Abs(g) < modulus && Equal(g, 0, modulus)
    ensures g == 0
  {
    DivModUnique(g, modulus, if g < 0 then -1 else 0, if g < 0 then g + modulus else g);
  }

  lemma UnitInverse(a: int, modulus: nat, g0: int, v0: int)
    requires modulus > 0 && IsIntegerUnit(g0) && Congruent(a * v0, g0, modulus)
    ensures Congruent(a * Divide(v0, g0), 1, modulus)
  {
    if g0 == -1 {
      assert Divide(v0, g0) == -v0;
      DividesSum(modulus, 0, a * v0 - g0);
      assert a * (-v0) - 1 == 0 - (a * v0 - g0);
    }
  }

  lemma ZeroIsNoInverse(a: int, modulus: nat)
    requires modulus > 1
    ensures !Congruent(a * 0, 1, modulus)
  {
    DivModUnique(-1, modulus, -1, modulus - 1);
    assert a * 0 - 1 == -1;
  }

  lemma GcdOfOne(a: int)
    ensures Gcd(Abs(a), 1) == 1
  {
    GcdDivides(Abs(a), 1);
    DivisorAtMost(Gcd(Abs(a), 1), 1);
  }
}
