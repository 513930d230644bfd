/** The pairing group G1 and its exponents Zr: a group of prime order written additively, with generator g. */
module PrimeOrderGroups {
  import opened Arithmetic
  import opened Groups
  import opened NumberTheory

  datatype Curve<!T(!new)> = Curve(group: Group<T>, g: T, order: nat)

  /** An abelian group whose generator is not neutral and is annihilated by the prime order. */
  ghost predicate IsCurve<T(!new)>(c: Curve<T>) {
    && IsAbelianGroup(c.group)
    && IsPrime(c.order)
    && Times(c.group, c.g, c.order) == c.group.identity
    && c.g != c.group.identity
  }

  /** Multiples of the generator depend on the exponent modulo the order only, and on all of that. */
  lemma SameMultiple<T(!new)>(c: Curve<T>, k: int, l: int)
    requires IsCurve(c)
    ensures Times(c.group, c.g, k) == Times(c.group, c.g, l) <==> Congruent(k, l, c.order)
  {
    hide Divides;
    TimesAdd(c.group, c.g, k - l, l);
    if Congruent(k, l, c.order) {
      MultipleVanishes(c, k - l);
      assert c.group.NeutralAt(Times(c.group, c.g, l));
    }
    if Times(c.group, c.g, k) == Times(c.group, c.g, l) {
      CancelRight(c.group, Times(c.group, c.g, k - l), Times(c.group, c.g, l));
      OnlyMultiplesVanish(c, k - l);
    }
  }

  lemma CancelRight<T(!new)>(g: Group<T>, a: T, b: T)
    requires IsMonoid(g) && HasInverses(g) && g.add(a, b) == b
    ensures a == g.identity
  {
    assert g.AssociativeAt(a, b, g.inverse(b));
    assert g.InverseAt(b) && g.NeutralAt(a);
  }

  lemma MultipleVanishes<T(!new)>(c: Curve<T>, d: int)
    requires IsCurve(c) && Divides(c.order, d)
    ensures Times(c.group, c.g, d) == c.group.identity
  {
    hide Times;
    var j := Quotient(c.order, d);
    TimesTimes(c.group, c.g, c.order, j);
    TimesIdentity(c.group, j);
  }

  lemma OnlyMultiplesVanish<T(!new)>(c: Curve<T>, d: int)
    requires IsCurve(c) && Times(c.group, c.g, d) == c.group.identity
    ensures Divides(c.order, d)
  {
    hide Times;
    if !Divides(c.order, d) {
      var e := d % c.order;
      assert e != 0;
      CombineVanishing(c, d, -(d / c.order));
      assert d + (-(d / c.order)) * c.order == e by { ProductNegated(d / c.order, c.order); }
      SmallNotMultiple(c.order, e);
      PrimeCoprime(c.order, e);
      var u, v := GcdCombination(e, c.order);
      TimesTimes(c.group, c.g, e, u);
      TimesIdentity(c.group, u);
      CombineVanishing(c, u * e, v);
      TimesOne(c.group, c.g);
    }
  }

  lemma ProductNegated(q: int, m: int)
    ensures (-q) * m == -(q * m)
  {
  }

  lemma SmallNotMultiple(m: nat, e: nat)
    requires 0 < e < m
    ensures !Divides(m, e)
  {
    DivModUnique(e, m, 0, e);
  }

  /** Vanishing multiples stay so when multiples of the order are added. */
  lemma CombineVanishing<T(!new)>(c: Curve<T>, d: int, j: int)
    requires IsCurve(c) && Times(c.group, c.g, d) == c.group.identity
    ensures Times(c.group, c.g, d + j * c.order) == c.group.identity
  {
    hide Times;
    MultipleOf(c.order, j);
    MultipleVanishes(c, j * c.order);
    TimesAdd(c.group, c.g, d, j * c.order);
    assert c.group.NeutralAt(c.group.identity);
  }

  // Arithmetic in Zr

  function ZrAdd(a: nat, b: nat, r: nat): (s: nat)
    requires r > 0
    ensures s < r
  {
    (a + b) % r
  }

  function ZrMul(a: nat, b: nat, r: nat): (s: nat)
    requires r > 0
    ensures s < r
  {
    assert a * b >= 0;
    (a * b) % r
  }

  /** The power of a Zr element by a Zr element: the exponent, too, is reduced modulo r. */
  function ZrPow(a: int, e: nat, r: nat): (s: nat)
    requires r > 0
    ensures s < r
  {
    Pow(a, e % r) % r
  }
}
