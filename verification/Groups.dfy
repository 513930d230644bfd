/** The group interface of Crypto++ (`AbstractGroup`, additive notation) and the laws its algorithms rest on. */
module Groups {

  /** A group as its operations; `fastNegate` is what InversionIsFast answers. */
  datatype Group<!T(!new)> = Group(identity: T, add: (T, T) -> T, inverse: T -> T, fastNegate: bool) {

    function Double(a: T): T {
      add(a, a)
    }

    // One instance of each law. Quantifying over these names keeps the laws from being
    // instantiated where no proof asks for them.
    ghost predicate AssociativeAt(a: T, b: T, c: T) {
      add(add(a, b), c) == add(a, add(b, c))
    }

    ghost predicate NeutralAt(a: T) {
      add(a, identity) == a && add(identity, a) == a
    }

    ghost predicate InverseAt(a: T) {
      add(a, inverse(a)) == identity && add(inverse(a), a) == identity
    }

    ghost predicate CommutativeAt(a: T, b: T) {
      add(a, b) == add(b, a)
    }
  }

  ghost predicate IsMonoid<T(!new)>(g: Group<T>) {
    && (forall a, b, c :: g.AssociativeAt(a, b, c))
    && (forall a :: g.NeutralAt(a))
  }

  ghost predicate HasInverses<T(!new)>(g: Group<T>) {
    forall a :: g.InverseAt(a)
  }

  ghost predicate IsCommutative<T(!new)>(g: Group<T>) {
    forall a, b :: g.CommutativeAt(a, b)
  }

  ghost predicate IsAbelianGroup<T(!new)>(g: Group<T>) {
    IsMonoid(g) && HasInverses(g) && IsCommutative(g)
  }

  /** The specification of scalar multiplication: x added n times, or its inverse added -n times. */
  function Times<T(!new)>(g: Group<T>, x: T, n: int): T
    decreases if n >= 0 then n else -n
  {
    if n == 0 then g.identity
    else if n > 0 then g.add(Times(g, x, n - 1), x)
    else g.add(Times(g, x, n + 1), g.inverse(x))
  }

  lemma TimesOne<T(!new)>(g: Group<T>, x: T)
    requires IsMonoid(g)
    ensures Times(g, x, 1) == x
    ensures Times(g, x, 2) == g.Double(x)
  {
    assert g.NeutralAt(x);
    assert Times(g, x, 1) == g.add(Times(g, x, 0), x);
  }

  lemma TimesSuccessor<T(!new)>(g: Group<T>, x: T, n: int)
    requires IsMonoid(g) && (n >= 0 || HasInverses(g))
    ensures g.add(Times(g, x, n), x) == Times(g, x, n + 1)
  {
    if n < 0 {
      var y := Times(g, x, n + 1);
      assert g.AssociativeAt(y, g.inverse(x), x);
      assert g.InverseAt(x) && g.NeutralAt(y);
    }
  }

  lemma TimesPredecessor<T(!new)>(g: Group<T>, x: T, n: int)
    requires IsMonoid(g) && HasInverses(g)
    ensures g.add(Times(g, x, n), g.inverse(x)) == Times(g, x, n - 1)
  {
    if n > 0 {
      var y := Times(g, x, n - 1);
      assert g.AssociativeAt(y, x, g.inverse(x));
      assert g.InverseAt(x) && g.NeutralAt(y);
    }
  }

  lemma {:induction false} TimesAdd<T(!new)>(g: Group<T>, x: T, m: int, n: int)
    requires IsMonoid(g) && ((m >= 0 && n >= 0) || HasInverses(g))
    ensures g.add(Times(g, x, m), Times(g, x, n)) == Times(g, x, m + n)
    decreases if n >= 0 then n else -n
  {
    if n == 0 {
      assert g.NeutralAt(Times(g, x, m));
    } else if n > 0 {
      TimesAdd(g, x, m, n - 1);
      assert g.AssociativeAt(Times(g, x, m), Times(g, x, n - 1), x);
      TimesSuccessor(g, x, m + n - 1);
    } else {
      TimesAdd(g, x, m, n + 1);
      assert g.AssociativeAt(Times(g, x, m), Times(g, x, n + 1), g.inverse(x));
      TimesPredecessor(g, x, m + n + 1);
    }
  }

  lemma InverseUnique<T(!new)>(g: Group<T>, a: T, b: T)
    requires IsMonoid(g) && HasInverses(g) && g.add(a, b) == g.identity
    ensures g.inverse(a) == b
  {
    assert g.AssociativeAt(g.inverse(a), a, b);
    assert g.InverseAt(a) && g.NeutralAt(b) && g.NeutralAt(g.inverse(a));
  }

  lemma TimesInverse<T(!new)>(g: Group<T>, x: T, n: int)
    requires IsMonoid(g) && HasInverses(g)
    ensures g.inverse(Times(g, x, n)) == Times(g, x, -n)
  {
    TimesAdd(g, x, n, -n);
    InverseUnique(g, Times(g, x, n), Times(g, x, -n));
  }

  lemma {:induction false} TimesIdentity<T(!new)>(g: Group<T>, n: int)
    requires IsMonoid(g) && (n >= 0 || HasInverses(g))
    ensures Times(g, g.identity, n) == g.identity
    decreases if n >= 0 then n else -n
  {
    if n > 0 {
      TimesIdentity(g, n - 1);
      assert g.NeutralAt(g.identity);
    } else if n < 0 {
      TimesIdentity(g, n + 1);
      assert g.NeutralAt(g.identity);
      InverseUnique(g, g.identity, g.identity);
    }
  }

  /** n(mx) = (nm)x. */
  lemma {:induction false} TimesTimes<T(!new)>(g: Group<T>, x: T, m: int, n: int)
    requires IsMonoid(g) && ((m >= 0 && n >= 0) || HasInverses(g))
    ensures Times(g, Times(g, x, m), n) == Times(g, x, n * m)
    decreases if n >= 0 then n else -n
  {
    if n > 0 {
      TimesTimes(g, x, m, n - 1);
      assert (n - 1) * m + m == n * m;
      assert m >= 0 ==> (n - 1) * m >= 0;
      TimesAdd(g, x, (n - 1) * m, m);
    } else if n < 0 {
      TimesTimes(g, x, m, n + 1);
      TimesInverse(g, x, m);
      TimesAdd(g, x, (n + 1) * m, -m);
      assert (n + 1) * m + -m == n * m;
    } else {
      assert n * m == 0;
    }
  }

  /** In a commutative monoid the middle two of four summands can be exchanged. */
  lemma Interchange<T(!new)>(g: Group<T>, a: T, b: T, c: T, d: T)
    requires IsMonoid(g) && IsCommutative(g)
    ensures g.add(g.add(a, b), g.add(c, d)) == g.add(g.add(a, c), g.add(b, d))
  {
    var f := g.add;
    assert g.AssociativeAt(a, b, f(c, d)) && g.AssociativeAt(b, c, d);
    assert g.CommutativeAt(b, c);
    assert g.AssociativeAt(c, b, d) && g.AssociativeAt(a, c, f(b, d));
  }

  /** n(x + y) = nx + ny in a commutative group. */
  lemma {:induction false} TimesDistributes<T(!new)>(g: Group<T>, x: T, y: T, n: nat)
    requires IsMonoid(g) && IsCommutative(g)
    ensures Times(g, g.add(x, y), n) == g.add(Times(g, x, n), Times(g, y, n))
  {
    if n == 0 {
      assert g.NeutralAt(g.identity);
    } else {
      TimesDistributes(g, x, y, n - 1);
      Interchange(g, Times(g, x, n - 1), Times(g, y, n - 1), x, y);
    }
  }
}
