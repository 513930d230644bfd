/** The polynomial by which CMAC doubling reduces 32-byte blocks. */
module CmacModulus {
  import opened Arithmetic
  import opened Octets
  import opened GaloisDoubling

  /** A polynomial of degree at most 1. */
  type residue = r: nat | r < 4

  /** x times a residue modulo x^2 + x + 1. */
  function Turn(r: residue): residue {
    if r == 0 then 0 else if r == 1 then 2 else if r == 2 then 3 else 1
  }

  /** A residue plus t. */
  function AddBit(r: residue, t: nat): residue
    requires t <= 1
  {
    if t == 0 then r else if r == 0 then 1 else if r == 1 then 0 else if r == 2 then 3 else 2
  }

  /** The remainder of a polynomial divided by x^2 + x + 1. */
  function Residue(v: nat): residue {
    if v == 0 then 0 else AddBit(Turn(Residue(v / 2)), v % 2)
  }

  function Quotient(v: nat): nat {
    if v == 0 then 0 else 2 * Quotient(v / 2) + Residue(v / 2) / 2
  }

  /** The product of a polynomial with x^2 + x + 1. */
  function Times7(q: nat): nat {
    XorBits(4 * q, XorBits(2 * q, q))
  }

  lemma XorDouble(a: nat, b: nat)
    ensures XorBits(2 * a, 2 * b) == 2 * XorBits(a, b)
  {
    hide XorBits;
    XorHalves(2 * a, 2 * b);
  }

  lemma XorBit(a: nat, t: nat)
    requires t <= 1
    ensures XorBits(2 * a, t) == 2 * a + t
  {
    hide XorBits;
    XorHalves(2 * a, t);
    XorZero(a);
  }

  /** (a + b) + (c + d) == (a + c) + (b + d) */
  lemma XorExchange(a: nat, b: nat, c: nat, d: nat)
    ensures XorBits(XorBits(a, b), XorBits(c, d)) == XorBits(XorBits(a, c), XorBits(b, d))
  {
    hide XorBits;
    XorAssociates(a, b, XorBits(c, d));
    XorAssociates(b, c, d);
    XorCommutes(b, c);
    XorAssociates(c, b, d);
    XorAssociates(a, c, XorBits(b, d));
  }

  lemma Times7Double(q: nat)
    ensures Times7(2 * q) == 2 * Times7(q)
  {
    hide XorBits;
    XorDouble(2 * q, q);
    XorDouble(4 * q, XorBits(2 * q, q));
  }

  lemma Times7Next(q: nat)
    ensures Times7(2 * q + 1) == XorBits(2 * Times7(q), 7)
  {
    hide XorBits;
    XorBit(q, 1);
    XorDouble(2 * q, 1);
    XorDouble(4 * q, 2);
    XorExchange(4 * q, 2, 2 * q, 1);
    XorExchange(8 * q, 4, XorBits(4 * q, 2 * q), XorBits(2, 1));
    Times7Double(q);
    Seven();
  }

  lemma Seven()
    ensures XorBits(4, XorBits(2, 1)) == 7 && XorBits(2, 1) == 3
  {
    hide XorBits;
    XorBit(1, 1);
    XorHalves(4, 3);
    XorBit(1, 1);
  }

  /** What a residue and its product with x differ by. */
  lemma TurnIs(r: residue)
    ensures 2 * r == XorBits(if r >= 2 then 7 else 0, Turn(r))
  {
    hide XorBits;
    XorZero(Turn(r));
    XorHalves(7, 3);
    XorHalves(3, 1);
    XorHalves(7, 1);
    XorHalves(1, 0);
    XorHalves(3, 0);
    XorZero(0);
  }

  lemma AddBitIs(r: residue, t: nat)
    requires t <= 1
    ensures AddBit(r, t) == XorBits(r, t)
  {
    hide XorBits;
    XorZero(r);
    XorBit(0, 1);
    XorBit(1, 1);
    XorHalves(1, 1);
    XorHalves(3, 1);
    XorZero(1);
    XorZero(0);
  }

  /** Division with remainder by x^2 + x + 1. */
  lemma {:induction false} Division(v: nat)
    ensures v == XorBits(Times7(Quotient(v)), Residue(v))
  {
    hide XorBits, Times7, Turn, AddBit;
    if v == 0 {
      Times7Zero();
      XorZero(0);
    } else {
      var w, t := v / 2, v % 2;
      var q: nat, r: residue := Quotient(w), Residue(w);
      Division(w);
      DivideNext(v, w, t, q, r);
    }
  }

  lemma Times7Zero()
    ensures Times7(0) == 0
  {
  }

  lemma DivideNext(v: nat, w: nat, t: nat, q: nat, r: residue)
    requires v == 2 * w + t && t <= 1 && w == XorBits(Times7(q), r)
    ensures v == XorBits(Times7(2 * q + r / 2), AddBit(Turn(r), t))
  {
    hide XorBits, Times7, Turn, AddBit;
    var seven := if r >= 2 then 7 else 0;
    XorDouble(Times7(q), r);
    TurnIs(r);
    XorBit(w, t);
    AddBitIs(Turn(r), t);
    XorAssociates(2 * Times7(q), seven, Turn(r));
    XorAssociates(XorBits(2 * Times7(q), seven), Turn(r), t);
    Times7Next(q);
    Times7Double(q);
    XorZero(2 * Times7(q));
  }

  lemma {:induction false} ResidueOfPower(k: nat)
    ensures Residue(Pow2(3 * k)) == 1
  {
    hide Pow2, Residue;
    Pow2Unfolds(3 * k);
    if k > 0 {
      var p := Pow2(3 * (k - 1));
      ResidueOfPower(k - 1);
      Pow2Unfolds(3 * k - 1);
      Pow2Unfolds(3 * k - 2);
      ResidueNext(p, 0);
      ResidueNext(2 * p, 0);
      ResidueNext(4 * p, 0);
    } else {
      ResidueOne();
    }
  }

  lemma ResidueOne()
    ensures Residue(1) == 1
  {
    assert Residue(0) == 0;
  }

  lemma ResidueOfTail(p: nat)
    requires p > 0 && Residue(p) == 1
    ensures Residue(8192 * p + 0x423) == 0 && Residue(8192 * p + 0x425) == 1
  {
    hide Residue;
    ResidueNext(p, 0);
    ResidueNext(2 * p, 0);
    ResidueNext(4 * p, 1);
    ResidueNext(8 * p + 1, 0);
    ResidueNext(16 * p + 2, 0);
    ResidueNext(32 * p + 4, 0);
    ResidueNext(64 * p + 8, 0);
    ResidueNext(128 * p + 16, 1);
    ResidueNext(256 * p + 33, 0);
    ResidueNext(512 * p + 66, 0);
    ResidueNext(1024 * p + 132, 0);
    ResidueNext(2048 * p + 264, 1);
    ResidueNext(4096 * p + 529, 1);
    ResidueNext(1024 * p + 132, 1);
    ResidueNext(2048 * p + 265, 0);
    ResidueNext(4096 * p + 530, 1);
  }

  lemma HighPower()
    ensures Pow256(32) == 8192 * Pow2(243) && Pow2(243) > 0 && Residue(Pow2(243)) == 1
  {
    hide Pow256, Pow2, Residue;
    Pow256IsPow2(32);
    Pow2Add(13, 243);
    Pow2Of13();
    ResidueOfPower(81);
  }

  lemma Pow2Of13()
    ensures Pow2(13) == 8192
  {
    assert Pow2(4) == 16;
    assert Pow2(8) == 256;
    assert Pow2(12) == 4096;
  }

  lemma NoRemainder(v: nat)
    requires Residue(v) == 0
    ensures v == Times7(Quotient(v))
  {
    hide Residue, Quotient, Times7, XorBits;
    Division(v);
    XorZero(Times7(Quotient(v)));
  }

  /** The modulus that the code has for blocks of 32 bytes is a product: x^256 + x^10 + x^5 + x + 1 is divisible by
      x^2 + x + 1, so it gives no field. The customary x^256 + x^10 + x^5 + x^2 + 1 is not divisible by it. */
  lemma Modulus32Factors()
    ensures exists q :: Pow256(32) + Tail(32) == Times7(q)
    ensures Residue(Pow256(32) + 0x425) != 0
  {
    hide Pow256, Pow2, Residue, Quotient, Times7;
    HighPower();
    ResidueOfTail(Pow2(243));
    NoRemainder(Pow256(32) + Tail(32));
  }

  lemma ResidueNext(v: nat, t: nat)
    requires t <= 1 && v > 0
    ensures Residue(2 * v + t) == AddBit(Turn(Residue(v)), t)
  {
  }
}
