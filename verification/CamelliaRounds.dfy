/** The round function of Camellia: section 2.4 of RFC 3713, and the two ways of computing it. */
module CamelliaRounds {
  import opened Words

  // Words as four bytes, most significant byte first

  function Pack(a: bv8, b: bv8, c: bv8, d: bv8): bv32 {
    (a as bv32 << 24) | (b as bv32 << 16) | (c as bv32 << 8) | d as bv32
  }

  function Xor8(a: bv8, b: bv8): bv8 {
    a ^ b
  }

  // `rotlFixed` and `rotrFixed`

  function Rotl8(x: bv32): bv32 {
    (x << 8) | (x >> 24)
  }

  function Rotl16(x: bv32): bv32 {
    (x << 16) | (x >> 16)
  }

  function Rotr8(x: bv32): bv32 {
    (x >> 8) | (x << 24)
  }

  function ByteRotl1(x: bv8): bv8 {
    (x << 1) | (x >> 7)
  }

  function ByteRotr1(x: bv8): bv8 {
    (x >> 1) | (x << 7)
  }

  lemma PackXor(a: bv8, b: bv8, c: bv8, d: bv8, a': bv8, b': bv8, c': bv8, d': bv8)
    ensures Xor32(Pack(a, b, c, d), Pack(a', b', c', d')) == Pack(Xor8(a, a'), Xor8(b, b'), Xor8(c, c'), Xor8(d, d'))
  {
  }

  lemma PackRotl8(a: bv8, b: bv8, c: bv8, d: bv8)
    ensures Rotl8(Pack(a, b, c, d)) == Pack(b, c, d, a)
  {
  }

  lemma PackRotl16(a: bv8, b: bv8, c: bv8, d: bv8)
    ensures Rotl16(Pack(a, b, c, d)) == Pack(c, d, a, b)
  {
  }

  lemma PackRotr8(a: bv8, b: bv8, c: bv8, d: bv8)
    ensures Rotr8(Pack(a, b, c, d)) == Pack(d, a, b, c)
  {
  }

  /** The tables: the S-box `s1`, and the four tables of `SP`. */
  datatype Tables = Tables(s1: bv8 -> bv8, sp0: bv8 -> bv32, sp1: bv8 -> bv32, sp2: bv8 -> bv32, sp3: bv8 -> bv32)

  // The four S-boxes of the standard

  function S1(t: Tables, x: bv8): bv8 {
    t.s1(x)
  }

  function S2(t: Tables, x: bv8): bv8 {
    ByteRotl1(t.s1(x))
  }

  function S3(t: Tables, x: bv8): bv8 {
    ByteRotr1(t.s1(x))
  }

  function S4(t: Tables, x: bv8): bv8 {
    t.s1(ByteRotl1(x))
  }

  /** Every entry of `SP` holds an S-box value in three of its bytes. */
  ghost predicate IsTables(t: Tables) {
    && (forall x :: t.sp0(x) == Pack(S1(t, x), S1(t, x), S1(t, x), 0))
    && (forall x :: t.sp1(x) == Pack(0, S2(t, x), S2(t, x), S2(t, x)))
    && (forall x :: t.sp2(x) == Pack(S3(t, x), 0, S3(t, x), S3(t, x)))
    && (forall x :: t.sp3(x) == Pack(S4(t, x), S4(t, x), 0, S4(t, x)))
  }

  /** The tables that belong to an S-box. */
  function TablesOf(s1: bv8 -> bv8): (t: Tables)
    ensures IsTables(t) && t.s1 == s1
  {
    var t := Tables(s1, x => 0, x => 0, x => 0, x => 0);
    Tables(s1, x => Pack(S1(t, x), S1(t, x), S1(t, x), 0), x => Pack(0, S2(t, x), S2(t, x), S2(t, x)),
           x => Pack(S3(t, x), 0, S3(t, x), S3(t, x)), x => Pack(S4(t, x), S4(t, x), 0, S4(t, x)))
  }

  /** A 64-bit value as two words. */
  datatype Half = Half(h: bv32, l: bv32)

  function XorHalf(x: Half, y: Half): Half {
    Half(Xor32(x.h, y.h), Xor32(x.l, y.l))
  }

  function Xor5(a: bv8, b: bv8, c: bv8, d: bv8, e: bv8): bv8 {
    a ^ b ^ c ^ d ^ e
  }

  function Xor6(a: bv8, b: bv8, c: bv8, d: bv8, e: bv8, f: bv8): bv8 {
    a ^ b ^ c ^ d ^ e ^ f
  }

  /** The P-function of the standard, from bytes t1 to t8. */
  function P(t1: bv8, t2: bv8, t3: bv8, t4: bv8, t5: bv8, t6: bv8, t7: bv8, t8: bv8): Half {
    Half(Pack(Xor6(t1, t3, t4, t6, t7, t8), Xor6(t1, t2, t4, t5, t7, t8), Xor6(t1, t2, t3, t5, t6, t8),
              Xor6(t2, t3, t4, t5, t6, t7)),
         Pack(Xor5(t1, t2, t6, t7, t8), Xor5(t2, t3, t5, t7, t8), Xor5(t3, t4, t5, t6, t8), Xor5(t1, t4, t5, t6, t7)))
  }

  /** The F-function of the standard. */
  function F(t: Tables, x: Half, k: Half): Half {
    var z := XorHalf(x, k);
    P(S1(t, GetByte(z.h, 3)), S2(t, GetByte(z.h, 2)), S3(t, GetByte(z.h, 1)), S4(t, GetByte(z.h, 0)),
      S2(t, GetByte(z.l, 3)), S3(t, GetByte(z.l, 2)), S4(t, GetByte(z.l, 1)), S1(t, GetByte(z.l, 0)))
  }

  /** `ROUND`: what is combined with the other half. */
  function FastRound(t: Tables, x: Half, k: Half): Half {
    var th, tl := Xor32(x.h, k.h), Xor32(x.l, k.l);
    var d :=
      Xor32(Xor32(Xor32(t.sp0(GetByte(tl, 0)), t.sp1(GetByte(tl, 3))), t.sp2(GetByte(tl, 2))), t.sp3(GetByte(tl, 1)));
    var u :=
      Xor32(Xor32(Xor32(t.sp0(GetByte(th, 3)), t.sp1(GetByte(th, 2))), t.sp2(GetByte(th, 1))), t.sp3(GetByte(th, 0)));
    var du := Xor32(d, u);
    Half(du, Xor32(du, Rotr8(u)))
  }

  /** `SLOW_ROUND`: what is combined with the other half. */
  function SlowRound(t: Tables, x: Half, k: Half): Half {
    var zr, zl := Xor32(x.l, k.l), Xor32(x.h, k.h);
    SlowMix(Pack(t.s1(GetByte(zl, 3)), ByteRotl1(t.s1(GetByte(zl, 2))), ByteRotr1(t.s1(GetByte(zl, 1))),
                 t.s1(ByteRotl1(GetByte(zl, 0)))),
            Pack(ByteRotr1(t.s1(GetByte(zr, 2))), t.s1(ByteRotl1(GetByte(zr, 1))), t.s1(GetByte(zr, 0)),
                 ByteRotl1(t.s1(GetByte(zr, 3)))))
  }

  function SlowMix(zl: bv32, zr: bv32): Half {
    var zl1 := Xor32(zl, zr);
    var zr1 := Xor32(zl1, Rotl8(zr));
    var zl2 := Xor32(zr1, Rotr8(zl1));
    Half(Xor32(Rotl16(zr1), zl2), Rotl8(zl2))
  }

  /** The slow mixing of the S-box values is the P-function. */
  lemma SlowMixIsP(a: bv8, b: bv8, c: bv8, d: bv8, f: bv8, g: bv8, h: bv8, e: bv8)
    ensures SlowMix(Pack(a, b, c, d), Pack(g, h, e, f)) == P(a, b, c, d, f, g, h, e)
  {
    hide Pack, Xor8, Xor32, Rotl8, Rotl16, Rotr8, Xor5, Xor6;
    PackXor(a, b, c, d, g, h, e, f);
    PackRotl8(g, h, e, f);
    var l3, l2, l1, l0 := Xor8(a, g), Xor8(b, h), Xor8(c, e), Xor8(d, f);
    PackXor(l3, l2, l1, l0, h, e, f, g);
    PackRotr8(l3, l2, l1, l0);
    var r3, r2, r1, r0 := Xor8(l3, h), Xor8(l2, e), Xor8(l1, f), Xor8(l0, g);
    PackXor(r3, r2, r1, r0, l0, l3, l2, l1);
    PackRotl16(r3, r2, r1, r0);
    var m3, m2, m1, m0 := Xor8(r3, l0), Xor8(r2, l3), Xor8(r1, l2), Xor8(r0, l1);
    PackXor(r1, r0, r3, r2, m3, m2, m1, m0);
    PackRotl8(m3, m2, m1, m0);
    SlowByte5(a, b, e, g, h);
    SlowByte6(b, c, e, f, h);
    SlowByte7(c, d, e, f, g);
    SlowByte8(a, d, f, g, h);
    SlowByte1(a, c, d, e, f, g, h);
    SlowByte2(a, b, d, e, f, g, h);
    SlowByte3(a, b, c, e, f, g, h);
    SlowByte4(b, c, d, e, f, g, h);
  }

  lemma SlowByte5(a: bv8, b: bv8, e: bv8, g: bv8, h: bv8)
    ensures Xor8(Xor8(Xor8(b, h), e), Xor8(a, g)) == Xor5(a, b, g, h, e)
  {
  }

  lemma SlowByte6(b: bv8, c: bv8, e: bv8, f: bv8, h: bv8)
    ensures Xor8(Xor8(Xor8(c, e), f), Xor8(b, h)) == Xor5(b, c, f, h, e)
  {
  }

  lemma SlowByte7(c: bv8, d: bv8, e: bv8, f: bv8, g: bv8)
    ensures Xor8(Xor8(Xor8(d, f), g), Xor8(c, e)) == Xor5(c, d, f, g, e)
  {
  }

  lemma SlowByte8(a: bv8, d: bv8, f: bv8, g: bv8, h: bv8)
    ensures Xor8(Xor8(Xor8(a, g), h), Xor8(d, f)) == Xor5(a, d, f, g, h)
  {
  }

  lemma SlowByte1(a: bv8, c: bv8, d: bv8, e: bv8, f: bv8, g: bv8, h: bv8)
    ensures Xor8(Xor8(Xor8(c, e), f), Xor5(a, d, f, g, h)) == Xor6(a, c, d, g, h, e)
  {
  }

  lemma SlowByte2(a: bv8, b: bv8, d: bv8, e: bv8, f: bv8, g: bv8, h: bv8)
    ensures Xor8(Xor8(Xor8(d, f), g), Xor5(a, b, g, h, e)) == Xor6(a, b, d, f, h, e)
  {
  }

  lemma SlowByte3(a: bv8, b: bv8, c: bv8, e: bv8, f: bv8, g: bv8, h: bv8)
    ensures Xor8(Xor8(Xor8(a, g), h), Xor5(b, c, f, h, e)) == Xor6(a, b, c, f, g, e)
  {
  }

  lemma SlowByte4(b: bv8, c: bv8, d: bv8, e: bv8, f: bv8, g: bv8, h: bv8)
    ensures Xor8(Xor8(Xor8(b, h), e), Xor5(c, d, f, g, e)) == Xor6(b, c, d, f, g, h)
  {
  }

  /** Both ways of computing a round give the F-function. */
  lemma RoundsAgree(t: Tables, x: Half, k: Half)
    requires IsTables(t)
    ensures SlowRound(t, x, k) == F(t, x, k) == FastRound(t, x, k)
  {
    hide Pack, Xor8, Xor32, Rotl8, Rotl16, Rotr8, Xor5, Xor6, GetByte, ByteRotl1, ByteRotr1, SlowMix, P;
    var z := XorHalf(x, k);
    SlowMixIsP(S1(t, GetByte(z.h, 3)), S2(t, GetByte(z.h, 2)), S3(t, GetByte(z.h, 1)), S4(t, GetByte(z.h, 0)),
               S2(t, GetByte(z.l, 3)), S3(t, GetByte(z.l, 2)), S4(t, GetByte(z.l, 1)), S1(t, GetByte(z.l, 0)));
    FastMixIsP(S1(t, GetByte(z.h, 3)), S2(t, GetByte(z.h, 2)), S3(t, GetByte(z.h, 1)), S4(t, GetByte(z.h, 0)),
               S2(t, GetByte(z.l, 3)), S3(t, GetByte(z.l, 2)), S4(t, GetByte(z.l, 1)), S1(t, GetByte(z.l, 0)));
  }

  function FastWord(a: bv8, b: bv8, c: bv8, d: bv8): bv32 {
    Xor32(Xor32(Xor32(Pack(a, a, a, 0), Pack(0, b, b, b)), Pack(c, 0, c, c)), Pack(d, d, 0, d))
  }

  function Xor4(a: bv8, b: bv8, c: bv8, d: bv8): bv8 {
    Xor8(Xor8(Xor8(a, b), c), d)
  }

  lemma FastWordIs(a: bv8, b: bv8, c: bv8, d: bv8)
    ensures FastWord(a, b, c, d) == Pack(Xor4(a, 0, c, d), Xor4(a, b, 0, d), Xor4(a, b, c, 0), Xor4(0, b, c, d))
  {
    hide Pack, Xor8, Xor32;
    PackXor(a, a, a, 0, 0, b, b, b);
    PackXor(Xor8(a, 0), Xor8(a, b), Xor8(a, b), Xor8(0, b), c, 0, c, c);
    PackXor(Xor8(Xor8(a, 0), c), Xor8(Xor8(a, b), 0), Xor8(Xor8(a, b), c), Xor8(Xor8(0, b), c), d, d, 0, d);
  }

  /** The fast mixing of the S-box values is the P-function. */
  lemma FastMixIsP(a: bv8, b: bv8, c: bv8, d: bv8, f: bv8, g: bv8, h: bv8, e: bv8)
    ensures var u, v := FastWord(a, b, c, d), FastWord(e, f, g, h);
            Half(Xor32(v, u), Xor32(Xor32(v, u), Rotr8(u))) == P(a, b, c, d, f, g, h, e)
  {
    hide Pack, Xor8, Xor32, Rotr8, Xor5, Xor6, Xor4, FastWord;
    FastWordIs(a, b, c, d);
    FastWordIs(e, f, g, h);
    var u3, u2, u1, u0 := Xor4(a, 0, c, d), Xor4(a, b, 0, d), Xor4(a, b, c, 0), Xor4(0, b, c, d);
    var v3, v2, v1, v0 := Xor4(e, 0, g, h), Xor4(e, f, 0, h), Xor4(e, f, g, 0), Xor4(0, f, g, h);
    PackXor(v3, v2, v1, v0, u3, u2, u1, u0);
    PackRotr8(u3, u2, u1, u0);
    PackXor(Xor8(v3, u3), Xor8(v2, u2), Xor8(v1, u1), Xor8(v0, u0), u0, u3, u2, u1);
    FastByte1(a, c, d, e, g, h);
    FastByte2(a, b, d, e, f, h);
    FastByte3(a, b, c, e, f, g);
    FastByte4(b, c, d, f, g, h);
    FastByte5(a, b, c, d, e, g, h);
    FastByte6(a, b, c, d, e, f, h);
    FastByte7(a, b, c, d, e, f, g);
    FastByte8(a, b, c, d, f, g, h);
  }

  lemma FastByte1(a: bv8, c: bv8, d: bv8, e: bv8, g: bv8, h: bv8)
    ensures Xor8(Xor4(e, 0, g, h), Xor4(a, 0, c, d)) == Xor6(a, c, d, g, h, e)
  {
  }

  lemma FastByte2(a: bv8, b: bv8, d: bv8, e: bv8, f: bv8, h: bv8)
    ensures Xor8(Xor4(e, f, 0, h), Xor4(a, b, 0, d)) == Xor6(a, b, d, f, h, e)
  {
  }

  lemma FastByte3(a: bv8, b: bv8, c: bv8, e: bv8, f: bv8, g: bv8)
    ensures Xor8(Xor4(e, f, g, 0), Xor4(a, b, c, 0)) == Xor6(a, b, c, f, g, e)
  {
  }

  lemma FastByte4(b: bv8, c: bv8, d: bv8, f: bv8, g: bv8, h: bv8)
    ensures Xor8(Xor4(0, f, g, h), Xor4(0, b, c, d)) == Xor6(b, c, d, f, g, h)
  {
  }

  lemma FastByte5(a: bv8, b: bv8, c: bv8, d: bv8, e: bv8, g: bv8, h: bv8)
    ensures Xor8(Xor6(a, c, d, g, h, e), Xor4(0, b, c, d)) == Xor5(a, b, g, h, e)
  {
  }

  lemma FastByte6(a: bv8, b: bv8, c: bv8, d: bv8, e: bv8, f: bv8, h: bv8)
    ensures Xor8(Xor6(a, b, d, f, h, e), Xor4(a, 0, c, d)) == Xor5(b, c, f, h, e)
  {
  }

  lemma FastByte7(a: bv8, b: bv8, c: bv8, d: bv8, e: bv8, f: bv8, g: bv8)
    ensures Xor8(Xor6(a, b, c, f, g, e), Xor4(a, b, 0, d)) == Xor5(c, d, f, g, e)
  {
  }

  lemma FastByte8(a: bv8, b: bv8, c: bv8, d: bv8, f: bv8, g: bv8, h: bv8)
    ensures Xor8(Xor6(b, c, d, f, g, h), Xor4(a, b, c, 0)) == Xor5(a, d, f, g, h)
  {
  }
}
