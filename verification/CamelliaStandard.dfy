/** Camellia bit by bit and byte by byte, against the words of RFC 3713. */
module CamelliaStandard {
  import opened Words
  import opened CamelliaRounds
  import opened CamelliaSchedule
  import opened CamelliaCipher

  // Section 2.4.2: FL and FLINV

  /** FL, lower half: the key chooses bits of the upper half, which move up by one place and go in. */
  lemma FlLowerBits(x: Half, k: Half, i: bv32)
    requires i < 32
    ensures BitAt(Fl(x, k).l, i) == BitAt(x.l, i) ^ (BitAt(x.h, (i + 31) & 31) & BitAt(k.h, (i + 31) & 31))
  {
    hide BitAt, Xor32, AndRotl1, Or;
    MixBits(x.l, x.h, k.h, i);
  }

  /** FL, upper half: the new lower half or the key goes in. */
  lemma FlUpperBits(x: Half, k: Half, i: bv32)
    requires i < 32
    ensures BitAt(Fl(x, k).h, i) == BitAt(x.h, i) ^ (BitAt(Fl(x, k).l, i) | BitAt(k.l, i))
  {
    hide BitAt, Xor32, AndRotl1, Or;
    JoinBits(x.h, Fl(x, k).l, k.l, i);
  }

  /** FLINV, upper half: the lower half or the key goes in. */
  lemma FlInvUpperBits(y: Half, k: Half, i: bv32)
    requires i < 32
    ensures BitAt(FlInv(y, k).h, i) == BitAt(y.h, i) ^ (BitAt(y.l, i) | BitAt(k.l, i))
  {
    hide BitAt, Xor32, AndRotl1, Or;
    JoinBits(y.h, y.l, k.l, i);
  }

  /** FLINV, lower half: the key chooses bits of the new upper half. */
  lemma FlInvLowerBits(y: Half, k: Half, i: bv32)
    requires i < 32
    ensures BitAt(FlInv(y, k).l, i)
            == BitAt(y.l, i) ^ (BitAt(FlInv(y, k).h, (i + 31) & 31) & BitAt(k.h, (i + 31) & 31))
  {
    hide BitAt, Xor32, AndRotl1, Or;
    MixBits(y.l, FlInv(y, k).h, k.h, i);
  }

  lemma MixBits(a: bv32, x: bv32, k: bv32, i: bv32)
    requires i < 32
    ensures BitAt(Xor32(a, AndRotl1(x, k)), i) == BitAt(a, i) ^ (BitAt(x, (i + 31) & 31) & BitAt(k, (i + 31) & 31))
  {
    hide BitAt, Xor32, Rotl1;
    XorBitAt(a, Rotl1(x & k), i);
    TurnedBit(x & k, i);
    AndBitAt(x, k, (i + 31) & 31);
  }

  lemma JoinBits(a: bv32, x: bv32, k: bv32, i: bv32)
    requires i < 32
    ensures BitAt(Xor32(a, Or(x, k)), i) == BitAt(a, i) ^ (BitAt(x, i) | BitAt(k, i))
  {
  }

  lemma XorBitAt(x: bv32, y: bv32, i: bv32)
    requires i < 32
    ensures BitAt(Xor32(x, y), i) == BitAt(x, i) ^ BitAt(y, i)
  {
  }

  lemma AndBitAt(x: bv32, y: bv32, i: bv32)
    requires i < 32
    ensures BitAt(x & y, i) == BitAt(x, i) & BitAt(y, i)
  {
  }

  lemma TurnedBit(x: bv32, i: bv32)
    requires i < 32
    ensures BitAt(Rotl1(x), i) == BitAt(x, (i + 31) & 31)
  {
  }

  // Section 2.4.1: the S-boxes and P

  /** The second S-box turns the first one's value left by a bit, the third right, and the fourth turns its argument
      left: bit i comes from bit i - 1, i + 1 and i - 1. */
  lemma BoxBits(t: Tables, x: bv8, i: bv8)
    requires i < 8
    ensures ByteBitAt(S2(t, x), i) == ByteBitAt(S1(t, x), (i + 7) & 7)
    ensures ByteBitAt(S3(t, x), i) == ByteBitAt(S1(t, x), (i + 1) & 7)
    ensures exists y :: S4(t, x) == S1(t, y) && forall j: bv8 :: j < 8 ==> ByteBitAt(y, j) == ByteBitAt(x, (j + 7) & 7)
  {
    TurnedLeft(S1(t, x), i);
    TurnedRight(S1(t, x), i);
    forall j: bv8 | j < 8
      ensures ByteBitAt(ByteRotl1(x), j) == ByteBitAt(x, (j + 7) & 7)
    {
      TurnedLeft(x, j);
    }
    assert S4(t, x) == S1(t, ByteRotl1(x));
  }

  lemma TurnedLeft(x: bv8, i: bv8)
    requires i < 8
    ensures ByteBitAt(ByteRotl1(x), i) == ByteBitAt(x, (i + 7) & 7)
  {
  }

  lemma TurnedRight(x: bv8, i: bv8)
    requires i < 8
    ensures ByteBitAt(ByteRotr1(x), i) == ByteBitAt(x, (i + 1) & 7)
  {
  }

  /** P column by column: to which bytes each byte is spread. */
  lemma PColumns(x: bv8)
    ensures P(x, 0, 0, 0, 0, 0, 0, 0) == Half(Pack(x, x, x, 0), Pack(x, 0, 0, x))
    ensures P(0, x, 0, 0, 0, 0, 0, 0) == Half(Pack(0, x, x, x), Pack(x, x, 0, 0))
    ensures P(0, 0, x, 0, 0, 0, 0, 0) == Half(Pack(x, 0, x, x), Pack(0, x, x, 0))
    ensures P(0, 0, 0, x, 0, 0, 0, 0) == Half(Pack(x, x, 0, x), Pack(0, 0, x, x))
    ensures P(0, 0, 0, 0, x, 0, 0, 0) == Half(Pack(0, x, x, x), Pack(0, x, x, x))
    ensures P(0, 0, 0, 0, 0, x, 0, 0) == Half(Pack(x, 0, x, x), Pack(x, 0, x, x))
    ensures P(0, 0, 0, 0, 0, 0, x, 0) == Half(Pack(x, x, 0, x), Pack(x, x, 0, x))
    ensures P(0, 0, 0, 0, 0, 0, 0, x) == Half(Pack(x, x, x, 0), Pack(x, x, x, 0))
  {
    hide Pack;
  }

  /** Exclusive or goes through P, so that the columns say everything. */
  lemma PAdds(a: bv8, b: bv8, c: bv8, d: bv8, e: bv8, f: bv8, g: bv8, h: bv8,
              a': bv8, b': bv8, c': bv8, d': bv8, e': bv8, f': bv8, g': bv8, h': bv8)
    ensures P(Xor8(a, a'), Xor8(b, b'), Xor8(c, c'), Xor8(d, d'), Xor8(e, e'), Xor8(f, f'), Xor8(g, g'), Xor8(h, h'))
            == XorHalf(P(a, b, c, d, e, f, g, h), P(a', b', c', d', e', f', g', h'))
  {
    hide Xor8, Xor5, Xor6, Pack, Xor32;
    Xor6Adds(a, c, d, f, g, h, a', c', d', f', g', h');
    Xor6Adds(a, b, d, e, g, h, a', b', d', e', g', h');
    Xor6Adds(a, b, c, e, f, h, a', b', c', e', f', h');
    Xor6Adds(b, c, d, e, f, g, b', c', d', e', f', g');
    Xor5Adds(a, b, f, g, h, a', b', f', g', h');
    Xor5Adds(b, c, e, g, h, b', c', e', g', h');
    Xor5Adds(c, d, e, f, h, c', d', e', f', h');
    Xor5Adds(a, d, e, f, g, a', d', e', f', g');
    PackXor(Xor6(a, c, d, f, g, h), Xor6(a, b, d, e, g, h), Xor6(a, b, c, e, f, h), Xor6(b, c, d, e, f, g),
            Xor6(a', c', d', f', g', h'), Xor6(a', b', d', e', g', h'), Xor6(a', b', c', e', f', h'),
            Xor6(b', c', d', e', f', g'));
    PackXor(Xor5(a, b, f, g, h), Xor5(b, c, e, g, h), Xor5(c, d, e, f, h), Xor5(a, d, e, f, g),
            Xor5(a', b', f', g', h'), Xor5(b', c', e', g', h'), Xor5(c', d', e', f', h'), Xor5(a', d', e', f', g'));
  }

  lemma Xor6Adds(a: bv8, b: bv8, c: bv8, d: bv8, e: bv8, f: bv8, a': bv8, b': bv8, c': bv8, d': bv8, e': bv8, f': bv8)
    ensures Xor6(Xor8(a, a'), Xor8(b, b'), Xor8(c, c'), Xor8(d, d'), Xor8(e, e'), Xor8(f, f'))
            == Xor8(Xor6(a, b, c, d, e, f), Xor6(a', b', c', d', e', f'))
  {
    hide Xor8, Xor5, Xor6;
    Xor5Adds(a, b, c, d, e, a', b', c', d', e');
    Xor6Is(a, b, c, d, e, f);
    Xor6Is(a', b', c', d', e', f');
    Xor6Is(Xor8(a, a'), Xor8(b, b'), Xor8(c, c'), Xor8(d, d'), Xor8(e, e'), Xor8(f, f'));
    Exchange(Xor5(a, b, c, d, e), Xor5(a', b', c', d', e'), f, f');
  }

  lemma Xor5Adds(a: bv8, b: bv8, c: bv8, d: bv8, e: bv8, a': bv8, b': bv8, c': bv8, d': bv8, e': bv8)
    ensures Xor5(Xor8(a, a'), Xor8(b, b'), Xor8(c, c'), Xor8(d, d'), Xor8(e, e'))
            == Xor8(Xor5(a, b, c, d, e), Xor5(a', b', c', d', e'))
  {
    hide Xor8, Xor5;
    Xor5Is(a, b, c, d, e);
    Xor5Is(a', b', c', d', e');
    Xor5Is(Xor8(a, a'), Xor8(b, b'), Xor8(c, c'), Xor8(d, d'), Xor8(e, e'));
    Exchange(a, a', b, b');
    Exchange(Xor8(a, b), Xor8(a', b'), c, c');
    Exchange(Xor8(Xor8(a, b), c), Xor8(Xor8(a', b'), c'), d, d');
    Exchange(Xor8(Xor8(Xor8(a, b), c), d), Xor8(Xor8(Xor8(a', b'), c'), d'), e, e');
  }

  lemma Exchange(a: bv8, a': bv8, b: bv8, b': bv8)
    ensures Xor8(Xor8(a, a'), Xor8(b, b')) == Xor8(Xor8(a, b), Xor8(a', b'))
  {
    hide Xor8;
    Associates(a, a', Xor8(b, b'));
    Associates(a', b, b');
    Commutes(a', b);
    Associates(b, a', b');
    Associates(a, b, Xor8(a', b'));
  }

  lemma Associates(a: bv8, b: bv8, c: bv8)
    ensures Xor8(Xor8(a, b), c) == Xor8(a, Xor8(b, c))
  {
  }

  lemma Commutes(a: bv8, b: bv8)
    ensures Xor8(a, b) == Xor8(b, a)
  {
  }

  lemma Xor5Is(a: bv8, b: bv8, c: bv8, d: bv8, e: bv8)
    ensures Xor5(a, b, c, d, e) == Xor8(Xor8(Xor8(Xor8(a, b), c), d), e)
  {
  }

  lemma Xor6Is(a: bv8, b: bv8, c: bv8, d: bv8, e: bv8, f: bv8)
    ensures Xor6(a, b, c, d, e, f) == Xor8(Xor5(a, b, c, d, e), f)
  {
  }

  // Section 2.2: the constants

  /** The number whose hexadecimal digits are those of two words. */
  function Number(x: Half): nat {
    x.h as nat * 0x1_0000_0000 + x.l as nat
  }

  /** The 16 hexadecimal digits from the second place on after the point of the square root of p, whose digits up to the
      first place after the point are those of start. */
  ghost predicate AreRootDigits(p: nat, start: nat, x: Half) {
    var n := start * 0x1_0000_0000_0000_0000 + Number(x);
    n * n <= p * 0x100_0000_0000_0000_0000_0000_0000_0000_0000 < (n + 1) * (n + 1)
  }

  lemma SigmasAreRoots()
    ensures AreRootDigits(2, 0x16, SIGMA1) && AreRootDigits(3, 0x1b, SIGMA2) && AreRootDigits(5, 0x23, SIGMA3)
    ensures AreRootDigits(7, 0x2a, SIGMA4) && AreRootDigits(11, 0x35, SIGMA5) && AreRootDigits(13, 0x39, SIGMA6)
  {
  }

  /** The table of section 2.2 for keys of 16 bytes, by names; the last two change places, as the halves do at the
      end. */
  lemma NamedSubkeys128(kl: Key, ka: Key)
    ensures var kw1, kw2, kw3, kw4 := Upper(kl, 0), Lower(kl, 0), Upper(ka, 111), Lower(ka, 111);
            var ke1, ke2, ke3, ke4 := Upper(ka, 30), Lower(ka, 30), Upper(kl, 77), Lower(kl, 77);
            var k1, k2, k3, k4 := Upper(ka, 0), Lower(ka, 0), Upper(kl, 15), Lower(kl, 15);
            var k5, k6, k7, k8 := Upper(ka, 15), Lower(ka, 15), Upper(kl, 45), Lower(kl, 45);
            var k9, k10, k11, k12 := Upper(ka, 45), Lower(kl, 60), Upper(ka, 60), Lower(ka, 60);
            var k13, k14, k15, k16 := Upper(kl, 94), Lower(kl, 94), Upper(ka, 94), Lower(ka, 94);
            var k17, k18 := Upper(kl, 111), Lower(kl, 111);
            Subkeys128(kl, ka) == [kw1, kw2, k1, k2, k3, k4, k5, k6, ke1, ke2, k7, k8, k9, k10, k11, k12, ke3, ke4,
                                   k13, k14, k15, k16, k17, k18, kw4, kw3]
  {
    hide Upper, Lower;
  }

  /** The table for longer keys. */
  lemma NamedSubkeys256(kl: Key, kr: Key, ka: Key, kb: Key)
    ensures var kw1, kw2, kw3, kw4 := Upper(kl, 0), Lower(kl, 0), Upper(kb, 111), Lower(kb, 111);
            var ke1, ke2, ke3, ke4 := Upper(kr, 30), Lower(kr, 30), Upper(kl, 60), Lower(kl, 60);
            var ke5, ke6, k1, k2 := Upper(ka, 77), Lower(ka, 77), Upper(kb, 0), Lower(kb, 0);
            var k3, k4, k5, k6 := Upper(kr, 15), Lower(kr, 15), Upper(ka, 15), Lower(ka, 15);
            var k7, k8, k9, k10 := Upper(kb, 30), Lower(kb, 30), Upper(kl, 45), Lower(kl, 45);
            var k11, k12, k13, k14 := Upper(ka, 45), Lower(ka, 45), Upper(kr, 60), Lower(kr, 60);
            var k15, k16, k17, k18 := Upper(kb, 60), Lower(kb, 60), Upper(kl, 77), Lower(kl, 77);
            var k19, k20, k21, k22 := Upper(kr, 94), Lower(kr, 94), Upper(ka, 94), Lower(ka, 94);
            var k23, k24 := Upper(kl, 111), Lower(kl, 111);
            Subkeys256(kl, kr, ka, kb)
            == [kw1, kw2, k1, k2, k3, k4, k5, k6, ke1, ke2, k7, k8, k9, k10, k11, k12, ke3, ke4, k13, k14, k15, k16,
                k17, k18, ke5, ke6, k19, k20, k21, k22, k23, k24, kw4, kw3]
  {
    hide Upper, Lower;
  }

  /** KA and KB: by which amounts the halves change, in this order. */
  lemma DerivedKeys(t: Tables, kl: Halves, kr: Halves) returns (a: Halves, b: Halves, c: Halves)
    ensures XorHalf(kl.d1, kr.d1) == a.d1 && XorHalf(a.d2, XorHalf(kl.d2, kr.d2)) == F(t, a.d1, SIGMA1)
    ensures XorHalf(XorHalf(b.d1, kl.d1), a.d1) == F(t, a.d2, SIGMA2) && b.d2 == XorHalf(a.d2, kl.d2)
    ensures var ka := DeriveKa(t, kl, kr);
            && XorHalf(ka.d2, b.d2) == F(t, b.d1, SIGMA3) && XorHalf(ka.d1, b.d1) == F(t, ka.d2, SIGMA4)
            && c == XorHalves(ka, kr)
            && var kb := DeriveKb(t, ka, kr);
               XorHalf(kb.d2, c.d2) == F(t, c.d1, SIGMA5) && XorHalf(kb.d1, c.d1) == F(t, kb.d2, SIGMA6)
  {
    hide Xor32, F;
    var x := XorHalves(kl, kr);
    a := Halves(x.d1, XorHalf(x.d2, F(t, x.d1, SIGMA1)));
    var y := SigmaRounds(t, x, SIGMA1, SIGMA2);
    b := XorHalves(y, kl);
    Difference(x.d2, F(t, x.d1, SIGMA1));
    XorHalfTwice(y.d1, kl.d1);
    Difference(x.d1, F(t, a.d2, SIGMA2));
    SigmaDifferences(t, b, SIGMA3, SIGMA4);
    c := XorHalves(DeriveKa(t, kl, kr), kr);
    SigmaDifferences(t, c, SIGMA5, SIGMA6);
  }

  lemma SigmaDifferences(t: Tables, x: Halves, a: Half, b: Half)
    ensures var y := SigmaRounds(t, x, a, b);
            XorHalf(y.d2, x.d2) == F(t, x.d1, a) && XorHalf(y.d1, x.d1) == F(t, y.d2, b)
  {
    hide Xor32, F;
    var y := SigmaRounds(t, x, a, b);
    Difference(x.d2, F(t, x.d1, a));
    Difference(x.d1, F(t, y.d2, b));
  }

  // Sections 2.3.1 and 2.3.2: the steps in order

  /** 18 rounds: white, six rounds, a layer, six rounds, a layer, six rounds, white. */
  lemma StepsOf128(ks: seq<Half>)
    requires IsSchedule(ks, 3)
    ensures StepAt(ks, 3, 0) == White(ks[0], ks[1])
    ensures StepAt(ks, 3, 1) == RoundLeft(ks[2]) && StepAt(ks, 3, 2) == RoundRight(ks[3])
    ensures StepAt(ks, 3, 3) == RoundLeft(ks[4]) && StepAt(ks, 3, 4) == RoundRight(ks[5])
    ensures StepAt(ks, 3, 5) == RoundLeft(ks[6]) && StepAt(ks, 3, 6) == RoundRight(ks[7])
    ensures StepAt(ks, 3, 7) == Layer(ks[8], ks[9])
    ensures StepAt(ks, 3, 8) == RoundLeft(ks[10]) && StepAt(ks, 3, 9) == RoundRight(ks[11])
    ensures StepAt(ks, 3, 10) == RoundLeft(ks[12]) && StepAt(ks, 3, 11) == RoundRight(ks[13])
    ensures StepAt(ks, 3, 12) == RoundLeft(ks[14]) && StepAt(ks, 3, 13) == RoundRight(ks[15])
    ensures StepAt(ks, 3, 14) == Layer(ks[16], ks[17])
    ensures StepAt(ks, 3, 15) == RoundLeft(ks[18]) && StepAt(ks, 3, 16) == RoundRight(ks[19])
    ensures StepAt(ks, 3, 17) == RoundLeft(ks[20]) && StepAt(ks, 3, 18) == RoundRight(ks[21])
    ensures StepAt(ks, 3, 19) == RoundLeft(ks[22]) && StepAt(ks, 3, 20) == RoundRight(ks[23])
    ensures StepAt(ks, 3, 21) == White(ks[24], ks[25])
  {
  }

  /** 24 rounds go on with one more layer and six more rounds. */
  lemma StepsOf256(ks: seq<Half>, n: nat)
    requires IsSchedule(ks, 4) && n <= 28
    ensures n < 21 ==> StepAt(ks, 4, n) == StepAt(ks[..26], 3, n)
    ensures n == 21 ==> StepAt(ks, 4, n) == Layer(ks[24], ks[25])
    ensures n in {22, 24, 26} ==> StepAt(ks, 4, n) == RoundLeft(ks[n + 4])
    ensures n in {23, 25, 27} ==> StepAt(ks, 4, n) == RoundRight(ks[n + 4])
    ensures n == 28 ==> StepAt(ks, 4, n) == White(ks[32], ks[33])
  {
  }

  /** What each kind of step changes, and by what. */
  lemma StepChanges(t: Tables, k: Half, k': Half, b: Block)
    ensures var r := Apply(t, RoundLeft(k), b); r.d1 == b.d1 && XorHalf(r.d2, b.d2) == F(t, b.d1, k)
    ensures var r := Apply(t, RoundRight(k), b); r.d2 == b.d2 && XorHalf(r.d1, b.d1) == F(t, b.d2, k)
    ensures var r := Apply(t, White(k, k'), b); XorHalf(r.d1, b.d1) == k && XorHalf(r.d2, b.d2) == k'
    ensures var r := Apply(t, Layer(k, k'), b); r.d1 == Fl(b.d1, k) && r.d2 == FlInv(b.d2, k')
  {
    hide Xor32, F, Fl, FlInv;
    Difference(b.d2, F(t, b.d1, k));
    Difference(b.d1, F(t, b.d2, k));
    Difference(b.d1, k);
    Difference(b.d2, k');
  }

  lemma Difference(x: Half, y: Half)
    ensures XorHalf(XorHalf(x, y), x) == y
  {
    WordDifference(x.h, y.h);
    WordDifference(x.l, y.l);
  }

}
