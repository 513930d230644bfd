/** `Camellia::Base`: key setup and block processing. */
module Camellia {
  import opened Words
  import opened Sequences
  import opened CamelliaRounds
  import opened CamelliaSchedule
  import opened CamelliaCipher

  function XorBlock(b: Block, x: Option<Block>): Block {
    match x
    case None => b
    case Some(v) => Block(XorHalf(b.d1, v.d1), XorHalf(b.d2, v.d2))
  }

  // How the rounds of the code make up the steps of the cipher

  /** Two rounds of which the first is computed by `SLOW_ROUND` or `ROUND`, and the second too. */
  function TwoRounds(t: Tables, b: Block, k1: Half, k2: Half, slow1: bool, slow2: bool): Block {
    var r := XorHalf(b.d2, if slow1 then SlowRound(t, b.d1, k1) else FastRound(t, b.d1, k1));
    Block(XorHalf(b.d1, if slow2 then SlowRound(t, r, k2) else FastRound(t, r, k2)), r)
  }

  lemma TwoRoundsAreSteps(t: Tables, ks: seq<Half>, m: nat, q: nat, r: nat, b: Block, slow1: bool, slow2: bool)
    requires IsTables(t) && IsSchedule(ks, m) && q < m && (r == 1 || r == 3 || r == 5)
    ensures TwoRounds(t, Run(t, ks, m, 7 * q + r, b), ks[8 * q + r + 1], ks[8 * q + r + 2], slow1, slow2)
         == Run(t, ks, m, 7 * q + r + 2, b)
  {
    hide IsTables, FastRound, SlowRound, F, XorHalf;
    var n := 7 * q + r;
    var c := Run(t, ks, m, n, b);
    assert n / 7 == q && n % 7 == r && (n + 1) / 7 == q && (n + 1) % 7 == r + 1;
    RoundsAgree(t, c.d1, ks[8 * q + r + 1]);
    var d := Run(t, ks, m, n + 1, b);
    assert d == Apply(t, RoundLeft(ks[8 * q + r + 1]), c);
    RoundsAgree(t, d.d2, ks[8 * q + r + 2]);
    assert Run(t, ks, m, n + 2, b) == Apply(t, RoundRight(ks[8 * q + r + 2]), d);
  }

  lemma LayerIsStep(t: Tables, ks: seq<Half>, m: nat, q: nat, b: Block)
    requires IsSchedule(ks, m) && 0 < q < m
    ensures var c := Run(t, ks, m, 7 * q, b);
            Block(Fl(c.d1, ks[8 * q]), FlInv(c.d2, ks[8 * q + 1])) == Run(t, ks, m, 7 * q + 1, b)
  {
    hide Fl, FlInv;
    assert (7 * q) / 7 == q && (7 * q) % 7 == 0;
  }

  lemma WhiteIsStep(t: Tables, ks: seq<Half>, m: nat, q: nat, b: Block)
    requires IsSchedule(ks, m) && (q == 0 || q == m)
    ensures var c := Run(t, ks, m, 7 * q, b);
            Block(XorHalf(c.d1, ks[8 * q]), XorHalf(c.d2, ks[8 * q + 1])) == Run(t, ks, m, 7 * q + 1, b)
  {
    hide XorHalf;
    assert (7 * q) / 7 == q && (7 * q) % 7 == 0;
  }

  class CamelliaBase {
    const forward: bool
    const littleEndian: bool
    const t: Tables
    var rounds: nat
    var key: array<bv32>

    ghost predicate Valid()
      reads this, key
    {
      IsTables(t) && rounds >= 1 && key.Length == 16 * rounds + 4 && key.Length % 4 == 0
        && key.Length / 2 == 8 * rounds + 2
    }

    /** The subkeys in the order in which the rounds use them. */
    function Keys(): (ks: seq<Half>)
      requires Valid()
      reads this, key
      ensures IsSchedule(ks, rounds)
    {
      ReadKeys(key[..], littleEndian)
    }

    /** Encrypts or decrypts a block, as the subkeys have it. */
    method ProcessAndXorBlock(inBlock: Block, xorBlock: Option<Block>) returns (outBlock: Block)
      requires Valid()
      ensures outBlock == XorBlock(Encrypt(t, Keys(), rounds, inBlock), xorBlock)
    {
      hide IsTables, FastRound, SlowRound, Fl, FlInv, StepAt, Apply, ReadKeys, XorHalf;
      var ks, m := Keys(), rounds;
      var b := Block(XorHalf(inBlock.d1, ks[0]), XorHalf(inBlock.d2, ks[1]));
      WhiteIsStep(t, ks, m, 0, inBlock);
      TwoRoundsAreSteps(t, ks, m, 0, 1, inBlock, true, true);
      b := TwoRounds(t, b, ks[2], ks[3], true, true);
      var i, at := m - 1, 0;
      while i > 0
        invariant 0 <= i < m && at == 8 * (m - 1 - i)
        invariant b == Run(t, ks, m, 7 * (m - 1 - i) + 3, inBlock)
      {
        b := MiddleRounds(ks, m - 1 - i, inBlock, b);
        at := at + 8;
        i := i - 1;
      }
      TwoRoundsAreSteps(t, ks, m, m - 1, 3, inBlock, false, false);
      b := TwoRounds(t, b, ks[at + 4], ks[at + 5], false, false);
      TwoRoundsAreSteps(t, ks, m, m - 1, 5, inBlock, false, true);
      b := TwoRounds(t, b, ks[at + 6], ks[at + 7], false, true);
      WhiteIsStep(t, ks, m, m, inBlock);
      b := Block(XorHalf(b.d1, ks[at + 8]), XorHalf(b.d2, ks[at + 9]));
      outBlock := XorBlock(SwapHalves(b), xorBlock);
    }

    /** One turn of the loop: four rounds, a layer, two rounds. */
    method MiddleRounds(ks: seq<Half>, q: nat, ghost inBlock: Block, b0: Block) returns (b: Block)
      requires Valid() && IsSchedule(ks, rounds) && q + 1 < rounds && b0 == Run(t, ks, rounds, 7 * q + 3, inBlock)
      ensures b == Run(t, ks, rounds, 7 * q + 10, inBlock)
    {
      hide IsTables, FastRound, SlowRound, Fl, FlInv, StepAt, Apply, XorHalf, Run;
      ghost var m := rounds;
      TwoRoundsAreSteps(t, ks, m, q, 3, inBlock, false, false);
      b := TwoRounds(t, b0, ks[8 * q + 4], ks[8 * q + 5], false, false);
      TwoRoundsAreSteps(t, ks, m, q, 5, inBlock, false, false);
      b := TwoRounds(t, b, ks[8 * q + 6], ks[8 * q + 7], false, false);
      LayerIsStep(t, ks, m, q + 1, inBlock);
      b := Block(Fl(b.d1, ks[8 * q + 8]), FlInv(b.d2, ks[8 * q + 9]));
      TwoRoundsAreSteps(t, ks, m, q + 1, 1, inBlock, false, false);
      b := TwoRounds(t, b, ks[8 * q + 10], ks[8 * q + 11], false, false);
    }
  
    // Key setup

    function Schedule(): (ks: seq<Half>)
      requires Valid()
      reads this, key
      ensures |ks| == 8 * rounds + 2
    {
      Ordered(Keys(), forward)
    }

    /** Stores 64 bits where the address macro says. */
    method Store(i: nat, b: nat, v: bv64)
      requires Valid() && i % 2 == 0 && b <= 1 && i + b < 8 * rounds + 2
      modifies key
      ensures Valid() && Schedule() == old(Schedule())[i + b := ToHalf(v)]
    {
      hide IsTables, ToHalf, ReadKeys, Slot, Efi, Reverse;
      var base, m := if forward then 0 else 8 * rounds + 1, if forward then 0 else -1;
      if forward {
        StoreForward(key[..], littleEndian, i, b, v);
      } else {
        StoreBackward(key[..], littleEndian, i, b, v);
      }
      var slot := Slot(base, i + Efi(littleEndian, b), m);
      ghost var after := Store64(key[..], littleEndian, slot, v);
      key[2 * slot + Efi(littleEndian, 0)] := ToHalf(v).h;
      key[2 * slot + Efi(littleEndian, 1)] := ToHalf(v).l;
      assert key[..] == after;
    }

    /** `KS_ROUND` */
    method KsRound(i: nat, n: bv8, which: nat, k: Key)
      requires Valid() && i % 2 == 0 && i + 1 < 8 * rounds + 2 && IsAmount(n) && 1 <= which <= 3
      modifies key
      ensures Valid() && Schedule() == SetRotated(old(Schedule()), i, n, which, k)
    {
      hide IsTables, ToHalf, RoundUpper, RoundLower, Upper64, Lower64, Schedule;
      RotationOf(k, n);
      if which == 1 || which == 3 {
        Store(i, 0, RoundUpper(k, n));
      }
      if which == 2 || which == 3 {
        Store(i, 1, RoundLower(k, n));
      }
    }

    /** `KS_ROUND_0` */
    method KsRound0(i: nat, k: Key)
      requires Valid() && i % 2 == 0 && i + 1 < 8 * rounds + 2
      modifies key
      ensures Valid() && Schedule() == SetRotated(old(Schedule()), i, 0, 3, k)
    {
      hide IsTables, ToHalf, Upper64, Lower64, Schedule;
      Rotation0(k);
      Store(i, 0, k.l);
      Store(i, 1, k.r);
    }

    /** `DOUBLE_ROUND` on the words of a key. */
    function DoubleRound(x: Halves, a: Half, b: Half): Halves {
      var d2 := XorHalf(x.d2, FastRound(t, x.d1, a));
      Halves(XorHalf(x.d1, FastRound(t, d2, b)), d2)
    }

    lemma DoubleRoundIs(x: Halves, a: Half, b: Half)
      requires IsTables(t)
      ensures DoubleRound(x, a, b) == SigmaRounds(t, x, a, b)
    {
      hide IsTables, FastRound, F, XorHalf;
      RoundsAgree(t, x.d1, a);
      RoundsAgree(t, XorHalf(x.d2, FastRound(t, x.d1, a)), b);
    }

    method Rounds128(kl: Halves)
      requires Valid() && rounds == 3
      modifies key
      ensures Valid()
      ensures Schedule() == Subkeys128(ToKey(kl), ToKey(DeriveKa(t, kl, Halves(Half(0, 0), Half(0, 0)))))
    {
      hide IsTables, Schedule, SetRotated, SigmaRounds, XorHalves, DoubleRound, ToKey;
      ghost var s := Schedule();
      StoreKl128(ToKey(kl));
      var k := kl;
      DoubleRoundIs(k, SIGMA1, SIGMA2);
      k := DoubleRound(k, SIGMA1, SIGMA2);
      k := XorHalves(k, kl);
      DoubleRoundIs(k, SIGMA3, SIGMA4);
      k := DoubleRound(k, SIGMA3, SIGMA4);
      XorNothing(kl);
      StoreKa128(ToKey(k));
      Stores128(s, ToKey(kl), ToKey(k));
    }

    method StoreKl128(kl: Key)
      requires Valid() && rounds == 3
      modifies key
      ensures Valid() && Schedule() == FromKl128(old(Schedule()), kl)
    {
      hide IsTables, Schedule, SetRotated;
      KsRound0(0, kl);
      KsRound(4, 15, 3, kl);
      KsRound(10, 45, 3, kl);
      KsRound(12, 60, 2, kl);
      KsRound(16, 77, 3, kl);
      KsRound(18, 94, 3, kl);
      KsRound(22, 111, 3, kl);
    }

    method StoreKa128(ka: Key)
      requires Valid() && rounds == 3
      modifies key
      ensures Valid() && Schedule() == FromKa128(old(Schedule()), ka)
    {
      hide IsTables, Schedule, SetRotated;
      KsRound0(2, ka);
      KsRound(6, 15, 3, ka);
      KsRound(8, 30, 3, ka);
      KsRound(12, 45, 1, ka);
      KsRound(14, 60, 3, ka);
      KsRound(20, 94, 3, ka);
      KsRound(24, 47, 3, ka);
    }

    method Rounds256(kl: Halves, kr: Halves)
      requires Valid() && rounds == 4
      modifies key
      ensures Valid()
      ensures var ka := DeriveKa(t, kl, kr);
              Schedule() == Subkeys256(ToKey(kl), ToKey(kr), ToKey(ka), ToKey(DeriveKb(t, ka, kr)))
    {
      hide IsTables, Schedule, FromKl256, FromKr256, FromKa256, FromKb256, SigmaRounds, XorHalves, DoubleRound, ToKey;
      ghost var s := Schedule();
      StoreKl256(ToKey(kl));
      StoreKr256(ToKey(kr));
      XorCommutes(kr, kl);
      var k := XorHalves(kr, kl);
      DoubleRoundIs(k, SIGMA1, SIGMA2);
      k := XorHalves(DoubleRound(k, SIGMA1, SIGMA2), kl);
      DoubleRoundIs(k, SIGMA3, SIGMA4);
      k := DoubleRound(k, SIGMA3, SIGMA4);
      ghost var ka := k;
      StoreKa256(ToKey(k));
      k := XorHalves(k, kr);
      DoubleRoundIs(k, SIGMA5, SIGMA6);
      k := DoubleRound(k, SIGMA5, SIGMA6);
      StoreKb256(ToKey(k));
      Stores256(s, ToKey(kl), ToKey(kr), ToKey(ka), ToKey(k));
    }

    method StoreKl256(kl: Key)
      requires Valid() && rounds == 4
      modifies key
      ensures Valid() && Schedule() == FromKl256(old(Schedule()), kl)
    {
      hide IsTables, Schedule, SetRotated;
      KsRound0(0, kl);
      KsRound(12, 45, 3, kl);
      KsRound(16, 60, 3, kl);
      KsRound(22, 77, 3, kl);
      KsRound(30, 111, 3, kl);
    }

    method StoreKr256(kr: Key)
      requires Valid() && rounds == 4
      modifies key
      ensures Valid() && Schedule() == FromKr256(old(Schedule()), kr)
    {
      hide IsTables, Schedule, SetRotated;
      KsRound(4, 15, 3, kr);
      KsRound(8, 30, 3, kr);
      KsRound(18, 60, 3, kr);
      KsRound(26, 94, 3, kr);
    }

    method StoreKa256(ka: Key)
      requires Valid() && rounds == 4
      modifies key
      ensures Valid() && Schedule() == FromKa256(old(Schedule()), ka)
    {
      hide IsTables, Schedule, SetRotated;
      KsRound(6, 15, 3, ka);
      KsRound(14, 45, 3, ka);
      KsRound(24, 77, 3, ka);
      KsRound(28, 94, 3, ka);
    }

    method StoreKb256(kb: Key)
      requires Valid() && rounds == 4
      modifies key
      ensures Valid() && Schedule() == FromKb256(old(Schedule()), kb)
    {
      hide IsTables, Schedule, SetRotated;
      KsRound0(2, kb);
      KsRound(10, 30, 3, kb);
      KsRound(20, 60, 3, kb);
      KsRound(32, 47, 3, kb);
    }

    /** Sets up the subkeys for encryption, or in reverse for decryption. */
    method SetKey(userKey: seq<bv32>)
      requires IsTables(t) && IsUserKey(userKey)
      modifies this
      ensures Valid() && fresh(key) && rounds == (if |userKey| == 4 then 3 else 4)
      ensures Schedule() == Subkeys(t, userKey)
    {
      hide IsTables, Schedule;
      rounds := if 4 * |userKey| >= 24 then 4 else 3;
      key := new bv32[2 * (8 * rounds + 2)];
      var kl := Halves(Half(userKey[0], userKey[1]), Half(userKey[2], userKey[3]));
      if |userKey| == 4 {
        Rounds128(kl);
      } else {
        var kr := Halves(Half(userKey[4], userKey[5]),
                         if |userKey| == 6 then Half(!userKey[4], !userKey[5]) else Half(userKey[6], userKey[7]));
        Rounds256(kl, kr);
      }
    }

    constructor (forward: bool, littleEndian: bool, t: Tables, userKey: seq<bv32>)
      requires IsTables(t) && IsUserKey(userKey)
      ensures Valid() && fresh(key) && Schedule() == Subkeys(t, userKey)
      ensures rounds == if |userKey| == 4 then 3 else 4
      ensures this.forward == forward && this.t == t
    {
      this.forward, this.littleEndian, this.t := forward, littleEndian, t;
      rounds, key := 0, new bv32[0];
      new;
      SetKey(userKey);
    }
  }

  lemma XorNothing(x: Halves)
    ensures XorHalves(x, Halves(Half(0, 0), Half(0, 0))) == x
  {
    hide Xor32;
    XorWordZero(x.d1.h);
    XorWordZero(x.d1.l);
    XorWordZero(x.d2.h);
    XorWordZero(x.d2.l);
  }

  lemma XorCommutes(x: Halves, y: Halves)
    ensures XorHalves(x, y) == XorHalves(y, x)
  {
    hide Xor32;
    XorWordCommutes(x.d1.h, y.d1.h);
    XorWordCommutes(x.d1.l, y.d1.l);
    XorWordCommutes(x.d2.h, y.d2.h);
    XorWordCommutes(x.d2.l, y.d2.l);
  }

  lemma ReverseTwice(s: seq<Half>)
    ensures Reverse(Reverse(s)) == s
  {
  }

  /** What an object set up for encryption encrypts, one set up for decryption with the same key decrypts,
      whatever the byte orders of their machines. */
  method DecryptEncrypted(t: Tables, userKey: seq<bv32>, order1: bool, order2: bool, block: Block) returns (out: Block)
    requires IsTables(t) && IsUserKey(userKey)
    ensures out == block
  {
    hide IsTables, Encrypt, Subkeys, ReadKeys, Reverse;
    var encryption := new CamelliaBase(true, order1, t, userKey);
    var decryption := new CamelliaBase(false, order2, t, userKey);
    ReverseTwice(decryption.Keys());
    out := encryption.ProcessAndXorBlock(block, None);
    out := decryption.ProcessAndXorBlock(out, None);
    ReversedKeysDecrypt(t, encryption.Keys(), encryption.rounds, block);
  }
}
