/** `Blowfish::Base`. */
module Blowfish {
  import opened Words
  import opened Sequences

  /** The function of the four S-boxes, which lie one behind the other. */
  function F(s: seq<bv32>, x: bv32): bv32
    requires |s| == 1024
  {
    Add32(Xor32(Add32(s[GetByte(x, 3) as nat], s[256 + GetByte(x, 2) as nat]), s[512 + GetByte(x, 1) as nat]),
          s[768 + GetByte(x, 0) as nat])
  }

  ghost predicate AreBoxes(p: seq<bv32>, s: seq<bv32>) {
    |p| == 18 && |s| == 1024
  }

  /** What step n of 18 mixes in: the first and the last whiten, the others are rounds. */
  function Mix(p: seq<bv32>, s: seq<bv32>, n: nat, h: bv32): bv32
    requires AreBoxes(p, s) && n < 18
  {
    if n == 0 || n == 17 then p[n] else Xor32(F(s, h), p[n])
  }

  function Step(p: seq<bv32>, s: seq<bv32>, n: nat, x: Pair): Pair
    requires AreBoxes(p, s) && n < 18
  {
    if n % 2 == 0 then Left(x, Mix(p, s, n, x.r)) else Right(x, Mix(p, s, n, x.l))
  }

  function Run(p: seq<bv32>, s: seq<bv32>, n: nat, x: Pair): Pair
    requires AreBoxes(p, s) && n <= 18
  {
    if n == 0 then x else Step(p, s, n - 1, Run(p, s, n - 1, x))
  }

  /** The cipher: all the steps, then the halves change places. */
  function Crypt(p: seq<bv32>, s: seq<bv32>, x: Pair): Pair
    requires AreBoxes(p, s)
  {
    Swap(Run(p, s, 18, x))
  }

  /** A step of the reversed keys undoes its counterpart, with the halves exchanged. */
  lemma StepBack(p: seq<bv32>, s: seq<bv32>, n: nat, x: Pair)
    requires AreBoxes(p, s) && n < 18
    ensures Step(Reverse(p), s, 17 - n, Swap(Step(p, s, n, x))) == Swap(x)
  {
    hide Xor32, Mix, Reverse;
    MixBack(p, s, n, x.l);
    MixBack(p, s, n, x.r);
    XorWordTwice(x.l, Mix(p, s, n, x.r));
    XorWordTwice(x.r, Mix(p, s, n, x.l));
  }

  lemma MixBack(p: seq<bv32>, s: seq<bv32>, n: nat, h: bv32)
    requires AreBoxes(p, s) && n < 18
    ensures Mix(Reverse(p), s, 17 - n, h) == Mix(p, s, n, h)
  {
    hide Xor32, F;
  }

  lemma {:induction false} RunBack(p: seq<bv32>, s: seq<bv32>, n: nat, x: Pair)
    requires AreBoxes(p, s) && n <= 18
    ensures Run(Reverse(p), s, 18 - n, Swap(Run(p, s, 18, x))) == Swap(Run(p, s, n, x))
    decreases 18 - n
  {
    hide Step, Reverse;
    if n < 18 {
      RunBack(p, s, n + 1, x);
      StepBack(p, s, n, Run(p, s, n, x));
    }
  }

  /** With the P-array reversed, the cipher decrypts. */
  lemma ReversedBoxDecrypts(p: seq<bv32>, s: seq<bv32>, x: Pair)
    requires AreBoxes(p, s)
    ensures Crypt(Reverse(p), s, Crypt(p, s, x)) == x
  {
    hide Step, Reverse;
    RunBack(p, s, 0, x);
  }

  // Key expansion

  /** Word i of the key string, which is repeated as often as needed. */
  function KeyWord(key: seq<bv8>, i: nat, k: nat): bv32
    requires |key| > 0 && k <= 4
  {
    if k == 0 then 0 else (KeyWord(key, i, k - 1) << 8) | (key[(4 * i + k - 1) % |key|] as bv32)
  }

  function MixKey(key: seq<bv8>, p: seq<bv32>): (r: seq<bv32>)
    requires |key| > 0
    ensures |r| == |p|
  {
    seq(|p|, i requires 0 <= i < |p| => Xor32(p[i], KeyWord(key, i, 4)))
  }

  function SetPair(s: seq<bv32>, i: nat, x: Pair): (r: seq<bv32>)
    requires i + 1 < |s|
    ensures |r| == |s|
  {
    s[i := x.l][i + 1 := x.r]
  }

  /** The P-array when k pairs of it have been replaced, each by the encryption of the pair before it. */
  function FillP(p: seq<bv32>, s: seq<bv32>, k: nat): (r: seq<bv32>)
    requires AreBoxes(p, s) && k <= 9
    ensures |r| == 18
  {
    if k == 0 then p
    else
      var q := FillP(p, s, k - 1);
      SetPair(q, 2 * k - 2, Crypt(q, s, if k == 1 then Pair(0, 0) else Pair(q[2 * k - 4], q[2 * k - 3])))
  }

  /** The S-boxes when k pairs of them have been replaced; the first follows the last pair of the P-array. */
  function FillS(p: seq<bv32>, s: seq<bv32>, k: nat): (r: seq<bv32>)
    requires AreBoxes(p, s) && k <= 512
    ensures |r| == 1024
  {
    if k == 0 then s
    else
      var q := FillS(p, s, k - 1);
      SetPair(q, 2 * k - 2, Crypt(p, q, if k == 1 then Pair(p[16], p[17]) else Pair(q[2 * k - 4], q[2 * k - 3])))
  }

  class BlowfishBase {
    const pbox: array<bv32>
    const sbox: array<bv32>

    ghost predicate Valid()
      reads this
    {
      pbox.Length == 18 && sbox.Length == 1024 && pbox != sbox
    }

    method CryptBlock(x: Pair) returns (y: Pair)
      requires Valid()
      ensures y == Crypt(pbox[..], sbox[..], x)
    {
      hide F, Xor32;
      ghost var p, s := pbox[..], sbox[..];
      var b := x.(l := Xor32(x.l, pbox[0]));
      for i := 0 to 8
        invariant b == Run(p, s, 2 * i + 1, x)
      {
        ghost var c := b;
        b := Right(b, Xor32(F(sbox[..], b.l), pbox[2 * i + 1]));
        assert b == Step(p, s, 2 * i + 1, c);
        ghost var d := b;
        b := Left(b, Xor32(F(sbox[..], b.r), pbox[2 * i + 2]));
        assert b == Step(p, s, 2 * i + 2, d);
      }
      b := Right(b, pbox[17]);
      y := Swap(b);
    }

    /** Reverses the P-array in place. */
    method ReversePbox()
      requires Valid()
      modifies pbox
      ensures pbox[..] == Reverse(old(pbox[..]))
    {
      for i := 0 to 9
        invariant forall n :: 0 <= n < 18 ==> pbox[n] == old(pbox[if n < i || n > 17 - i then 17 - n else n])
      {
        pbox[i], pbox[17 - i] := pbox[17 - i], pbox[i];
      }
    }

    method Put(a: array<bv32>, i: nat, x: Pair)
      requires i + 1 < a.Length
      modifies a
      ensures a[..] == SetPair(old(a[..]), i, x)
    {
      a[i] := x.l;
      a[i + 1] := x.r;
    }

    method ExpandP()
      requires Valid()
      modifies pbox
      ensures pbox[..] == FillP(old(pbox[..]), sbox[..], 9)
    {
      hide Crypt, SetPair;
      ghost var p, s := pbox[..], sbox[..];
      var x := CryptBlock(Pair(0, 0));
      Put(pbox, 0, x);
      assert pbox[..] == FillP(p, s, 1);
      for j := 0 to 8
        invariant pbox[..] == FillP(p, s, j + 1)
      {
        x := CryptBlock(Pair(pbox[2 * j], pbox[2 * j + 1]));
        Put(pbox, 2 * j + 2, x);
      }
    }

    method ExpandS()
      requires Valid()
      modifies sbox
      ensures sbox[..] == FillS(pbox[..], old(sbox[..]), 512)
    {
      hide Crypt, SetPair;
      ghost var p, s := pbox[..], sbox[..];
      var x := CryptBlock(Pair(pbox[16], pbox[17]));
      Put(sbox, 0, x);
      assert sbox[..] == FillS(p, s, 1);
      for j := 0 to 511
        invariant sbox[..] == FillS(p, s, j + 1)
      {
        x := CryptBlock(Pair(sbox[2 * j], sbox[2 * j + 1]));
        Put(sbox, 2 * j + 2, x);
      }
    }

    /** Expands the key, and for decryption reverses the P-array. */
    constructor (forward: bool, key: seq<bv8>, pInit: seq<bv32>, sInit: seq<bv32>)
      requires |key| > 0 && AreBoxes(pInit, sInit)
      ensures Valid() && fresh(pbox) && fresh(sbox)
      ensures var p := FillP(MixKey(key, pInit), sInit, 9);
              pbox[..] == (if forward then p else Reverse(p)) && sbox[..] == FillS(p, sInit, 512)
    {
      hide FillP, FillS, KeyWord, Reverse;
      pbox := new bv32[18](i requires 0 <= i < 18 => pInit[i]);
      sbox := new bv32[1024](i requires 0 <= i < 1024 => sInit[i]);
      new;
      MixKeyIn(key);
      assert pbox[..] == MixKey(key, pInit);
      assert sbox[..] == sInit;
      ExpandP();
      ExpandS();
      if !forward {
        ReversePbox();
      }
    }

    method MixKeyIn(key: seq<bv8>)
      requires Valid() && |key| > 0
      modifies pbox
      ensures pbox[..] == MixKey(key, old(pbox[..]))
    {
      hide Xor32;
      var j := 0;
      for i := 0 to 18
        invariant j == 4 * i
        invariant forall n :: 0 <= n < i ==> pbox[n] == Xor32(old(pbox[n]), KeyWord(key, n, 4))
        invariant forall n :: i <= n < 18 ==> pbox[n] == old(pbox[n])
      {
        var data: bv32 := 0;
        for k := 0 to 4
          invariant j == 4 * i + k && data == KeyWord(key, i, k)
        {
          data := (data << 8) | (key[j % |key|] as bv32);
          j := j + 1;
        }
        pbox[i] := Xor32(pbox[i], data);
      }
    }
  }

  /** What an object with the key encrypts, an object set up for decryption decrypts. */
  method DecryptEncrypted(key: seq<bv8>, pInit: seq<bv32>, sInit: seq<bv32>, block: Pair) returns (out: Pair)
    requires |key| > 0 && AreBoxes(pInit, sInit)
    ensures out == block
  {
    hide Crypt, FillP, FillS, MixKey, Reverse;
    var encryption := new BlowfishBase(true, key, pInit, sInit);
    var decryption := new BlowfishBase(false, key, pInit, sInit);
    out := encryption.CryptBlock(block);
    out := decryption.CryptBlock(out);
    ReversedBoxDecrypts(encryption.pbox[..], encryption.sbox[..], block);
  }
}
