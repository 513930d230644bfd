/** Blowfish as its author states it: sixteen rounds that exchange the halves. */
module BlowfishStandard {
  import opened Words
  import opened Blowfish

  /** The S-boxes apart: entry j of box i. */
  function Box(s: seq<bv32>, i: nat, j: bv8): bv32
    requires |s| == 1024 && i < 4
  {
    s[256 * i + j as nat]
  }

  /** F: the four bytes of x, most significant first, are looked up. From the result, what box 0 gives comes back if
      box 3 is subtracted, box 2 xored and box 1 subtracted. */
  lemma FMeans(s: seq<bv32>, x: bv32) returns (a: bv8, b: bv8, c: bv8, d: bv8)
    requires |s| == 1024
    ensures IsWord(x, a, b, c, d)
    ensures Sub32(Xor32(Sub32(F(s, x), Box(s, 3, d)), Box(s, 2, c)), Box(s, 1, b)) == Box(s, 0, a)
  {
    hide GetByte, IsWord, Xor32, Add32, Sub32;
    a, b, c, d := GetByte(x, 3), GetByte(x, 2), GetByte(x, 1), GetByte(x, 0);
    WordOfBytes(x);
    var p, q, u, v := Box(s, 0, a), Box(s, 1, b), Box(s, 2, c), Box(s, 3, d);
    SubUndoesAdd(Xor32(Add32(p, q), u), v);
    XorWordTwice(Add32(p, q), u);
    SubUndoesAdd(p, q);
  }

  predicate IsWord(x: bv32, a: bv8, b: bv8, c: bv8, d: bv8) {
    x == (a as bv32 << 24) + (b as bv32 << 16) + (c as bv32 << 8) + d as bv32
  }

  lemma WordOfBytes(x: bv32)
    ensures IsWord(x, GetByte(x, 3), GetByte(x, 2), GetByte(x, 1), GetByte(x, 0))
  {
  }

  /** i rounds: the left half is mixed with the key of the round, and its image under F goes into the right half; then
      the halves change places. */
  function Rounds(p: seq<bv32>, s: seq<bv32>, i: nat, x: Pair): Pair
    requires |p| == 18 && |s| == 1024 && i <= 16
  {
    if i == 0 then x
    else
      var y := Rounds(p, s, i - 1, x);
      var l := Xor32(y.l, p[i - 1]);
      Pair(Xor32(y.r, F(s, l)), l)
  }

  /** After the sixteen rounds the last exchange is undone and two keys go in. */
  function Encipher(p: seq<bv32>, s: seq<bv32>, x: Pair): Pair
    requires |p| == 18 && |s| == 1024
  {
    var y := Rounds(p, s, 16, x);
    Pair(Xor32(y.r, p[17]), Xor32(y.l, p[16]))
  }

  /** The steps in place, which mix in the next key early, keep up with the rounds. */
  lemma {:induction false} RunKeepsUp(p: seq<bv32>, s: seq<bv32>, i: nat, x: Pair)
    requires |p| == 18 && |s| == 1024 && i <= 16
    ensures var y, z := Rounds(p, s, i, x), Run(p, s, i + 1, x);
            if i % 2 == 0 then z == Pair(Xor32(y.l, p[i]), y.r) else z == Pair(y.r, Xor32(y.l, p[i]))
  {
    hide F, Xor32;
    if i > 0 {
      RunKeepsUp(p, s, i - 1, x);
      var y := Rounds(p, s, i - 1, x);
      Regroup(y.r, F(s, Xor32(y.l, p[i - 1])), p[i]);
      StepInside(p, s, i, Run(p, s, i, x));
    }
  }

  lemma StepInside(p: seq<bv32>, s: seq<bv32>, i: nat, z: Pair)
    requires |p| == 18 && |s| == 1024 && 0 < i < 17
    ensures Step(p, s, i, z) == if i % 2 == 0 then Pair(Xor32(z.l, Xor32(F(s, z.r), p[i])), z.r)
                                else Pair(z.l, Xor32(z.r, Xor32(F(s, z.l), p[i])))
  {
    hide F, Xor32;
  }

  lemma Regroup(a: bv32, b: bv32, c: bv32)
    ensures Xor32(a, Xor32(b, c)) == Xor32(Xor32(a, b), c)
  {
  }

  lemma CryptIsEncipher(p: seq<bv32>, s: seq<bv32>, x: Pair)
    requires |p| == 18 && |s| == 1024
    ensures Crypt(p, s, x) == Encipher(p, s, x)
  {
    hide F, Rounds, Run, Xor32;
    RunKeepsUp(p, s, 16, x);
    LastStep(p, s, x);
  }

  lemma LastStep(p: seq<bv32>, s: seq<bv32>, x: Pair)
    requires |p| == 18 && |s| == 1024
    ensures Run(p, s, 18, x) == Right(Run(p, s, 17, x), p[17])
  {
    hide F, Xor32;
  }

  // Key expansion

  /** The four bytes of a key word follow one another in the key, which starts over at its end. */
  lemma KeyBytes(key: seq<bv8>, i: nat)
    requires |key| > 0
    ensures IsWord(KeyWord(key, i, 4), key[(4 * i) % |key|], key[(4 * i + 1) % |key|], key[(4 * i + 2) % |key|],
                   key[(4 * i + 3) % |key|])
  {
    hide IsWord, KeyWord, Push;
    NoWord(key, i);
    NextByte(key, i, 0);
    NextByte(key, i, 1);
    NextByte(key, i, 2);
    NextByte(key, i, 3);
    Pushed(key[(4 * i) % |key|], key[(4 * i + 1) % |key|], key[(4 * i + 2) % |key|], key[(4 * i + 3) % |key|]);
  }

  function Push(word: bv32, b: bv8): bv32 {
    (word << 8) | (b as bv32)
  }

  lemma NoWord(key: seq<bv8>, i: nat)
    requires |key| > 0
    ensures KeyWord(key, i, 0) == 0
  {
  }

  lemma NextByte(key: seq<bv8>, i: nat, k: nat)
    requires |key| > 0 && k < 4
    ensures KeyWord(key, i, k + 1) == Push(KeyWord(key, i, k), key[(4 * i + k) % |key|])
  {
  }

  lemma Pushed(a: bv8, b: bv8, c: bv8, d: bv8)
    ensures IsWord(Push(Push(Push(Push(0, a), b), c), d), a, b, c, d)
  {
  }

  /** Pair k of the P-array is replaced by the encipherment of the pair before it, or of zeros, with the arrays as
      they are then. */
  lemma PairOfP(p: seq<bv32>, s: seq<bv32>, k: nat)
    requires |p| == 18 && |s| == 1024 && k < 9
    ensures var q, r := FillP(p, s, k), FillP(p, s, k + 1);
            && Pair(r[2 * k], r[2 * k + 1])
               == Encipher(q, s, if k == 0 then Pair(0, 0) else Pair(q[2 * k - 2], q[2 * k - 1]))
            && forall i :: 0 <= i < 18 && i != 2 * k && i != 2 * k + 1 ==> r[i] == q[i]
  {
    hide Crypt, Encipher;
    var q := FillP(p, s, k);
    CryptIsEncipher(q, s, if k == 0 then Pair(0, 0) else Pair(q[2 * k - 2], q[2 * k - 1]));
  }

  /** Pair k of the S-boxes; the first follows the last pair of the P-array. */
  lemma PairOfS(p: seq<bv32>, s: seq<bv32>, k: nat)
    requires |p| == 18 && |s| == 1024 && k < 512
    ensures var q, r := FillS(p, s, k), FillS(p, s, k + 1);
            && Pair(r[2 * k], r[2 * k + 1])
               == Encipher(p, q, if k == 0 then Pair(p[16], p[17]) else Pair(q[2 * k - 2], q[2 * k - 1]))
            && forall i :: 0 <= i < 1024 && i != 2 * k && i != 2 * k + 1 ==> r[i] == q[i]
  {
    hide Crypt, Encipher;
    var q := FillS(p, s, k);
    CryptIsEncipher(p, q, if k == 0 then Pair(p[16], p[17]) else Pair(q[2 * k - 2], q[2 * k - 1]));
  }
}
