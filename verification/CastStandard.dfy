/** CAST-256 and CAST-128 against the words of RFC 2612 and RFC 2144. */
module CastStandard {
  import opened Words
  import opened Cast

  /** Bit i of t is the bit of x that is y places below it. */
  predicate IsTurnedAt(t: bv32, x: bv32, y: bv32, i: bv32) {
    (t >> (i & 31)) & 1 == (x >> ((i - y) & 31)) & 1
  }

  lemma ShiftsTurn(x: bv32, y: bv32, i: bv32)
    ensures IsTurnedAt((x << (y & 31)) | (x >> ((32 - (y & 31)) & 31)), x, y, i)
  {
  }

  lemma RotlIs(x: bv32, y: bv32)
    ensures RotlVariable(x, y) == (x << (y & 31)) | (x >> ((32 - (y & 31)) & 31))
  {
  }

  /** `RotlVariable` turns to the left. */
  lemma RotatedBit(x: bv32, y: bv32, i: bv32)
    ensures IsTurnedAt(RotlVariable(x, y), x, y, i)
  {
    hide RotlVariable, IsTurnedAt;
    RotlIs(x, y);
    ShiftsTurn(x, y, i);
  }

  /** A word is put together from four bytes. */
  predicate AreBytes(t: bv32, a: bv8, b: bv8, c: bv8, d: bv8) {
    t == (a as bv32 << 24) + (b as bv32 << 16) + (c as bv32 << 8) + d as bv32
  }

  lemma FourBytes(t: bv32)
    ensures AreBytes(t, GetByte(t, 3), GetByte(t, 2), GetByte(t, 1), GetByte(t, 0))
  {
  }

  /** Type 1: the sum of key and half is turned. From the result, what box 0 gives for the first byte comes back if
      box 3 is subtracted, box 2 added and box 1 xored. */
  lemma F1Means(s: Boxes, r: bv32, km: bv32, kr: bv32) returns (t: bv32, a: bv8, b: bv8, c: bv8, d: bv8)
    ensures t == RotlVariable(Add32(km, r), kr) && AreBytes(t, a, b, c, d)
    ensures Xor32(Add32(Sub32(F1(s, r, km, kr), s.s3(d)), s.s2(c)), s.s1(b)) == s.s0(a)
  {
    hide RotlVariable, AreBytes, GetByte, Xor32, Add32, Sub32;
    t := RotlVariable(Add32(km, r), kr);
    FourBytes(t);
    a, b, c, d := GetByte(t, 3), GetByte(t, 2), GetByte(t, 1), GetByte(t, 0);
    var p, q, u, v := s.s0(a), s.s1(b), s.s2(c), s.s3(d);
    SubUndoesAdd(Sub32(Xor32(p, q), u), v);
    AddUndoesSub(Xor32(p, q), u);
    XorWordTwice(p, q);
  }

  /** Type 2: the exclusive or is turned; box 3 is xored, box 2 subtracted and box 1 added. */
  lemma F2Means(s: Boxes, r: bv32, km: bv32, kr: bv32) returns (t: bv32, a: bv8, b: bv8, c: bv8, d: bv8)
    ensures t == RotlVariable(Xor32(km, r), kr) && AreBytes(t, a, b, c, d)
    ensures Add32(Sub32(Xor32(F2(s, r, km, kr), s.s3(d)), s.s2(c)), s.s1(b)) == s.s0(a)
  {
    hide RotlVariable, AreBytes, GetByte, Xor32, Add32, Sub32;
    t := RotlVariable(Xor32(km, r), kr);
    FourBytes(t);
    a, b, c, d := GetByte(t, 3), GetByte(t, 2), GetByte(t, 1), GetByte(t, 0);
    var p, q, u, v := s.s0(a), s.s1(b), s.s2(c), s.s3(d);
    XorWordTwice(Add32(Sub32(p, q), u), v);
    SubUndoesAdd(Sub32(p, q), u);
    AddUndoesSub(p, q);
  }

  /** Type 3: the key less the half is turned; box 3 is added, box 2 xored and box 1 subtracted. */
  lemma F3Means(s: Boxes, r: bv32, km: bv32, kr: bv32) returns (t: bv32, a: bv8, b: bv8, c: bv8, d: bv8)
    ensures t == RotlVariable(Sub32(km, r), kr) && AreBytes(t, a, b, c, d)
    ensures Sub32(Xor32(Add32(F3(s, r, km, kr), s.s3(d)), s.s2(c)), s.s1(b)) == s.s0(a)
  {
    hide RotlVariable, AreBytes, GetByte, Xor32, Add32, Sub32;
    t := RotlVariable(Sub32(km, r), kr);
    FourBytes(t);
    a, b, c, d := GetByte(t, 3), GetByte(t, 2), GetByte(t, 1), GetByte(t, 0);
    var p, q, u, v := s.s0(a), s.s1(b), s.s2(c), s.s3(d);
    AddUndoesSub(Xor32(Add32(p, q), u), v);
    XorWordTwice(Add32(p, q), u);
    SubUndoesAdd(p, q);
  }

  /** A forward quad round changes C, B, A and D in turn, by functions of types 1, 2, 3 and 1. */
  lemma QuadChanges(s: Boxes, keys: seq<bv32>, n: nat, x: Block)
    requires |keys| == 96 && n < 6
    ensures var u, v := Run256(s, keys, n, x), Run256(s, keys, n + 1, x);
            && Xor32(v.c, u.c) == F1(s, u.d, keys[8 * n + 4], keys[8 * n])
            && Xor32(v.b, u.b) == F2(s, v.c, keys[8 * n + 5], keys[8 * n + 1])
            && Xor32(v.a, u.a) == F3(s, v.b, keys[8 * n + 6], keys[8 * n + 2])
            && Xor32(v.d, u.d) == F1(s, v.a, keys[8 * n + 7], keys[8 * n + 3])
  {
    hide Xor32, F1, F2, F3;
    var u, v := Run256(s, keys, n, x), Run256(s, keys, n + 1, x);
    WordDifference(u.c, F1(s, u.d, keys[8 * n + 4], keys[8 * n]));
    WordDifference(u.b, F2(s, v.c, keys[8 * n + 5], keys[8 * n + 1]));
    WordDifference(u.a, F3(s, v.b, keys[8 * n + 6], keys[8 * n + 2]));
    WordDifference(u.d, F1(s, v.a, keys[8 * n + 7], keys[8 * n + 3]));
  }

  /** A reverse quad round changes D, A, B and C in turn. */
  lemma QuadBarChanges(s: Boxes, keys: seq<bv32>, n: nat, x: Block)
    requires |keys| == 96 && 6 <= n < 12
    ensures var u, v := Run256(s, keys, n, x), Run256(s, keys, n + 1, x);
            && Xor32(v.d, u.d) == F1(s, u.a, keys[8 * n + 7], keys[8 * n + 3])
            && Xor32(v.a, u.a) == F3(s, u.b, keys[8 * n + 6], keys[8 * n + 2])
            && Xor32(v.b, u.b) == F2(s, u.c, keys[8 * n + 5], keys[8 * n + 1])
            && Xor32(v.c, u.c) == F1(s, v.d, keys[8 * n + 4], keys[8 * n])
  {
    hide Xor32, F1, F2, F3;
    var u, v := Run256(s, keys, n, x), Run256(s, keys, n + 1, x);
    WordDifference(u.d, F1(s, u.a, keys[8 * n + 7], keys[8 * n + 3]));
    WordDifference(u.a, F3(s, u.b, keys[8 * n + 6], keys[8 * n + 2]));
    WordDifference(u.b, F2(s, u.c, keys[8 * n + 5], keys[8 * n + 1]));
    WordDifference(u.c, F1(s, v.d, keys[8 * n + 4], keys[8 * n]));
  }

  /** L_i and R_i of CAST-128, which keeps the halves in place and changes them by turns. */
  function Halves(s: Boxes, keys: seq<bv32>, i: nat, x: Pair): Pair
    requires |keys| == 32 && i <= 16
  {
    var y := Run128(s, keys, i, x);
    if i % 2 == 0 then y else Pair(y.r, y.l)
  }

  /** Section 2.2 of RFC 2144: the right half moves to the left; the left one, mixed with a function of the right, to
      the right. Rounds 1, 4, 7, 10, 13 and 16 use type 1, rounds 2, 5, 8, 11 and 14 type 2, the others type 3. */
  lemma RoundChanges(s: Boxes, keys: seq<bv32>, i: nat, x: Pair)
    requires |keys| == 32 && i < 16
    ensures var u, v := Halves(s, keys, i, x), Halves(s, keys, i + 1, x);
            && v.l == u.r
            && Xor32(v.r, u.l) == if i in {0, 3, 6, 9, 12, 15} then F1(s, u.r, keys[i], keys[i + 16])
                                  else if i in {1, 4, 7, 10, 13} then F2(s, u.r, keys[i], keys[i + 16])
                                  else F3(s, u.r, keys[i], keys[i + 16])
  {
    hide Halves, Mix, Xor32, F1, F2, F3;
    HalvesNext(s, keys, i, x);
    TypeOfRound(s, keys, i, Halves(s, keys, i, x).r);
  }

  lemma HalvesNext(s: Boxes, keys: seq<bv32>, i: nat, x: Pair)
    requires |keys| == 32 && i < 16
    ensures var u, v := Halves(s, keys, i, x), Halves(s, keys, i + 1, x);
            v.l == u.r && Xor32(v.r, u.l) == Mix(s, keys, i, u.r)
  {
    hide Xor32, Run128, Round, Mix;
    RunStep(s, keys, i, x);
    RoundInPlace(s, keys, i, Run128(s, keys, i, x));
  }

  lemma RoundInPlace(s: Boxes, keys: seq<bv32>, i: nat, z: Pair)
    requires |keys| == 32 && i < 16
    ensures var r := Round(s, keys, i, z);
            if i % 2 == 0 then r.r == z.r && Xor32(r.l, z.l) == Mix(s, keys, i, z.r)
            else r.l == z.l && Xor32(r.r, z.r) == Mix(s, keys, i, z.l)
  {
    hide Xor32, Mix;
    WordDifference(z.l, Mix(s, keys, i, z.r));
    WordDifference(z.r, Mix(s, keys, i, z.l));
  }

  lemma TypeOfRound(s: Boxes, keys: seq<bv32>, i: nat, r: bv32)
    requires |keys| == 32 && i < 16
    ensures Mix(s, keys, i, r) == if i in {0, 3, 6, 9, 12, 15} then F1(s, r, keys[i], keys[i + 16])
                                  else if i in {1, 4, 7, 10, 13} then F2(s, r, keys[i], keys[i + 16])
                                  else F3(s, r, keys[i], keys[i + 16])
  {
    hide F1, F2, F3;
  }
}
