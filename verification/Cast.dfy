/** `CAST256::Base` and `CAST128`. */
module Cast {
  import opened Words

  // The S-boxes

  datatype Boxes = Boxes(s0: bv8 -> bv32, s1: bv8 -> bv32, s2: bv8 -> bv32, s3: bv8 -> bv32)

  /** `rotlVariable` */
  function RotlVariable(x: bv32, y: bv32): bv32 {
    (x << (y & 31)) | (x >> ((32 - (y & 31)) & 31))
  }

  function F1(s: Boxes, r: bv32, km: bv32, kr: bv32): bv32 {
    var t := RotlVariable(Add32(km, r), kr);
    Add32(Sub32(Xor32(s.s0(GetByte(t, 3)), s.s1(GetByte(t, 2))), s.s2(GetByte(t, 1))), s.s3(GetByte(t, 0)))
  }

  function F2(s: Boxes, r: bv32, km: bv32, kr: bv32): bv32 {
    var t := RotlVariable(Xor32(km, r), kr);
    Xor32(Add32(Sub32(s.s0(GetByte(t, 3)), s.s1(GetByte(t, 2))), s.s2(GetByte(t, 1))), s.s3(GetByte(t, 0)))
  }

  function F3(s: Boxes, r: bv32, km: bv32, kr: bv32): bv32 {
    var t := RotlVariable(Sub32(km, r), kr);
    Sub32(Xor32(Add32(s.s0(GetByte(t, 3)), s.s1(GetByte(t, 2))), s.s2(GetByte(t, 1))), s.s3(GetByte(t, 0)))
  }

  // CAST-256

  datatype Block = Block(a: bv32, b: bv32, c: bv32, d: bv32)

  /** The masking and rotation keys of a quad round. */
  datatype QuadKey = QuadKey(km0: bv32, km1: bv32, km2: bv32, km3: bv32, kr0: bv32, kr1: bv32, kr2: bv32, kr3: bv32)

  /** The forward quad round of section 2.3 of RFC 2612. */
  function Quad(s: Boxes, k: QuadKey, x: Block): Block {
    var c := Xor32(x.c, F1(s, x.d, k.km0, k.kr0));
    var b := Xor32(x.b, F2(s, c, k.km1, k.kr1));
    var a := Xor32(x.a, F3(s, b, k.km2, k.kr2));
    Block(a, b, c, Xor32(x.d, F1(s, a, k.km3, k.kr3)))
  }

  /** The reverse quad round. */
  function QuadBar(s: Boxes, k: QuadKey, x: Block): Block {
    var d := Xor32(x.d, F1(s, x.a, k.km3, k.kr3));
    var a := Xor32(x.a, F3(s, x.b, k.km2, k.kr2));
    var b := Xor32(x.b, F2(s, x.c, k.km1, k.kr1));
    Block(a, b, Xor32(x.c, F1(s, d, k.km0, k.kr0)), d)
  }

  lemma QuadsInvert(s: Boxes, k: QuadKey, x: Block)
    ensures QuadBar(s, k, Quad(s, k, x)) == x && Quad(s, k, QuadBar(s, k, x)) == x
  {
    hide Xor32, F1, F2, F3;
    var y, z := Quad(s, k, x), QuadBar(s, k, x);
    XorWordTwice(x.c, F1(s, x.d, k.km0, k.kr0));
    XorWordTwice(x.b, F2(s, y.c, k.km1, k.kr1));
    XorWordTwice(x.a, F3(s, y.b, k.km2, k.kr2));
    XorWordTwice(x.d, F1(s, y.a, k.km3, k.kr3));
    XorWordTwice(x.d, F1(s, x.a, k.km3, k.kr3));
    XorWordTwice(x.a, F3(s, x.b, k.km2, k.kr2));
    XorWordTwice(x.b, F2(s, x.c, k.km1, k.kr1));
    XorWordTwice(x.c, F1(s, z.d, k.km0, k.kr0));
  }

  /** The keys of quad round i in the array of round keys. */
  function QuadKeyAt(keys: seq<bv32>, i: nat): QuadKey
    requires |keys| == 96 && i < 12
  {
    QuadKey(keys[8 * i + 4], keys[8 * i + 5], keys[8 * i + 6], keys[8 * i + 7],
            keys[8 * i], keys[8 * i + 1], keys[8 * i + 2], keys[8 * i + 3])
  }

  /** The first n of six forward and six reverse quad rounds. */
  function Run256(s: Boxes, keys: seq<bv32>, n: nat, x: Block): Block
    requires |keys| == 96 && n <= 12
  {
    if n == 0 then x
    else if n <= 6 then Quad(s, QuadKeyAt(keys, n - 1), Run256(s, keys, n - 1, x))
    else QuadBar(s, QuadKeyAt(keys, n - 1), Run256(s, keys, n - 1, x))
  }

  /** The round keys with the quad rounds in reverse order. */
  ghost predicate QuadsReversed(keys: seq<bv32>, keys': seq<bv32>) {
    |keys| == |keys'| == 96 && forall i :: 0 <= i < 12 ==> QuadKeyAt(keys', i) == QuadKeyAt(keys, 11 - i)
  }

  lemma {:induction false} RunBack256(s: Boxes, keys: seq<bv32>, keys': seq<bv32>, n: nat, x: Block)
    requires QuadsReversed(keys, keys') && n <= 12
    ensures Run256(s, keys', 12 - n, Run256(s, keys, 12, x)) == Run256(s, keys, n, x)
    decreases 12 - n
  {
    hide Quad, QuadBar, QuadKeyAt;
    if n < 12 {
      RunBack256(s, keys, keys', n + 1, x);
      assert QuadKeyAt(keys', 11 - n) == QuadKeyAt(keys, n);
      QuadsInvert(s, QuadKeyAt(keys, n), Run256(s, keys, n, x));
    }
  }

  class Cast256 {
    const s: Boxes
    const k: array<bv32>

    ghost predicate Valid()
      reads this
    {
      k.Length == 96
    }

    /** `Q(i)` */
    method Q(i: nat, x: Block) returns (y: Block)
      requires Valid() && i < 12
      ensures y == Quad(s, QuadKeyAt(k[..], i), x)
    {
      hide Xor32, F1, F2, F3;
      y := x;
      y := y.(c := Xor32(y.c, F1(s, y.d, k[8 * i + 4], k[8 * i + 4 - 4])));
      y := y.(b := Xor32(y.b, F2(s, y.c, k[8 * i + 5], k[8 * i + 5 - 4])));
      y := y.(a := Xor32(y.a, F3(s, y.b, k[8 * i + 6], k[8 * i + 6 - 4])));
      y := y.(d := Xor32(y.d, F1(s, y.a, k[8 * i + 7], k[8 * i + 7 - 4])));
    }

    /** `QBar(i)` */
    method QBar(i: nat, x: Block) returns (y: Block)
      requires Valid() && i < 12
      ensures y == QuadBar(s, QuadKeyAt(k[..], i), x)
    {
      hide Xor32, F1, F2, F3;
      y := x;
      y := y.(d := Xor32(y.d, F1(s, y.a, k[8 * i + 7], k[8 * i + 7 - 4])));
      y := y.(a := Xor32(y.a, F3(s, y.b, k[8 * i + 6], k[8 * i + 6 - 4])));
      y := y.(b := Xor32(y.b, F2(s, y.c, k[8 * i + 5], k[8 * i + 5 - 4])));
      y := y.(c := Xor32(y.c, F1(s, y.d, k[8 * i + 4], k[8 * i + 4 - 4])));
    }

    method ProcessBlock(inBlock: Block) returns (block: Block)
      requires Valid()
      ensures block == Run256(s, k[..], 12, inBlock)
    {
      hide Quad, QuadBar, QuadKeyAt;
      block := inBlock;
      for i := 0 to 6
        invariant block == Run256(s, k[..], i, inBlock)
      {
        block := Q(i, block);
      }
      for i := 6 to 12
        invariant block == Run256(s, k[..], i, inBlock)
      {
        block := QBar(i, block);
      }
    }

    /** Puts the derived round keys in place, for decryption with the quad rounds in reverse order. */
    constructor (forward: bool, s: Boxes, derived: seq<bv32>)
      requires |derived| == 96
      ensures Valid() && this.s == s && fresh(k)
      ensures if forward then k[..] == derived else QuadsReversed(derived, k[..])
    {
      this.s := s;
      k := new bv32[96](i requires 0 <= i < 96 => derived[i]);
      new;
      assert k[..] == derived;
      if !forward {
        ReverseQuads(k);
      }
    }
  }

  /** The keys of quad round i. */
  function Group(keys: seq<bv32>, i: nat): (g: seq<bv32>)
    requires |keys| == 96 && i < 12
    ensures |g| == 8
  {
    keys[8 * i..8 * i + 8]
  }

  function Groups(keys: seq<bv32>): (gs: seq<seq<bv32>>)
    requires |keys| == 96
    ensures |gs| == 12
  {
    seq(12, i requires 0 <= i < 12 => Group(keys, i))
  }

  lemma GroupsGiveKeys(keys: seq<bv32>, keys': seq<bv32>, i: nat, j: nat)
    requires |keys| == |keys'| == 96 && i < 12 && j < 12 && Groups(keys')[i] == Groups(keys)[j]
    ensures QuadKeyAt(keys', i) == QuadKeyAt(keys, j)
  {
    hide QuadKeyAt;
    KeyOfGroup(keys, j);
    KeyOfGroup(keys', i);
  }

  lemma KeyOfGroup(keys: seq<bv32>, i: nat)
    requires |keys| == 96 && i < 12
    ensures var g := Group(keys, i); QuadKeyAt(keys, i) == QuadKey(g[4], g[5], g[6], g[7], g[0], g[1], g[2], g[3])
  {
  }

  /** Exchanges the keys of quad rounds j and 11 - j, in place, for every j. */
  method ReverseQuads(k: array<bv32>)
    requires k.Length == 96
    modifies k
    ensures QuadsReversed(old(k[..]), k[..])
  {
    hide Groups;
    ghost var was := Groups(k[..]);
    for j := 0 to 6
      invariant forall g :: 0 <= g < 12 ==> Groups(k[..])[g] == was[if g < j || g > 11 - j then 11 - g else g]
    {
      SwapQuads(k, j);
    }
    forall i | 0 <= i < 12 ensures QuadKeyAt(k[..], i) == QuadKeyAt(old(k[..]), 11 - i) {
      GroupsGiveKeys(old(k[..]), k[..], i, 11 - i);
    }
  }

  /** Exchanges two keys. */
  method SwapKeys(k: array<bv32>, i1: nat, i2: nat)
    requires i1 < i2 < k.Length
    modifies k
    ensures k[..] == old(k[..])[i1 := old(k[i2])][i2 := old(k[i1])]
  {
    k[i1], k[i2] := k[i2], k[i1];
  }

  method SwapQuads(k: array<bv32>, j: nat)
    requires k.Length == 96 && j < 6
    modifies k
    ensures var gs := old(Groups(k[..])); Groups(k[..]) == gs[j := gs[11 - j]][11 - j := gs[j]]
  {
    ghost var start := k[..];
    var p, q := 8 * j, 8 * (11 - j);
    assert Exchanged(start, p, q, 0) == start;
    hide Exchanged, Groups;
    for i := 0 to 4
      invariant k[..] == Exchanged(start, p, q, i)
    {
      ExchangedNext(start, p, q, i);
      SwapKeys(k, p + i, q + i);
      SwapKeys(k, p + i + 4, q + i + 4);
    }
    ExchangedGroups(start, j);
  }

  /** The keys p, p + 1, ... and p + 4, p + 5, ... have changed places with those from q on, i of each. */
  function Exchanged(s: seq<bv32>, p: nat, q: nat, i: nat): (r: seq<bv32>)
    requires p + 8 <= q && q + 8 <= |s| && i <= 4
    ensures |r| == |s|
  {
    seq(|s|, n requires 0 <= n < |s| =>
      if p <= n < p + i || p + 4 <= n < p + 4 + i then s[n - p + q]
      else if q <= n < q + i || q + 4 <= n < q + 4 + i then s[n - q + p]
      else s[n])
  }

  lemma ExchangedNext(s: seq<bv32>, p: nat, q: nat, i: nat)
    requires p + 8 <= q && q + 8 <= |s| && i < 4
    ensures var e := Exchanged(s, p, q, i);
            var e' := e[p + i := e[q + i]][q + i := e[p + i]];
            e'[p + i + 4 := e'[q + i + 4]][q + i + 4 := e'[p + i + 4]] == Exchanged(s, p, q, i + 1)
  {
  }

  lemma ExchangedGroups(start: seq<bv32>, j: nat)
    requires |start| == 96 && j < 6
    ensures var gs := Groups(start);
            Groups(Exchanged(start, 8 * j, 8 * (11 - j), 4)) == gs[j := gs[11 - j]][11 - j := gs[j]]
  {
    hide Exchanged;
    var gs := Groups(start);
    var end := gs[j := gs[11 - j]][11 - j := gs[j]];
    var p, q := 8 * j, 8 * (11 - j);
    var r := Exchanged(start, p, q, 4);
    forall g | 0 <= g < 12 ensures Group(r, g) == end[g] {
      ExchangedSlices(start, p, q, 8 * g);
    }
  }

  lemma ExchangedSlices(s: seq<bv32>, p: nat, q: nat, a: nat)
    requires p + 8 <= q && q + 8 <= |s| && a + 8 <= |s|
    ensures var r := Exchanged(s, p, q, 4);
            && r[p..p + 8] == s[q..q + 8] && r[q..q + 8] == s[p..p + 8]
            && (a + 8 <= p || (p + 8 <= a && a + 8 <= q) || q + 8 <= a ==> r[a..a + 8] == s[a..a + 8])
  {
  }

  /** With the keys of the quad rounds exchanged, the cipher decrypts. */
  method DecryptEncrypted256(s: Boxes, derived: seq<bv32>, block: Block) returns (out: Block)
    requires |derived| == 96
    ensures out == block
  {
    var encryption := new Cast256(true, s, derived);
    var decryption := new Cast256(false, s, derived);
    out := encryption.ProcessBlock(block);
    out := decryption.ProcessBlock(out);
    RunBack256(s, derived, decryption.k[..], 0, block);
  }

  // CAST-128

  /** What round i of section 2.2 of RFC 2144 mixes in; its three functions take turns. */
  function Mix(s: Boxes, keys: seq<bv32>, i: nat, r: bv32): bv32
    requires |keys| == 32 && i < 16
  {
    if i % 3 == 0 then F1(s, r, keys[i], keys[i + 16])
    else if i % 3 == 1 then F2(s, r, keys[i], keys[i + 16])
    else F3(s, r, keys[i], keys[i + 16])
  }

  /** Round i, with the halves in place. */
  function Round(s: Boxes, keys: seq<bv32>, i: nat, x: Pair): Pair
    requires |keys| == 32 && i < 16
  {
    if i % 2 == 0 then Left(x, Mix(s, keys, i, x.r)) else Right(x, Mix(s, keys, i, x.l))
  }

  function Run128(s: Boxes, keys: seq<bv32>, n: nat, x: Pair): Pair
    requires |keys| == 32 && n <= 16
  {
    if n == 0 then x else Round(s, keys, n - 1, Run128(s, keys, n - 1, x))
  }

  lemma RoundTwice(s: Boxes, keys: seq<bv32>, i: nat, x: Pair)
    requires |keys| == 32 && i < 16
    ensures Round(s, keys, i, Round(s, keys, i, x)) == x
  {
    hide Mix, Xor32;
    XorWordTwice(x.l, Mix(s, keys, i, x.r));
    XorWordTwice(x.r, Mix(s, keys, i, x.l));
  }

  /** 12 rounds for keys of at most 10 bytes. */
  function RoundCount(reduced: bool): nat {
    if reduced then 12 else 16
  }

  class Cast128 {
    const s: Boxes
    const k: seq<bv32>
    const reduced: bool

    ghost predicate Valid() {
      |k| == 32
    }

    constructor (s: Boxes, k: seq<bv32>, reduced: bool)
      requires |k| == 32
      ensures Valid() && this.s == s && this.k == k && this.reduced == reduced
    {
      this.s, this.k, this.reduced := s, k, reduced;
    }

    /** The first six rounds. */
    method SixRounds(inBlock: Pair) returns (x: Pair)
      requires Valid()
      ensures x == Run128(s, k, 6, inBlock)
    {
      hide F1, F2, F3, Left, Right, Run128;
      RunStart(s, k, inBlock);
      x := inBlock;
      RunStep(s, k, 0, inBlock);
      x := Left(x, F1(s, x.r, k[0], k[0 + 16]));
      RunStep(s, k, 1, inBlock);
      x := Right(x, F2(s, x.l, k[1], k[1 + 16]));
      RunStep(s, k, 2, inBlock);
      x := Left(x, F3(s, x.r, k[2], k[2 + 16]));
      RunStep(s, k, 3, inBlock);
      x := Right(x, F1(s, x.l, k[3], k[3 + 16]));
      RunStep(s, k, 4, inBlock);
      x := Left(x, F2(s, x.r, k[4], k[4 + 16]));
      RunStep(s, k, 5, inBlock);
      x := Right(x, F3(s, x.l, k[5], k[5 + 16]));
    }

    /** The twelve rounds that are always made. */
    method TwelveRounds(inBlock: Pair) returns (x: Pair)
      requires Valid()
      ensures x == Run128(s, k, 12, inBlock)
    {
      hide F1, F2, F3, Left, Right, Run128;
      x := SixRounds(inBlock);
      RunStep(s, k, 6, inBlock);
      x := Left(x, F1(s, x.r, k[6], k[6 + 16]));
      RunStep(s, k, 7, inBlock);
      x := Right(x, F2(s, x.l, k[7], k[7 + 16]));
      RunStep(s, k, 8, inBlock);
      x := Left(x, F3(s, x.r, k[8], k[8 + 16]));
      RunStep(s, k, 9, inBlock);
      x := Right(x, F1(s, x.l, k[9], k[9 + 16]));
      RunStep(s, k, 10, inBlock);
      x := Left(x, F2(s, x.r, k[10], k[10 + 16]));
      RunStep(s, k, 11, inBlock);
      x := Right(x, F3(s, x.l, k[11], k[11 + 16]));
    }

    /** `CAST128::Enc`: the rounds in order, then the halves change places. */
    method Encrypt(inBlock: Pair) returns (out: Pair)
      requires Valid()
      ensures out == var y := Run128(s, k, RoundCount(reduced), inBlock); Pair(y.r, y.l)
    {
      hide F1, F2, F3, Left, Right, Run128;
      var x := TwelveRounds(inBlock);
      if !reduced {
        RunStep(s, k, 12, inBlock);
        x := Left(x, F1(s, x.r, k[12], k[12 + 16]));
        RunStep(s, k, 13, inBlock);
        x := Right(x, F2(s, x.l, k[13], k[13 + 16]));
        RunStep(s, k, 14, inBlock);
        x := Left(x, F3(s, x.r, k[14], k[14 + 16]));
        RunStep(s, k, 15, inBlock);
        x := Right(x, F1(s, x.l, k[15], k[15 + 16]));
      }
      return Pair(x.r, x.l);
    }

    /** `CAST128::Dec`: the same rounds, last one first. */
    method Decrypt(inBlock: Pair) returns (out: Pair)
      requires Valid()
      ensures out == RunDown(s, k, RoundCount(reduced), Pair(inBlock.r, inBlock.l))
    {
      hide F1, F2, F3, Left, Right, RunDown;
      var x := Pair(inBlock.r, inBlock.l);
      ghost var goal := RunDown(s, k, RoundCount(reduced), x);
      if !reduced {
        RunDownStep(s, k, 15, x);
        x := Right(x, F1(s, x.l, k[15], k[15 + 16]));
        RunDownStep(s, k, 14, x);
        x := Left(x, F3(s, x.r, k[14], k[14 + 16]));
        assert goal == RunDown(s, k, 14, x);
        RunDownStep(s, k, 13, x);
        x := Right(x, F2(s, x.l, k[13], k[13 + 16]));
        RunDownStep(s, k, 12, x);
        x := Left(x, F1(s, x.r, k[12], k[12 + 16]));
        assert goal == RunDown(s, k, 12, x);
      }
      assert goal == RunDown(s, k, 12, x);
      RunDownStep(s, k, 11, x);
      x := Right(x, F3(s, x.l, k[11], k[11 + 16]));
      RunDownStep(s, k, 10, x);
      x := Left(x, F2(s, x.r, k[10], k[10 + 16]));
      assert goal == RunDown(s, k, 10, x);
      RunDownStep(s, k, 9, x);
      x := Right(x, F1(s, x.l, k[9], k[9 + 16]));
      RunDownStep(s, k, 8, x);
      x := Left(x, F3(s, x.r, k[8], k[8 + 16]));
      assert goal == RunDown(s, k, 8, x);
      RunDownStep(s, k, 7, x);
      x := Right(x, F2(s, x.l, k[7], k[7 + 16]));
      RunDownStep(s, k, 6, x);
      x := Left(x, F1(s, x.r, k[6], k[6 + 16]));
      assert goal == RunDown(s, k, 6, x);
      RunDownStep(s, k, 5, x);
      x := Right(x, F3(s, x.l, k[5], k[5 + 16]));
      RunDownStep(s, k, 4, x);
      x := Left(x, F2(s, x.r, k[4], k[4 + 16]));
      assert goal == RunDown(s, k, 4, x);
      RunDownStep(s, k, 3, x);
      x := Right(x, F1(s, x.l, k[3], k[3 + 16]));
      RunDownStep(s, k, 2, x);
      x := Left(x, F3(s, x.r, k[2], k[2 + 16]));
      assert goal == RunDown(s, k, 2, x);
      RunDownStep(s, k, 1, x);
      x := Right(x, F2(s, x.l, k[1], k[1 + 16]));
      RunDownStep(s, k, 0, x);
      x := Left(x, F1(s, x.r, k[0], k[0 + 16]));
      assert goal == RunDown(s, k, 0, x);
      RunDownEnds(s, k, x);
      return x;
    }
  }

  lemma RunStart(s: Boxes, keys: seq<bv32>, x: Pair)
    requires |keys| == 32
    ensures Run128(s, keys, 0, x) == x
  {
  }

  lemma RunStep(s: Boxes, keys: seq<bv32>, i: nat, x: Pair)
    requires |keys| == 32 && i < 16
    ensures Run128(s, keys, i + 1, x) == Round(s, keys, i, Run128(s, keys, i, x))
  {
  }

  lemma RunDownStep(s: Boxes, keys: seq<bv32>, i: nat, x: Pair)
    requires |keys| == 32 && i < 16
    ensures RunDown(s, keys, i + 1, x) == RunDown(s, keys, i, Round(s, keys, i, x))
  {
  }

  lemma RunDownEnds(s: Boxes, keys: seq<bv32>, x: Pair)
    requires |keys| == 32
    ensures RunDown(s, keys, 0, x) == x
  {
  }

  /** Rounds n - 1 down to 0. */
  function RunDown(s: Boxes, keys: seq<bv32>, n: nat, x: Pair): Pair
    requires |keys| == 32 && n <= 16
  {
    if n == 0 then x else RunDown(s, keys, n - 1, Round(s, keys, n - 1, x))
  }

  lemma {:induction false} RunDownInverts(s: Boxes, keys: seq<bv32>, n: nat, x: Pair)
    requires |keys| == 32 && n <= 16
    ensures RunDown(s, keys, n, Run128(s, keys, n, x)) == x
  {
    if n > 0 {
      hide Round;
      RoundTwice(s, keys, n - 1, Run128(s, keys, n - 1, x));
      RunDownInverts(s, keys, n - 1, x);
    }
  }

  /** Decryption undoes encryption, with twelve rounds and with sixteen. */
  method DecryptEncrypted128(cipher: Cast128, block: Pair) returns (out: Pair)
    requires cipher.Valid()
    ensures out == block
  {
    out := cipher.Encrypt(block);
    out := cipher.Decrypt(out);
    RunDownInverts(cipher.s, cipher.k, RoundCount(cipher.reduced), block);
  }
}
