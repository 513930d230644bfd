/** Cutting a byte string into blocks, and chaining a block cipher over them. */
module BlockChaining {
  import opened BitStrings
  import opened Sequences
  import opened Octets

  /** `BlockTransformation`: the encryption direction of a keyed block cipher. */
  datatype BlockCipher = BlockCipher(size: nat, encrypt: seq<byte> -> seq<byte>)

  ghost predicate IsBlockCipher(c: BlockCipher) {
    c.size > 0 && forall b :: |b| == c.size ==> |c.encrypt(b)| == c.size
  }

  /** The whole blocks at the start of s. */
  function Whole(size: nat, s: seq<byte>): (blocks: seq<seq<byte>>)
    requires size > 0
    ensures forall k :: 0 <= k < |blocks| ==> |blocks[k]| == size
  {
    if |s| < size then [] else [s[..size]] + Whole(size, s[size..])
  }

  /** What is left after the whole blocks. */
  function Rest(size: nat, s: seq<byte>): (rest: seq<byte>)
    requires size > 0
    ensures |rest| < size && |rest| <= |s| && rest == s[|s| - |rest|..]
  {
    if |s| < size then s else Rest(size, s[size..])
  }

  /** All of s in blocks, the last one filled up with zeros. */
  function PaddedBlocks(size: nat, s: seq<byte>): (blocks: seq<seq<byte>>)
    requires size > 0
    ensures forall k :: 0 <= k < |blocks| ==> |blocks[k]| == size
  {
    if |s| == 0 then []
    else if |s| <= size then [s + ZeroBytes(size - |s|)]
    else [s[..size]] + PaddedBlocks(size, s[size..])
  }

  lemma {:induction false} WholeAppend(size: nat, s: seq<byte>, t: seq<byte>)
    requires size > 0
    ensures Whole(size, s + t) == Whole(size, s) + Whole(size, Rest(size, s) + t)
    ensures Rest(size, s + t) == Rest(size, Rest(size, s) + t)
  {
    if |s| >= size {
      assert (s + t)[..size] == s[..size];
      assert (s + t)[size..] == s[size..] + t;
      WholeAppend(size, s[size..], t);
    }
  }

  lemma WholeBlock(size: nat, s: seq<byte>)
    requires size > 0 && |s| == size
    ensures Whole(size, s) == [s] && Rest(size, s) == []
  {
    assert s[..size] == s && s[size..] == [];
  }

  lemma WholeShort(size: nat, s: seq<byte>)
    requires |s| < size
    ensures Whole(size, s) == [] && Rest(size, s) == s
  {
  }

  /** A full buffer is one block; the rest follows. */
  lemma WholeStep(size: nat, s: seq<byte>, t: seq<byte>)
    requires size > 0 && |s| == size
    ensures Whole(size, s + t) == [s] + Whole(size, t) && Rest(size, s + t) == Rest(size, t)
  {
    assert (s + t)[..size] == s && (s + t)[size..] == t;
  }

  function PaddedRest(size: nat, rest: seq<byte>): seq<seq<byte>>
    requires |rest| < size
  {
    if rest == [] then [] else [rest + ZeroBytes(size - |rest|)]
  }

  /** Padding concerns the rest only. */
  lemma {:induction false} PaddingOfRest(size: nat, s: seq<byte>)
    requires size > 0
    ensures PaddedBlocks(size, s) == Whole(size, s) + PaddedRest(size, Rest(size, s))
  {
    hide PaddedRest, PaddedBlocks, Whole, Rest;
    if |s| > size {
      PaddingOfRest(size, s[size..]);
      PaddedLong(size, s);
      AppendAssociates([s[..size]], Whole(size, s[size..]), PaddedRest(size, Rest(size, s)));
    } else if |s| == size {
      PaddedFull(size, s);
    } else {
      PaddedShort(size, s);
      WholeShort(size, s);
    }
  }

  /** The padded blocks are the string and less than a block of zeros. */
  lemma {:induction false} PaddedContents(size: nat, s: seq<byte>) returns (zeros: nat)
    requires size > 0
    ensures zeros < size && Flatten(PaddedBlocks(size, s)) == s + ZeroBytes(zeros)
  {
    hide PaddedBlocks, Flatten, ZeroBytes;
    if |s| == 0 {
      zeros := 0;
      NoPadding(size);
      assert s + ZeroBytes(0) == [];
    } else if |s| <= size {
      zeros := size - |s|;
      PaddedAtMost(size, s);
      FlattenOne(s + ZeroBytes(size - |s|));
    } else {
      zeros := PaddedContents(size, s[size..]);
      PaddedLong(size, s);
      FlattenFirst(s[..size], PaddedBlocks(size, s[size..]));
      CutAndJoin(s, size, ZeroBytes(zeros));
    }
  }

  lemma CutAndJoin(s: seq<byte>, n: nat, t: seq<byte>)
    requires n <= |s|
    ensures s[..n] + (s[n..] + t) == s + t
  {
  }

  lemma NoPadding(size: nat)
    requires size > 0
    ensures PaddedBlocks(size, []) == [] && Flatten([]) == []
  {
  }

  lemma PaddedAtMost(size: nat, s: seq<byte>)
    requires 0 < |s| <= size
    ensures PaddedBlocks(size, s) == [s + ZeroBytes(size - |s|)]
  {
  }

  lemma PaddedLong(size: nat, s: seq<byte>)
    requires 0 < size < |s|
    ensures PaddedBlocks(size, s) == [s[..size]] + PaddedBlocks(size, s[size..])
    ensures Whole(size, s) == [s[..size]] + Whole(size, s[size..]) && Rest(size, s) == Rest(size, s[size..])
  {
  }

  lemma PaddedFull(size: nat, s: seq<byte>)
    requires 0 < size == |s|
    ensures PaddedBlocks(size, s) == Whole(size, s) + PaddedRest(size, Rest(size, s))
  {
    WholeBlock(size, s);
    assert s + ZeroBytes(0) == s;
    NoRest(size);
    assert [s] + [] == [s];
  }

  lemma PaddedShort(size: nat, s: seq<byte>)
    requires |s| < size
    ensures PaddedBlocks(size, s) == [] + PaddedRest(size, s)
  {
  }

  lemma NoRest(size: nat)
    requires size > 0
    ensures PaddedRest(size, []) == []
  {
  }

  /** The chaining value after the blocks, starting from x. */
  function Chain(c: BlockCipher, x: seq<byte>, blocks: seq<seq<byte>>): (y: seq<byte>)
    requires IsBlockCipher(c) && |x| == c.size && forall k :: 0 <= k < |blocks| ==> |blocks[k]| == c.size
    ensures |y| == c.size
  {
    if |blocks| == 0 then x
    else c.encrypt(Xor(blocks[|blocks| - 1], Chain(c, x, blocks[..|blocks| - 1])))
  }

  lemma {:induction false} ChainAppend(c: BlockCipher, x: seq<byte>, a: seq<seq<byte>>, b: seq<seq<byte>>)
    requires IsBlockCipher(c) && |x| == c.size
    requires forall k :: 0 <= k < |a| ==> |a[k]| == c.size
    requires forall k :: 0 <= k < |b| ==> |b[k]| == c.size
    ensures forall k :: 0 <= k < |a + b| ==> |(a + b)[k]| == c.size
    ensures Chain(c, x, a + b) == Chain(c, Chain(c, x, a), b)
  {
    if |b| == 0 {
      assert a + b == a;
    } else {
      ChainAppend(c, x, a, b[..|b| - 1]);
      assert (a + b)[..|a + b| - 1] == a + b[..|b| - 1];
    }
  }

  /** Chaining one block. */
  lemma ChainOne(c: BlockCipher, x: seq<byte>, block: seq<byte>)
    requires IsBlockCipher(c) && |x| == c.size && |block| == c.size
    ensures Chain(c, x, [block]) == c.encrypt(Xor(block, x))
  {
    assert [block][..0] == [];
    assert Chain(c, x, []) == x;
  }

  // A last block that is held back even when it is complete

  /** The blocks before the last one, which is not empty unless s is. */
  function BeforeLast(size: nat, s: seq<byte>): (blocks: seq<seq<byte>>)
    requires size > 0
    ensures forall k :: 0 <= k < |blocks| ==> |blocks[k]| == size
  {
    if |s| <= size then [] else [s[..size]] + BeforeLast(size, s[size..])
  }

  function Last(size: nat, s: seq<byte>): (last: seq<byte>)
    requires size > 0
    ensures |last| <= size && (|s| > 0 ==> |last| > 0)
  {
    if |s| <= size then s else Last(size, s[size..])
  }

  lemma {:induction false} LastAppend(size: nat, s: seq<byte>, t: seq<byte>)
    requires size > 0
    ensures BeforeLast(size, s + t) == BeforeLast(size, s) + BeforeLast(size, Last(size, s) + t)
    ensures Last(size, s + t) == Last(size, Last(size, s) + t)
  {
    if |s| > size {
      assert (s + t)[..size] == s[..size];
      assert (s + t)[size..] == s[size..] + t;
      LastAppend(size, s[size..], t);
    }
  }

  /** More input makes a complete block the first of several. */
  lemma LastStep(size: nat, block: seq<byte>, t: seq<byte>)
    requires size > 0 && |block| == size && |t| > 0
    ensures BeforeLast(size, block + t) == [block] + BeforeLast(size, t) && Last(size, block + t) == Last(size, t)
  {
    assert (block + t)[..size] == block && (block + t)[size..] == t;
  }

  lemma LastShort(size: nat, s: seq<byte>)
    requires size > 0 && |s| <= size
    ensures BeforeLast(size, s) == [] && Last(size, s) == s
  {
  }

  /** Chaining over a first block, then over the others. */
  lemma ChainFirst(c: BlockCipher, x: seq<byte>, block: seq<byte>, blocks: seq<seq<byte>>)
    requires IsBlockCipher(c) && |x| == c.size && |block| == c.size
    requires forall k :: 0 <= k < |blocks| ==> |blocks[k]| == c.size
    ensures forall k :: 0 <= k < |[block] + blocks| ==> |([block] + blocks)[k]| == c.size
    ensures Chain(c, x, [block] + blocks) == Chain(c, c.encrypt(Xor(block, x)), blocks)
  {
    hide Chain, Xor;
    ChainAppend(c, x, [block], blocks);
    ChainOne(c, x, block);
  }

  /** Chaining over one more block at the end. */
  lemma ChainNext(c: BlockCipher, x: seq<byte>, done: seq<seq<byte>>, block: seq<byte>)
    requires IsBlockCipher(c) && |x| == c.size && |block| == c.size
    requires forall k :: 0 <= k < |done| ==> |done[k]| == c.size
    ensures Chain(c, x, done + [block]) == c.encrypt(Xor(block, Chain(c, x, done)))
  {
    assert (done + [block])[..|done|] == done;
  }

  lemma ChainNone(c: BlockCipher, x: seq<byte>)
    requires IsBlockCipher(c) && |x| == c.size
    ensures Chain(c, x, []) == x
  {
  }
}
