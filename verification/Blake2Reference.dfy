/** The block loop of section 3.3 of RFC 7693 on a whole input, by positions, and that the definition which suits a
    stream comes to the same. */
module Blake2Reference {
  import opened Arithmetic
  import opened BitStrings
  import opened Octets
  import opened BlockChaining
  import opened Blake2

  /** How many blocks come before the last one, which is there even if the input is empty. */
  function FullBlocks(size: nat, n: nat): (k: nat)
    requires size > 0
    ensures k * size <= n <= (k + 1) * size && (n > 0 ==> k * size < n)
  {
    if n == 0 then 0
    else
      QuotientOf(n - 1, size);
      MulDistributes((n - 1) / size, 1, size);
      (n - 1) / size
  }

  /** The state after i blocks that are not the last one: each goes in with the number of bytes up to its end, in two
      words of the counter, and without flags. */
  function StateAfter(p: Params, s: seq<byte>, i: nat): Words
    requires p.word > 0 && p.blockSize > 0 && i * p.blockSize <= |s|
  {
    if i == 0 then p.start
    else
      var n := i * p.blockSize;
      MulDistributes(i - 1, 1, p.blockSize);
      p.compress(StateAfter(p, s, i - 1), s[n - p.blockSize..n], n % p.word, (n / p.word) % p.word, 0, 0)
  }

  /** The last block, filled up with zeros, goes in with the number of all bytes, and with all bits of the first flag
      set, and of the second too in tree mode. */
  function Reference(p: Params, s: seq<byte>): Words
    requires p.word > 0 && p.blockSize > 0
  {
    var k := FullBlocks(p.blockSize, |s|);
    var last := s[k * p.blockSize..];
    MulDistributes(k, 1, p.blockSize);
    p.compress(StateAfter(p, s, k), last + ZeroBytes(p.blockSize - |last|), |s| % p.word, (|s| / p.word) % p.word,
               p.word - 1, if p.treeMode then p.word - 1 else 0)
  }

  lemma {:induction false} CutByPosition(size: nat, s: seq<byte>)
    requires size > 0
    ensures |BeforeLast(size, s)| == FullBlocks(size, |s|) && Last(size, s) == s[FullBlocks(size, |s|) * size..]
  {
    hide BeforeLast, Last, FullBlocks;
    if |s| <= size {
      LastShort(size, s);
      FewBytes(size, |s|);
      assert s[0..] == s;
    } else {
      assert s == s[..size] + s[size..];
      LastStep(size, s[..size], s[size..]);
      CutByPosition(size, s[size..]);
      OneBlockMore(size, |s|);
      var k := FullBlocks(size, |s| - size);
      MulDistributes(k, 1, size);
      assert s[size..][k * size..] == s[(k + 1) * size..];
    }
  }

  lemma FewBytes(size: nat, n: nat)
    requires n <= size && size > 0
    ensures FullBlocks(size, n) == 0
  {
    if n > 0 {
      DivModUnique(n - 1, size, 0, n - 1);
    }
  }

  lemma OneBlockMore(size: nat, n: nat)
    requires 0 < size < n
    ensures FullBlocks(size, n) == FullBlocks(size, n - size) + 1
  {
    AddMultiple(n - 1 - size, 1, size);
  }

  lemma {:induction false} BlockByPosition(size: nat, s: seq<byte>, i: nat)
    requires size > 0 && i < |BeforeLast(size, s)|
    ensures i * size >= 0 && (i + 1) * size <= |s| && BeforeLast(size, s)[i] == s[i * size..(i + 1) * size]
  {
    MulDistributes(i, 1, size);
    if i > 0 {
      BlockByPosition(size, s[size..], i - 1);
      MulDistributes(i - 1, 1, size);
      SliceOfRest(s, size, (i - 1) * size, i * size);
    }
  }

  lemma SliceOfRest(s: seq<byte>, a: nat, b: nat, c: nat)
    requires a <= |s| && b <= c && a + c <= |s|
    ensures s[a..][b..c] == s[a + b..a + c]
  {
  }

  lemma {:induction false} StatesAgree(p: Params, s: seq<byte>, i: nat)
    requires IsParams(p) && i <= |BeforeLast(p.blockSize, s)|
    ensures i * p.blockSize <= |s| && CompressBlocks(p, BeforeLast(p.blockSize, s)[..i]) == StateAfter(p, s, i)
  {
    hide BeforeLast;
    BlockFits(p);
    if i > 0 {
      var blocks := BeforeLast(p.blockSize, s);
      StatesAgree(p, s, i - 1);
      BlockByPosition(p.blockSize, s, i - 1);
      MulDistributes(i - 1, 1, p.blockSize);
      assert blocks[..i][..i - 1] == blocks[..i - 1];
    }
  }

  /** The state of a whole input is that of the standard's loop. */
  lemma FinalStateIsReference(p: Params, s: seq<byte>)
    requires IsParams(p)
    ensures p.word > 0 && p.blockSize > 0 && FinalState(p, s) == Reference(p, s)
  {
    hide BeforeLast, Last, CompressBlocks, StateAfter, FullBlocks;
    BlockFits(p);
    CutByPosition(p.blockSize, s);
    var blocks := BeforeLast(p.blockSize, s);
    StatesAgree(p, s, |blocks|);
    assert blocks[..|blocks|] == blocks;
  }

  /** A message without key is hashed as it is; with a key, one block that starts with the key comes first. */
  lemma HashIsReference(p: Params, message: seq<byte>)
    requires IsParams(p)
    ensures p.word > 0 && p.blockSize > 0
    ensures p.key == [] ==> Hash(p, message) == p.digest(Reference(p, message))
    ensures p.key != [] ==>
              Hash(p, message) == p.digest(Reference(p, p.key + ZeroBytes(p.blockSize - |p.key|) + message))
  {
    hide FinalState, Reference;
    FinalStateIsReference(p, KeyBlock(p) + message);
    assert [] + message == message;
  }
}
