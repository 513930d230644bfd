/** `BLAKE2_Base`, around its compression function. */
module Blake2 {
  import opened Arithmetic
  import opened BitStrings
  import opened Sequences
  import opened Octets
  import opened BlockChaining

  /** The chaining words. */
  type Words = seq<nat>

  /** What one instance computes with: words modulo `word`, the state that the parameter block gives, the compression
      function on state, block, two counter words and two flag words, and how a state is written out. */
  datatype Params = Params(
    blockSize: nat, word: nat, start: Words, compress: (Words, seq<byte>, nat, nat, nat, nat) -> Words,
    digest: Words -> seq<byte>,
    digestSize: nat, treeMode: bool, key: seq<byte>)

  ghost predicate IsParams(p: Params) {
    && 0 < p.blockSize < p.word && |p.key| <= p.blockSize
    && forall h: Words :: |p.digest(h)| >= p.digestSize
  }

  // The block loop of section 3.3 of RFC 7693

  /** F, with the two words of the counter t, and the flags of the last block. */
  function Compress(p: Params, h: Words, block: seq<byte>, t: nat, last: bool): Words
    requires p.word > 0
  {
    p.compress(h, block, t % p.word, (t / p.word) % p.word, if last then p.word - 1 else 0,
               if last && p.treeMode then p.word - 1 else 0)
  }

  function CompressBlocks(p: Params, blocks: seq<seq<byte>>): Words
    requires p.word > 0
  {
    if |blocks| == 0 then p.start
    else Compress(p, CompressBlocks(p, blocks[..|blocks| - 1]), blocks[|blocks| - 1], |blocks| * p.blockSize, false)
  }

  /** The state after a whole input: the last block, filled up with zeros, counts the input and carries the flag. */
  function FinalState(p: Params, s: seq<byte>): Words
    requires IsParams(p)
  {
    var last := Last(p.blockSize, s);
    Compress(p, CompressBlocks(p, BeforeLast(p.blockSize, s)), last + ZeroBytes(p.blockSize - |last|), |s|, true)
  }

  /** The key, filled up to a block, comes before the message. */
  function KeyBlock(p: Params): (s: seq<byte>)
    requires |p.key| <= p.blockSize
  {
    if p.key == [] then [] else p.key + ZeroBytes(p.blockSize - |p.key|)
  }

  function Hash(p: Params, message: seq<byte>): (s: seq<byte>)
    requires IsParams(p)
    ensures |s| >= p.digestSize
  {
    p.digest(FinalState(p, KeyBlock(p) + message))
  }

  // The counter

  /** Two words hold t modulo the square of the word size. */
  ghost predicate Counts(word: nat, t0: nat, t1: nat, t: nat)
    requires word > 0
  {
    t0 == t % word && t1 == (t / word) % word
  }

  /** Adding to the low word, with a carry when the sum is smaller than what was added. */
  lemma CountMore(word: nat, t0: nat, t1: nat, t: nat, count: nat)
    requires count < word && Counts(word, t0, t1, t)
    ensures var s0 := (t0 + count) % word;
            Counts(word, s0, (t1 + (if s0 < count then 1 else 0)) % word, t + count)
  {
    var q := t / word;
    QuotientOf(t, word);
    if t0 + count < word {
      DivModUnique(t0 + count, word, 0, t0 + count);
      DivModUnique(t + count, word, q, t0 + count);
      SameRemainder(q, word, 0);
    } else {
      DivModUnique(t0 + count, word, 1, t0 + count - word);
      MulDistributes(q, 1, word);
      DivModUnique(t + count, word, q + 1, t0 + count - word);
      SameRemainder(q, word, 1);
    }
  }

  lemma SameRemainder(q: nat, word: nat, c: nat)
    requires word > 0
    ensures (q % word + c) % word == (q + c) % word
  {
    QuotientOf(q, word);
    AddMultiple(q % word + c, q / word, word);
  }

  lemma {:induction false} BeforeLastLength(size: nat, s: seq<byte>)
    requires size > 0
    ensures |s| == |BeforeLast(size, s)| * size + |Last(size, s)|
  {
    if |s| > size {
      BeforeLastLength(size, s[size..]);
      MulDistributes(|BeforeLast(size, s[size..])|, 1, size);
    }
  }

  class Blake2Base {
    const p: Params
    const buffer: array<byte>
    var h: Words
    var t0: nat
    var t1: nat
    var f0: nat
    var f1: nat
    var length: nat

    // The key block and the message so far, and the blocks that have been compressed.
    ghost var input: seq<byte>
    ghost var done: seq<seq<byte>>

    /** The blocks done have been compressed and counted; the buffer holds what follows them. */
    ghost predicate Core()
      reads this
    {
      && IsParams(p) && buffer.Length == p.blockSize && length <= p.blockSize && f0 == f1 == 0
      && h == CompressBlocks(p, done) && Counts(p.word, t0, t1, |done| * p.blockSize)
    }

    ghost predicate Valid()
      reads this, buffer
    {
      && Core() && done == BeforeLast(p.blockSize, input) && buffer[..length] == Last(p.blockSize, input)
    }

    method IncrementCounter(count: nat, ghost t: nat)
      requires count < p.word && Counts(p.word, t0, t1, t)
      modifies `t0, `t1
      ensures Counts(p.word, t0, t1, t + count)
    {
      CountMore(p.word, t0, t1, t, count);
      t0 := (t0 + count) % p.word;
      t1 := (t1 + (if t0 < count then 1 else 0)) % p.word;
    }

    /** Counts and compresses a block that is not the last one. */
    method CompressNext(block: seq<byte>)
      requires Core() && |block| == p.blockSize
      modifies `h, `t0, `t1, `done
      ensures Core() && done == old(done) + [block]
    {
      hide Counts, IsParams;
      ghost var n := |done|;
      assert 0 < p.blockSize < p.word by { BlockFits(p); }
      IncrementCounter(p.blockSize, n * p.blockSize);
      MulDistributes(n, 1, p.blockSize);
      assert Counts(p.word, t0, t1, (n + 1) * p.blockSize);
      CountWords(p.word, t0, t1, (n + 1) * p.blockSize);
      h := p.compress(h, block, t0, t1, f0, f1);
      ghost var more := done + [block];
      assert more[..|more| - 1] == done;
      done := more;
    }

    /** Copies into the buffer. */
    method Fill(s: seq<byte>)
      requires length + |s| <= buffer.Length
      modifies buffer
      ensures buffer[..length + |s|] == old(buffer[..length]) + s
    {
      forall i | 0 <= i < |s| {
        buffer[length + i] := s[i];
      }
    }

    /** Fills up the block that is held and compresses it, and more of the input. */
    method CompressHeld(piece: seq<byte>) returns (rest: seq<byte>)
      requires Core() && length + |piece| > p.blockSize
      modifies `h, `t0, `t1, `length, `done, buffer
      ensures Core() && length == 0
      ensures var s := old(buffer[..length]) + piece;
              done == old(done) + BeforeLast(p.blockSize, s) && rest == Last(p.blockSize, s)
    {
      hide Counts, IsParams, CompressBlocks, BeforeLast, Last;
      BlockFits(p);
      ghost var held := buffer[..length];
      var fill := p.blockSize - length;
      Fill(piece[..fill]);
      ghost var block := held + piece[..fill];
      assert buffer[..] == buffer[..length + fill] == block;
      assert held + piece == block + piece[fill..];
      LastStep(p.blockSize, block, piece[fill..]);
      CompressNext(buffer[..]);
      length := 0;
      rest := CompressInput(piece[fill..]);
      AppendAssociates(old(done), [block], BeforeLast(p.blockSize, piece[fill..]));
    }

    /** Takes in a piece of the message. */
    method Update(piece: seq<byte>)
      requires Valid()
      modifies `h, `t0, `t1, `length, `input, `done, buffer
      ensures Valid() && input == old(input) + piece
    {
      hide Counts, IsParams, CompressBlocks, BeforeLast, Last;
      BlockFits(p);
      ghost var held := buffer[..length];
      LastAppend(p.blockSize, input, piece);
      var rest := piece;
      if length + |piece| > p.blockSize {
        rest := CompressHeld(piece);
        LastShort(p.blockSize, rest);
        assert buffer[..0] == [] && [] + rest == rest;
      } else {
        LastShort(p.blockSize, held + piece);
        assert done + [] == done;
      }
      Fill(rest);
      length := length + |rest|;
      input := input + piece;
    }

    /** Compresses blocks of the input as long as more input follows them. */
    method CompressInput(s: seq<byte>) returns (rest: seq<byte>)
      requires Core() && |s| > 0
      modifies `h, `t0, `t1, `done
      ensures Core() && done == old(done) + BeforeLast(p.blockSize, s) && rest == Last(p.blockSize, s)
    {
      hide Counts, IsParams, CompressBlocks, BeforeLast, Last;
      BlockFits(p);
      rest := s;
      while |rest| > p.blockSize
        invariant Core() && |rest| > 0
        invariant old(done) + BeforeLast(p.blockSize, s) == done + BeforeLast(p.blockSize, rest)
        invariant Last(p.blockSize, s) == Last(p.blockSize, rest)
        decreases |rest|
      {
        ghost var block, before := rest[..p.blockSize], done;
        assert rest == block + rest[p.blockSize..];
        LastStep(p.blockSize, block, rest[p.blockSize..]);
        CompressNext(rest[..p.blockSize]);
        rest := rest[p.blockSize..];
        AppendAssociates(before, [block], BeforeLast(p.blockSize, rest));
      }
      LastShort(p.blockSize, rest);
      assert done + [] == done;
    }

    /** Starts a message, with the key block if there is a key. */
    method Restart()
      requires IsParams(p) && buffer.Length == p.blockSize
      modifies this, buffer
      ensures Valid() && input == KeyBlock(p)
    {
      t0, t1, f0, f1, length, h := 0, 0, 0, 0, 0, p.start;
      input, done := [], [];
      assert buffer[..0] == [];
      CountNothing(p.word, p.blockSize);
      if p.key != [] {
        Update(p.key + ZeroBytes(p.blockSize - |p.key|));
        assert [] + KeyBlock(p) == KeyBlock(p);
      }
    }

    constructor (p: Params)
      requires IsParams(p)
      ensures Valid() && input == KeyBlock(p) && this.p == p && fresh(buffer)
    {
      this.p := p;
      buffer := new byte[p.blockSize](i => 0);
      t0, t1, f0, f1, length, h := 0, 0, 0, 0, 0, p.start;
      new;
      Restart();
    }

    /** Gives out the first bytes of the hash, unless more are asked for than there are, and starts again. */
    method TruncatedFinal(size: nat) returns (ok: bool, hash: seq<byte>)
      requires Valid()
      modifies this, buffer
      ensures Valid() && (ok <==> size <= p.digestSize)
      ensures ok ==>
                size <= |p.digest(FinalState(p, old(input)))|
                && hash == p.digest(FinalState(p, old(input)))[..size]
      ensures ok ==> input == KeyBlock(p)
      ensures !ok ==> input == old(input)
    {
      hide Counts, CompressBlocks, FinalState, BeforeLast, Last;
      if size > p.digestSize {
        return false, [];
      }
      CompressLast();
      hash := p.digest(h)[..size];
      Restart();
      ok := true;
    }

    /** Counts, flags and compresses the last block, filled up with zeros. */
    method CompressLast()
      requires Valid()
      modifies `h, `t0, `t1, `f0, `f1, buffer
      ensures h == FinalState(p, input)
    {
      hide Counts, CompressBlocks, BeforeLast, Last, IsParams;
      BlockFits(p);
      BeforeLastLength(p.blockSize, input);
      ghost var last := buffer[..length];
      ghost var t: nat := |done| * p.blockSize;
      assert Counts(p.word, t0, t1, t);
      f0 := p.word - 1;
      if p.treeMode {
        f1 := p.word - 1;
      }
      IncrementCounter(length, t);
      CountWords(p.word, t0, t1, |input|);
      forall i | length <= i < p.blockSize {
        buffer[i] := 0;
      }
      assert buffer[..] == last + ZeroBytes(p.blockSize - |last|);
      h := p.compress(h, buffer[..], t0, t1, f0, f1);
    }
  }

  lemma BlockFits(p: Params)
    requires IsParams(p)
    ensures 0 < p.blockSize < p.word
  {
  }

  lemma CountWords(word: nat, t0: nat, t1: nat, t: nat)
    requires word > 0 && Counts(word, t0, t1, t)
    ensures t0 == t % word && t1 == (t / word) % word
  {
  }

  lemma CountNothing(word: nat, size: nat)
    requires word > 0
    ensures Counts(word, 0, 0, 0 * size)
  {
    DivModUnique(0, word, 0, 0);
  }

  /** However the message is cut into pieces, the hash is that of the whole message. */
  method HashOfPieces(o: Blake2Base, pieces: seq<seq<byte>>, size: nat) returns (hash: seq<byte>)
    requires o.Valid() && o.input == KeyBlock(o.p) && size <= o.p.digestSize
    modifies o, o.buffer
    ensures o.Valid() && o.input == KeyBlock(o.p) && size <= |Hash(o.p, Flatten(pieces))|
    ensures hash == Hash(o.p, Flatten(pieces))[..size]
  {
    hide FinalState, KeyBlock, BeforeLast, Last, CompressBlocks, Counts;
    assert KeyBlock(o.p) + [] == KeyBlock(o.p);
    for i := 0 to |pieces|
      invariant o.Valid() && o.input == KeyBlock(o.p) + Flatten(pieces[..i])
    {
      FlattenNext(pieces, i);
      o.Update(pieces[i]);
      assert (KeyBlock(o.p) + Flatten(pieces[..i])) + pieces[i] == KeyBlock(o.p) + (Flatten(pieces[..i]) + pieces[i]);
    }
    assert pieces[..|pieces|] == pieces;
    var ok;
    ok, hash := o.TruncatedFinal(size);
  }
}
