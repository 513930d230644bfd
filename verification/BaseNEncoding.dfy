/** `BaseN_Encoder`. */
module BaseNEncoding {
  import opened Arithmetic
  import opened BitStrings
  import opened BaseNDigits

  function Letters(alphabet: seq<byte>, digits: seq<nat>): (s: seq<byte>)
    requires forall k :: 0 <= k < |digits| ==> digits[k] < |alphabet|
    ensures |s| == |digits|
  {
    seq(|digits|, i requires 0 <= i < |digits| => alphabet[digits[i]])
  }

  function Repeat(b: byte, n: nat): (s: seq<byte>)
    ensures |s| == n
  {
    seq(n, _ => b)
  }

  ghost predicate AllDigits(digits: seq<nat>, n: nat) {
    forall k :: 0 <= k < |digits| ==> digits[k] < Pow2(n)
  }

  lemma DigitsInRange(bits: seq<bool>, n: nat)
    requires n > 0
    ensures AllDigits(Digits(bits, n), n)
  {
    var extra := DigitsCarry(bits, n);
  }

  ghost predicate WholeBlocks(count: nat, size: nat)
    requires size > 0
  {
    count % size == 0
  }

  /** The padding that fills the last block, if there is a padding byte. */
  function Padding(padding: int, count: nat, blockSize: nat): seq<byte>
    requires blockSize > 0 && -1 <= padding < 256
  {
    if padding == -1 then [] else Repeat(padding, (blockSize - count % blockSize) % blockSize)
  }

  /** The encoding of a message: its digits as letters, then padding. */
  function Encode(alphabet: seq<byte>, padding: int, n: nat, blockSize: nat, message: seq<byte>): seq<byte>
    requires n > 0 && |alphabet| == Pow2(n) && blockSize > 0 && -1 <= padding < 256
  {
    var digits := Digits(Concat(message, 8), n);
    DigitsInRange(Concat(message, 8), n);
    Letters(alphabet, digits) + Padding(padding, |digits|, blockSize)
  }

  /** out is letters for digits that carry the bits of the message and less than a digit of zeros; with a padding
      byte, it goes on with less than a block of it, up to a whole number of blocks. */
  ghost predicate IsPaddedText(alphabet: seq<byte>, padding: int, n: nat, blockSize: nat, message: seq<byte>,
                               out: seq<byte>) {
    n > 0 && blockSize > 0
    && var digits := Digits(Concat(message, 8), n);
       var d := |digits|;
       && 8 * |message| <= d * n < 8 * |message| + n
       && (forall k :: 0 <= k < d ==> digits[k] < |alphabet|)
       && d <= |out| < d + blockSize
       && (forall k :: 0 <= k < d ==> out[k] == alphabet[digits[k]])
       && (forall k :: d <= k < |out| ==> out[k] as int == padding)
       && (if padding == -1 then |out| == d else |out| % blockSize == 0)
  }

  lemma EncodeIsPadded(alphabet: seq<byte>, padding: int, n: nat, blockSize: nat, message: seq<byte>)
    requires n > 0 && |alphabet| == Pow2(n) && blockSize > 0 && -1 <= padding < 256
    ensures IsPaddedText(alphabet, padding, n, blockSize, message, Encode(alphabet, padding, n, blockSize, message))
  {
    hide Digits, Concat, Pow2;
    var digits := Digits(Concat(message, 8), n);
    var extra := DigitsCarry(Concat(message, 8), n);
    DigitCount(digits, Concat(message, 8), n, extra);
    ConcatLength(message, 8);
    DigitsInRange(Concat(message, 8), n);
    FillUp(|digits|, blockSize);
  }

  lemma DigitCount(digits: seq<nat>, bits: seq<bool>, n: nat, extra: nat)
    requires AreDigits(digits, bits, n, extra)
    ensures |bits| <= |digits| * n < |bits| + n
  {
    ConcatLength(digits, n);
  }

  lemma FillUp(d: nat, size: nat)
    requires size > 0
    ensures var k := (size - d % size) % size; k < size && (d + k) % size == 0
  {
    QuotientOf(d, size);
    var q, r := d / size, d % size;
    if r > 0 {
      DivModUnique(size - r, size, 0, size - r);
      MulDistributes(q, 1, size);
      DivModUnique(d + (size - r), size, q + 1, 0);
    } else {
      DivModUnique(size, size, 1, 0);
    }
  }

  /** `IsolatedInitialize`, which throws for a base that is not 2 to the 1, ..., 7. */
  method InitializeEncoder(alphabet: seq<byte>, log2Base: int, padding: int) returns (encoder: BaseNEncoder?)
    requires (1 <= log2Base <= 7 ==> |alphabet| == Pow2(log2Base)) && -1 <= padding < 256
    ensures encoder == null <==> log2Base < 1 || log2Base > 7
    ensures encoder != null ==>
              && fresh(encoder) && encoder.Valid() && fresh(encoder.outBuf) && encoder.Message() == []
              && encoder.before == encoder.output == [] && encoder.alphabet == alphabet && encoder.padding == padding
              && encoder.bitsPerChar == log2Base
  {
    if log2Base <= 0 || log2Base >= 8 {
      return null;
    }
    encoder := new BaseNEncoder(alphabet, log2Base, padding);
  }

  class BaseNEncoder {
    const alphabet: seq<byte>
    const padding: int
    const bitsPerChar: nat
    const outputBlockSize: nat
    const outBuf: array<byte>
    var bytePos: nat
    var bitPos: nat
    var output: seq<byte>

    // The output before the current message, the message so far, and how it has been digested:
    // full blocks as digits, and the bytes of the block in the buffer.
    ghost var before: seq<byte>
    ghost var flushed: seq<byte>
    ghost var digits: seq<nat>
    ghost var inBlock: seq<byte>

    ghost predicate Configured()
      reads this
    {
      && 1 <= bitsPerChar <= 7 && |alphabet| == Pow2(bitsPerChar) && -1 <= padding < 256
      && outputBlockSize == BlockDigits(bitsPerChar) && IsBlock(bitsPerChar, outputBlockSize)
      && outBuf.Length == outputBlockSize
    }

    ghost predicate Valid()
      reads this, outBuf
    {
      && Configured()
      && bytePos < outputBlockSize && bitPos < bitsPerChar && (bytePos == 0 ==> bitPos == 0)
      && (bytePos > 0 ==> Clean(outBuf[..], bytePos, bitPos, bitsPerChar))
      && Filled(outBuf[..], bytePos, bitPos, bitsPerChar) == Concat(inBlock, 8)
      && Flushed()
    }

    ghost predicate Flushed()
      requires Configured()
      reads this
    {
      && AllDigits(digits, bitsPerChar) && WholeBlocks(|digits|, outputBlockSize)
      && Concat(digits, bitsPerChar) == Concat(flushed, 8)
      && output == before + Letters(alphabet, digits)
    }

    /** The bytes of the current message so far. */
    ghost function Message(): seq<byte>
      reads this
    {
      flushed + inBlock
    }

    constructor (alphabet: seq<byte>, log2Base: nat, padding: int)
      requires 1 <= log2Base <= 7 && |alphabet| == Pow2(log2Base) && -1 <= padding < 256
      ensures Valid() && fresh(outBuf) && Message() == [] && before == output == []
      ensures this.alphabet == alphabet && this.padding == padding && bitsPerChar == log2Base
    {
      this.alphabet, this.padding, bitsPerChar := alphabet, padding, log2Base;
      bytePos, bitPos, output := 0, 0, [];
      before, flushed, digits, inBlock := [], [], [], [];
      var i := 8;
      FirstBlock(log2Base);
      while i % log2Base != 0
        invariant 8 <= i <= log2Base * BlockDigits(log2Base) && i % 8 == 0
        decreases log2Base * BlockDigits(log2Base) - i
      {
        LeastBlock(log2Base, i);
        i := i + 8;
      }
      LeastBlock(log2Base, i);
      outputBlockSize := i / log2Base;
      outBuf := new byte[i / log2Base];
      new;
      BlockSize(log2Base, i);
      assert outBuf[..0] == [];
    }

    /** Writes the bits of one byte into the buffer. */
    method EncodeByte(b0: byte)
      requires Valid() && (bytePos == 0 ==> Clean(outBuf[..], 0, 0, bitsPerChar))
      modifies `bytePos, `bitPos, `inBlock, outBuf
      ensures Configured() && inBlock == old(inBlock) + [b0]
      ensures bytePos <= outputBlockSize && bitPos < bitsPerChar
      ensures (bytePos == outputBlockSize ==> bitPos == 0) && bytePos > 0
      ensures Clean(outBuf[..], bytePos, bitPos, bitsPerChar)
      ensures Filled(outBuf[..], bytePos, bitPos, bitsPerChar) == Concat(inBlock, 8)
    {
      hide Clean, Filled, Aligned, Pow2, Shr, Or, ToBits, Concat, ShlByte, IsBlock, AllDigits, Letters, WholeBlocks;
      var b: byte, left: nat := b0, 8;
      ghost var start := Filled(outBuf[..], bytePos, bitPos, bitsPerChar);
      WholeByte(b0);
      assert start + ToBits(Shr(b, 0), 8) == Concat(inBlock + [b0], 8) by { AppendByte(inBlock, b0); }
      while true
        invariant bytePos < outputBlockSize && bitPos < bitsPerChar && 0 < left <= 8 && Configured()
        invariant inBlock == old(inBlock)
        invariant bytePos == 0 ==> left == 8 && bitPos == 0
        invariant Clean(outBuf[..], bytePos, bitPos, bitsPerChar) && Aligned(b, left, 8)
        invariant Filled(outBuf[..], bytePos, bitPos, bitsPerChar) + ToBits(Shr(b, 8 - left), left)
                  == Concat(inBlock + [b0], 8)
        decreases left
      {
        var bitsLeftInTarget := bitsPerChar - bitPos;
        ghost var buf := outBuf[..];
        ghost var x := Or(buf[bytePos], Shr(b, 8 - bitsLeftInTarget));
        if left >= bitsLeftInTarget {
          FullStep(buf, bytePos, bitPos, bitsPerChar, b, left, x);
          outBuf[bytePos] := Or(outBuf[bytePos], Shr(b, 8 - bitsLeftInTarget));
          assert outBuf[..] == buf[bytePos := x];
          bitPos := 0;
          bytePos := bytePos + 1;
          left := left - bitsLeftInTarget;
          if left == 0 {
            NothingLeft(ShlByte(b, bitsLeftInTarget), Filled(outBuf[..], bytePos, 0, bitsPerChar));
            break;
          }
          BlockNotFull(outBuf[..], bytePos, bitsPerChar, inBlock + [b0], left,
                       ToBits(Shr(ShlByte(b, bitsLeftInTarget), 8 - left), left));
          b := ShlByte(b, bitsLeftInTarget);
        } else {
          PartialStep(buf, bytePos, bitPos, bitsPerChar, b, left, x);
          outBuf[bytePos] := Or(outBuf[bytePos], Shr(b, 8 - bitsLeftInTarget));
          assert outBuf[..] == buf[bytePos := x];
          bitPos := bitPos + left;
          break;
        }
      }
      inBlock := inBlock + [b0];
    }

    /** Letters for the digits in the first n cells. */
    method MapToLetters(n: nat)
      requires Configured() && n <= outBuf.Length && AllDigits(outBuf[..n], bitsPerChar)
      modifies outBuf
      ensures AllDigits(old(outBuf[..n]), bitsPerChar)
      ensures outBuf[..n] == Letters(alphabet, old(outBuf[..n]))
      ensures forall k :: n <= k < outBuf.Length ==> outBuf[k] == old(outBuf[k])
    {
      hide IsBlock;
      ghost var digits := outBuf[..n];
      for i := 0 to n
        invariant forall k :: 0 <= k < i ==> outBuf[k] == alphabet[digits[k]]
        invariant forall k :: i <= k < outBuf.Length ==> outBuf[k] == old(outBuf[k])
      {
        assert outBuf[i] == digits[i];
        outBuf[i] := alphabet[outBuf[i]];
      }
    }

    /** Puts out a full block. */
    method FlushBlock()
      requires Configured() && Flushed() && 0 < bytePos == outputBlockSize && bitPos == 0
      requires Clean(outBuf[..], bytePos, 0, bitsPerChar)
      requires Filled(outBuf[..], bytePos, 0, bitsPerChar) == Concat(inBlock, 8)
      modifies this, outBuf
      ensures Valid() && bytePos == 0 && before == old(before)
      ensures Message() == old(Message()) && Extends(output, old(output))
    {
      hide Clean, Filled, Concat, AllDigits, Letters, IsBlock;
      ghost var block := outBuf[..];
      FullCells(block, bitsPerChar);
      assert outBuf[..bytePos] == block;
      MapToLetters(bytePos);
      assert outBuf[..bytePos] == outBuf[..];
      output := output + outBuf[..];
      bytePos, bitPos := 0, 0;

      LettersAppend(alphabet, digits, block, bitsPerChar);
      assert output == before + Letters(alphabet, digits + block);
      ConcatAppend(digits, block, bitsPerChar);
      ConcatAppend(flushed, inBlock, 8);
      AddMultiple(|digits|, 1, outputBlockSize);
      digits, flushed, inBlock := digits + block, flushed + inBlock, [];
      FilledNothing(outBuf[..], bitsPerChar);
    }

    /** Turns the last, incomplete block into letters and padding. */
    method WriteLastBlock() returns (ghost cells: seq<nat>, ghost extra: nat)
      requires Valid()
      modifies outBuf, `bytePos
      ensures bytePos <= outBuf.Length && |cells| <= outBuf.Length && extra < bitsPerChar
              && AllDigits(cells, bitsPerChar)
      ensures Concat(cells, bitsPerChar) == Concat(inBlock, 8) + Zeros(extra)
      ensures outBuf[..bytePos] == Letters(alphabet, cells) + LastPadding(padding, |cells|, outputBlockSize)
    {
      hide Clean, Filled, Concat, AllDigits, Letters, IsBlock, ToBits;
      if bytePos > 0 {
        extra := LastCells(outBuf[..], bytePos, bitPos, bitsPerChar);
      } else {
        extra := 0;
        NoCells(bitsPerChar);
        FilledNothing(outBuf[..], bitsPerChar);
      }
      if bitPos > 0 {
        bytePos := bytePos + 1;
      }
      cells := outBuf[..bytePos];
      MapToLetters(bytePos);
      if padding != -1 && bytePos > 0 {
        ghost var last := outBuf[..bytePos];
        forall i | bytePos <= i < outputBlockSize {
          outBuf[i] := padding;
        }
        assert outBuf[..] == last + Repeat(padding, outputBlockSize - bytePos);
        bytePos := outputBlockSize;
        assert outBuf[..bytePos] == outBuf[..];
      }
    }

    /** Puts out the last block. */
    method FinishMessage()
      requires Valid()
      modifies this, outBuf
      ensures Valid() && Message() == [] && output == before && Extends(output, old(output))
      ensures output == old(before) + Encode(alphabet, padding, bitsPerChar, outputBlockSize, old(Message()))
    {
      hide Clean, Filled, Concat, AllDigits, Letters, IsBlock, Encode, LastPadding;
      ghost var cells, extra;
      cells, extra := WriteLastBlock();
      EncodeSplit(alphabet, padding, bitsPerChar, outputBlockSize, flushed, inBlock, digits, cells, extra);
      output := output + outBuf[..bytePos];
      bytePos, bitPos := 0, 0;
      before, digits, flushed, inBlock := output, [], [], [];
      FilledNothing(outBuf[..], bitsPerChar);
      NothingFlushed(alphabet, output, bitsPerChar);
    }

    /** Takes in a piece of the message, which may be its last. */
    method Put(begin: seq<byte>, messageEnd: bool)
      requires Valid()
      modifies this, outBuf
      ensures Valid()
      ensures !messageEnd ==> before == old(before) && Message() == old(Message()) + begin
      ensures messageEnd ==> Message() == [] && output == before
      ensures messageEnd ==>
                output == old(before) + Encode(alphabet, padding, bitsPerChar, outputBlockSize, old(Message()) + begin)
      ensures messageEnd ==>
                |old(before)| <= |output|
                && IsPaddedText(alphabet, padding, bitsPerChar, outputBlockSize, old(Message()) + begin,
                                output[|old(before)|..])
      ensures Extends(output, old(output))
    {
      hide Clean, Filled, Concat, AllDigits, Letters, IsBlock, Encode, IsPaddedText;
      var inputPosition := 0;
      while inputPosition < |begin|
        invariant inputPosition <= |begin| && Valid() && before == old(before)
        invariant Message() == old(Message()) + begin[..inputPosition] && Extends(output, old(output))
      {
        if bytePos == 0 {
          FilledNothing(outBuf[..], bitsPerChar);
          forall i | 0 <= i < outBuf.Length {
            outBuf[i] := 0;
          }
          ZeroBuffer(outBuf[..], bitsPerChar);
          FilledNothing(outBuf[..], bitsPerChar);
        }
        ghost var message := Message();
        EncodeByte(begin[inputPosition]);
        assert Message() == message + [begin[inputPosition]];
        assert begin[..inputPosition + 1] == begin[..inputPosition] + [begin[inputPosition]];
        inputPosition := inputPosition + 1;
        if bytePos == outputBlockSize {
          FlushBlock();
        }
      }
      assert begin[..|begin|] == begin;
      if messageEnd {
        FinishMessage();
        EncodeIsPadded(alphabet, padding, bitsPerChar, outputBlockSize, old(Message()) + begin);
      }
    }
  }

  lemma ZeroBuffer(buf: seq<byte>, n: nat)
    requires |buf| > 0 && forall i :: 0 <= i < |buf| ==> buf[i] == 0
    ensures Clean(buf, 0, 0, n)
  {
    ShrZero(n);
    assert Pow2(0) == 1;
  }

  lemma FilledNothing(buf: seq<byte>, n: nat)
    ensures Filled(buf, 0, 0, n) == [] == Concat([], 8)
  {
    assert buf[..0] == [];
  }

  /** What fills up a block after its letters. */
  function LastPadding(padding: int, letters: nat, size: nat): seq<byte>
    requires -1 <= padding < 256 && letters <= size
  {
    if padding != -1 && letters > 0 then Repeat(padding, size - letters) else []
  }

  lemma NothingFlushed(alphabet: seq<byte>, output: seq<byte>, n: nat)
    ensures Concat([], 8) == [] == Concat([], n) && AllDigits([], n)
    ensures output + Letters(alphabet, []) == output
  {
  }

  lemma FullCells(buf: seq<byte>, n: nat)
    requires Clean(buf, |buf|, 0, n)
    ensures AllDigits(buf, n) && Filled(buf, |buf|, 0, n) == Concat(buf, n)
  {
    assert buf[..|buf|] == buf;
    assert Concat(buf, n) + [] == Concat(buf, n);
  }

  lemma LettersAppend(alphabet: seq<byte>, s: seq<nat>, t: seq<nat>, n: nat)
    requires |alphabet| == Pow2(n) && AllDigits(s, n) && AllDigits(t, n)
    ensures AllDigits(s + t, n) && Letters(alphabet, s + t) == Letters(alphabet, s) + Letters(alphabet, t)
  {
  }

  lemma NoCells(n: nat)
    ensures AllDigits([], n) && Concat([], n) == [] && [] + Zeros(0) == []
  {
  }

  /** The cells of an incomplete block are digits that carry its bits and zeros. */
  lemma LastCells(buf: seq<byte>, bytePos: nat, bitPos: nat, n: nat) returns (extra: nat)
    requires bytePos < |buf| && bitPos < n <= 7 && Clean(buf, bytePos, bitPos, n)
    ensures var cells := buf[..if bitPos > 0 then bytePos + 1 else bytePos];
            extra < n && AllDigits(cells, n) && Concat(cells, n) == Filled(buf, bytePos, bitPos, n) + Zeros(extra)
  {
    if bitPos == 0 {
      extra := 0;
    } else {
      hide ToBits, Or;
      extra := n - bitPos;
      CellAligned(buf, bytePos, bitPos, n);
      AlignedBound(buf[bytePos], bitPos, n);
      AlignedBits(buf[bytePos], bitPos, n);
      assert buf[..bytePos + 1] == buf[..bytePos] + [buf[bytePos] as nat];
      ConcatAppend(buf[..bytePos], [buf[bytePos]], n);
      ConcatOne(buf[bytePos], n);
      FilledUnfold(buf, bytePos, bitPos, n);
    }
  }

  lemma AlignedBits(x: nat, bitPos: nat, n: nat)
    requires bitPos <= n && Aligned(x, bitPos, n)
    ensures ToBits(x, n) == ToBits(Shr(x, n - bitPos), bitPos) + Zeros(n - bitPos)
  {
    hide ToBits;
    SplitBits(x, bitPos, n - bitPos);
    LowBitsOnly(0, Shr(x, n - bitPos), n - bitPos);
    ZeroBits(n - bitPos);
  }

  /** Flushed blocks and the last cells together are the digits of the message. */
  lemma EncodeSplit(alphabet: seq<byte>, padding: int, n: nat, size: nat, flushed: seq<byte>, inBlock: seq<byte>,
                    digits: seq<nat>, cells: seq<nat>, extra: nat)
    requires 0 < n && |alphabet| == Pow2(n) && size > 0 && -1 <= padding < 256 && extra < n
    requires AllDigits(digits, n) && AllDigits(cells, n)
    requires WholeBlocks(|digits|, size) && |cells| <= size
    requires Concat(digits, n) == Concat(flushed, 8) && Concat(cells, n) == Concat(inBlock, 8) + Zeros(extra)
    ensures Encode(alphabet, padding, n, size, flushed + inBlock) ==
            Letters(alphabet, digits) + (Letters(alphabet, cells) + LastPadding(padding, |cells|, size))
  {
    hide *;
    JoinedDigits(n, flushed, inBlock, digits, cells, extra);
    EncodeJoined(alphabet, padding, n, size, flushed + inBlock, digits, cells);
  }

  lemma EncodeJoined(alphabet: seq<byte>, padding: int, n: nat, size: nat, message: seq<byte>, digits: seq<nat>,
                     cells: seq<nat>)
    requires 0 < n && |alphabet| == Pow2(n) && size > 0 && -1 <= padding < 256
    requires AllDigits(digits, n) && AllDigits(cells, n) && WholeBlocks(|digits|, size) && |cells| <= size
    requires digits + cells == Digits(Concat(message, 8), n)
    ensures Encode(alphabet, padding, n, size, message) ==
            Letters(alphabet, digits) + (Letters(alphabet, cells) + LastPadding(padding, |cells|, size))
  {
    hide Concat, Letters, Padding, LastPadding, Digits, WholeBlocks, Encode, Pow2;
    LettersAppend(alphabet, digits, cells, n);
    EncodeUnfold(alphabet, padding, n, size, message, digits + cells);
    PaddingMeets(padding, |digits|, size, |cells|);
    Regroup(Encode(alphabet, padding, n, size, message), Letters(alphabet, digits + cells),
            Letters(alphabet, digits), Letters(alphabet, cells), LastPadding(padding, |cells|, size));
  }

  lemma Regroup(all: seq<byte>, ab: seq<byte>, a: seq<byte>, b: seq<byte>, c: seq<byte>)
    requires all == ab + c && ab == a + b
    ensures all == a + (b + c)
  {
  }

  lemma JoinedDigits(n: nat, flushed: seq<byte>, inBlock: seq<byte>, digits: seq<nat>, cells: seq<nat>, extra: nat)
    requires extra < n && AllDigits(digits, n) && AllDigits(cells, n)
    requires Concat(digits, n) == Concat(flushed, 8) && Concat(cells, n) == Concat(inBlock, 8) + Zeros(extra)
    ensures AllDigits(digits + cells, n) && digits + cells == Digits(Concat(flushed + inBlock, 8), n)
  {
    hide Concat, AreDigits, Digits, Pow2, Zeros;
    ConcatAppend(digits, cells, n);
    ConcatAppend(flushed, inBlock, 8);
    var a, b, c := Concat(flushed, 8), Concat(inBlock, 8), Zeros(extra);
    assert a + (b + c) == (a + b) + c;
    DigitsFound(digits + cells, a + b, n, extra);
  }

  lemma EncodeUnfold(alphabet: seq<byte>, padding: int, n: nat, size: nat, message: seq<byte>, ds: seq<nat>)
    requires 0 < n && |alphabet| == Pow2(n) && size > 0 && -1 <= padding < 256
    requires AllDigits(ds, n) && ds == Digits(Concat(message, 8), n)
    ensures Encode(alphabet, padding, n, size, message) == Letters(alphabet, ds) + Padding(padding, |ds|, size)
  {
    hide Concat, Digits, Pow2, Letters, Padding;
  }

  lemma DigitsFound(s: seq<nat>, bits: seq<bool>, n: nat, extra: nat)
    requires 0 < n && extra < n && AllDigits(s, n) && Concat(s, n) == bits + Zeros(extra)
    ensures s == Digits(bits, n)
  {
    DigitsUnique(s, bits, n, extra);
  }

  lemma PaddingMeets(padding: int, count: nat, size: nat, last: nat)
    requires size > 0 && WholeBlocks(count, size) && last <= size && -1 <= padding < 256
    ensures Padding(padding, count + last, size) == LastPadding(padding, last, size)
  {
    AddMultiple(last, count / size, size);
    assert count == (count / size) * size;
    if last == 0 {
      DivModUnique(0, size, 0, 0);
      DivModUnique(size, size, 1, 0);
    } else if last == size {
      DivModUnique(size, size, 1, 0);
    } else {
      DivModUnique(last, size, 0, last);
      DivModUnique(size - last, size, 0, size - last);
    }
  }

  lemma WholeByte(b: byte)
    ensures Aligned(b, 8, 8) && Shr(b, 0) == b
  {
    ByteBound();
    assert Pow2(0) == 1;
  }

  lemma AppendByte(s: seq<byte>, b: byte)
    ensures Concat(s + [b], 8) == Concat(s, 8) + ToBits(b, 8)
  {
    ConcatAppend(s, [b], 8);
    ConcatOne(b, 8);
  }

  lemma NothingLeft(b: byte, bits: seq<bool>)
    ensures bits + ToBits(Shr(b, 8), 0) == bits
  {
  }

  /** With bits of a byte left, a block cannot be full. */
  lemma BlockNotFull(buf: seq<byte>, bytePos: nat, n: nat, bytes: seq<byte>, left: nat, rest: seq<bool>)
    requires bytePos <= |buf| && IsBlock(n, |buf|) && 0 < left < 8 && |rest| == left
    requires Filled(buf, bytePos, 0, n) + rest == Concat(bytes, 8)
    ensures bytePos < |buf|
  {
    FilledLength(buf, bytePos, 0, n);
    ConcatLength(bytes, 8);
    if bytePos == |buf| {
      BlockEndsByte(n, |buf|, |bytes|, left);
    }
  }

  lemma FirstBlock(n: nat)
    requires 1 <= n <= 7
    ensures 8 <= n * BlockDigits(n) && (n * BlockDigits(n)) % 8 == 0
  {
  }

  lemma BlockSize(n: nat, i: nat)
    requires n > 0 && i >= 8 && i == n * BlockDigits(n) && i % 8 == 0 && n <= 7
    ensures i / n == BlockDigits(n) && IsBlock(n, i / n)
  {
    DivModUnique(i, n, BlockDigits(n), 0);
  }
}
