/** The specification of base-N encoding and the bit-level steps of the encoder and the decoder. */
module BaseNDigits {
  import opened Arithmetic
  import opened BitStrings

  /** The bits of a string of n-bit numbers. */
  function Concat(s: seq<nat>, n: nat): (bits: seq<bool>)
  {
    if |s| == 0 then [] else Concat(s[..|s| - 1], n) + ToBits(s[|s| - 1], n)
  }

  lemma {:induction false} ConcatLength(s: seq<nat>, n: nat)
    ensures |Concat(s, n)| == |s| * n
  {
    if |s| > 0 {
      ConcatLength(s[..|s| - 1], n);
      MulDistributes(|s| - 1, 1, n);
    }
  }

  lemma {:induction false} ConcatAppend(s: seq<nat>, t: seq<nat>, n: nat)
    ensures Concat(s + t, n) == Concat(s, n) + Concat(t, n)
  {
    if |t| == 0 {
      assert s + t == s;
    } else {
      ConcatAppend(s, t[..|t| - 1], n);
      assert (s + t)[..|s + t| - 1] == s + t[..|t| - 1];
      assert Concat(s, n) + (Concat(t[..|t| - 1], n) + ToBits(t[|t| - 1], n))
          == (Concat(s, n) + Concat(t[..|t| - 1], n)) + ToBits(t[|t| - 1], n);
    }
  }

  lemma {:induction false} ZeroBits(n: nat)
    ensures ToBits(0, n) == Zeros(n)
  {
    if n > 0 {
      ZeroBits(n - 1);
      assert Zeros(n) == Zeros(n - 1) + [false];
    }
  }

  lemma ConcatOne(x: nat, n: nat)
    ensures Concat([x], n) == ToBits(x, n)
  {
    assert [x][..0] == [];
    assert [] + ToBits(x, n) == ToBits(x, n);
  }

  /** Bit i of number k, counted from the highest of n. */
  lemma {:induction false} ConcatAt(s: seq<nat>, n: nat, k: nat, i: nat)
    requires k < |s| && i < n
    ensures k * n + i < |Concat(s, n)| && Concat(s, n)[k * n + i] == GetBit(s[k], n - 1 - i)
  {
    hide ToBits, GetBit;
    ConcatLength(s, n);
    MulStrict(k + 1, |s|, n);
    MulDistributes(k, 1, n);
    var m := |s| - 1;
    ConcatLength(s[..m], n);
    if k < m {
      ConcatAt(s[..m], n, k, i);
    } else {
      ToBitsAt(s[m], n, i);
    }
  }

  /** A stream that was only appended to. */
  ghost predicate Extends(s: seq<byte>, start: seq<byte>) {
    |start| <= |s| && s[..|start|] == start
  }

  // Buffers filled bit by bit

  /** The bits in a buffer of n-bit cells that is filled up to bit bitPos of cell bytePos. */
  function Filled(buf: seq<byte>, bytePos: nat, bitPos: nat, n: nat): seq<bool>
    requires bytePos <= |buf| && (bitPos > 0 ==> bytePos < |buf|) && bitPos <= n
  {
    Concat(buf[..bytePos], n) + (if bitPos == 0 then [] else ToBits(Shr(buf[bytePos], n - bitPos), bitPos))
  }

  /** Nothing is set beyond the fill position. */
  ghost predicate Clean(buf: seq<byte>, bytePos: nat, bitPos: nat, n: nat)
    requires bytePos <= |buf| && (bitPos > 0 ==> bytePos < |buf|) && bitPos <= n
  {
    && (forall j :: bytePos < j < |buf| ==> buf[j] == 0)
    && (forall j :: 0 <= j < bytePos ==> buf[j] < Pow2(n))
    && (bytePos < |buf| ==> Aligned(buf[bytePos], bitPos, n))
  }

  /** x has its bits in the upper bitPos of n places. */
  ghost predicate Aligned(x: nat, bitPos: nat, n: nat)
    requires bitPos <= n
  {
    x == Shr(x, n - bitPos) * Pow2(n - bitPos) && Shr(x, n - bitPos) < Pow2(bitPos)
  }

  /** The or that completes a cell: t free places below x receive the t-bit number y. */
  lemma CompleteCell(x: nat, y: nat, bitPos: nat, n: nat)
    requires bitPos <= n && Aligned(x, bitPos, n) && y < Pow2(n - bitPos)
    ensures Or(x, y) < Pow2(n)
    ensures ToBits(Or(x, y), n) == ToBits(Shr(x, n - bitPos), bitPos) + ToBits(y, n - bitPos)
  {
    var t, q := n - bitPos, Shr(x, n - bitPos);
    OrDisjoint(q, y, t);
    SplitBits(q * Pow2(t) + y, bitPos, t);
    ShrShift(y, t, q);
    ShrSmall(y, t);
    LowBitsOnly(y, q, t);
    Pow2Add(bitPos, t);
    CellBound(q, Pow2(bitPos), Pow2(t), y);
  }

  lemma CellBound(q: nat, a: nat, b: nat, y: nat)
    requires q < a && y < b
    ensures q * b + y < a * b
  {
    MulStrict(q + 1, a, b);
    MulDistributes(q, 1, b);
  }

  lemma ShrSmall(y: nat, t: nat)
    requires y < Pow2(t)
    ensures Shr(y, t) == 0
  {
    ShrIsDiv(y, t);
    DivModUnique(y, Pow2(t), 0, y);
  }

  /** The or that leaves a cell incomplete: more bits are appended, free places remain below. */
  lemma ExtendCell(x: nat, r: nat, bitPos: nat, more: nat, n: nat)
    requires bitPos + more <= n && Aligned(x, bitPos, n) && r < Pow2(more)
    ensures var free := n - bitPos - more; var x' := Or(x, r * Pow2(free));
            && Aligned(x', bitPos + more, n)
            && ToBits(Shr(x', free), bitPos + more) == ToBits(Shr(x, n - bitPos), bitPos) + ToBits(r, more)
  {
    hide Pow2, Shr, ToBits, Or;
    var free, q := n - bitPos - more, Shr(x, n - bitPos);
    Pow2Add(more, free);
    MulStrict(r, Pow2(more), Pow2(free));
    OrDisjoint(q, r * Pow2(free), n - bitPos);
    // x' = (q * 2^more + r) * 2^free
    var cell := q * Pow2(more) + r;
    ShrShift(0, free, cell);
    ShrZero(free);
    JoinShifts(q, r, Pow2(more), Pow2(free));
    SplitBits(cell, bitPos, more);
    ShrShift(r, more, q);
    ShrSmall(r, more);
    LowBitsOnly(r, q, more);
    Pow2Add(bitPos, more);
    CellBound(q, Pow2(bitPos), Pow2(more), r);
  }

  lemma ShrZero(t: nat)
    ensures Shr(0, t) == 0
  {
    ShrSmall(0, t);
  }

  lemma JoinShifts(q: nat, r: nat, a: nat, b: nat)
    ensures q * (a * b) + r * b == (q * a + r) * b
  {
    MulDistributes(q * a, r, b);
    assert q * (a * b) == (q * a) * b;
  }

  lemma FilledLength(buf: seq<byte>, bytePos: nat, bitPos: nat, n: nat)
    requires bytePos <= |buf| && (bitPos > 0 ==> bytePos < |buf|) && bitPos <= n
    ensures |Filled(buf, bytePos, bitPos, n)| == bytePos * n + bitPos
  {
    ConcatLength(buf[..bytePos], n);
  }

  // Steps of the encoder: the upper `left` bits of b are still to be written

  /** `b <<= t; b &= 0xff` */
  function ShlByte(b: nat, t: nat): byte {
    assert b * Pow2(t) >= 0;
    (b * Pow2(t)) % 256
  }

  lemma ByteBound()
    ensures Pow2(8) == 256
  {
    assert Pow2(4) == 16;
  }

  /** Bits taken off the top of b, and what a truncating shift keeps of it. */
  lemma TakeTop(b: byte, left: nat, t: nat)
    requires t <= left <= 8 && Aligned(b, left, 8)
    ensures Shr(b, 8 - t) < Pow2(t)
    ensures Aligned(ShlByte(b, t), left - t, 8)
    ensures ToBits(Shr(b, 8 - left), left)
         == ToBits(Shr(b, 8 - t), t) + ToBits(Shr(ShlByte(b, t), 8 - (left - t)), left - t)
  {
    hide ToBits, Shr, Pow2;
    var r, more := Shr(b, 8 - left), left - t;
    ByteBound();
    ShrBounded(b, t, 8 - t);
    SplitBits(r, t, more);
    ShrShr(b, 8 - left, more);
    ShiftLeftRight(b, t, 8 - left);
    TruncatedBits(b * Pow2(t), 8, 8 - more, more);
    TruncatedShift(b, r, left, t);
  }

  lemma TruncatedShift(b: nat, r: nat, left: nat, t: nat)
    requires t <= left <= 8 && b == r * Pow2(8 - left)
    ensures Aligned(ShlByte(b, t), left - t, 8)
  {
    hide Shr, Pow2;
    var more, free := left - t, 8 - left + t;
    Pow2Add(8 - left, t);
    Pow2Add(more, free);
    ByteBound();
    var q, s := r / Pow2(more), r % Pow2(more);
    RemainderOfMultiple(b, r, q, s, Pow2(more), Pow2(free), Pow2(8 - left), Pow2(t));
    ShrShift(0, free, s);
    ShrZero(free);
  }

  lemma RemainderOfMultiple(b: nat, r: nat, q: nat, s: nat, a: nat, f: nat, g: nat, h: nat)
    requires a > 0 && f > 0 && r == q * a + s && s < a && f == g * h && b == r * g && a * f == 256
    ensures b * h >= 0 && (b * h) % 256 == s * f
  {
    assert b * h == r * f;
    MulDistributes(q * a, s, f);
    assert (q * a) * f == q * (a * f);
    MulStrict(s, a, f);
    DivModUnique(r * f, 256, q, s * f);
  }

  /** A cell x is completed with the top bits of b. */
  lemma FullStep(buf: seq<byte>, bytePos: nat, bitPos: nat, n: nat, b: byte, left: nat, x: nat)
    requires bytePos < |buf| && bitPos < n <= 7 && Clean(buf, bytePos, bitPos, n)
    requires n - bitPos <= left <= 8 && Aligned(b, left, 8)
    requires x == Or(buf[bytePos], Shr(b, 8 - (n - bitPos)))
    ensures x < 256 && Clean(buf[bytePos := x], bytePos + 1, 0, n)
    ensures var t := n - bitPos;
            && Aligned(ShlByte(b, t), left - t, 8)
            && Filled(buf[bytePos := x], bytePos + 1, 0, n) + ToBits(Shr(ShlByte(b, t), 8 - (left - t)), left - t)
            == Filled(buf, bytePos, bitPos, n) + ToBits(Shr(b, 8 - left), left)
  {
    hide ToBits, Or, Shr, ShlByte, Pow2, Concat, Filled, Clean;
    var t := n - bitPos;
    TakeTop(b, left, t);
    CellAligned(buf, bytePos, bitPos, n);
    CompleteCell(buf[bytePos], Shr(b, 8 - t), bitPos, n);
    CellIsByte(n);
    CleanAfter(buf, bytePos, bitPos, n, x);
    FilledAfter(buf, bytePos, bitPos, n, x, ToBits(Shr(b, 8 - t), t));
    var done, top, rest := Filled(buf, bytePos, bitPos, n), ToBits(Shr(b, 8 - t), t),
                           ToBits(Shr(ShlByte(b, t), 8 - (left - t)), left - t);
    assert (done + top) + rest == done + (top + rest);
  }

  lemma CellAligned(buf: seq<byte>, bytePos: nat, bitPos: nat, n: nat)
    requires bytePos < |buf| && bitPos <= n && Clean(buf, bytePos, bitPos, n)
    ensures Aligned(buf[bytePos], bitPos, n)
  {
  }

  lemma FilledAfter(buf: seq<byte>, bytePos: nat, bitPos: nat, n: nat, x: byte, more: seq<bool>)
    requires bytePos < |buf| && bitPos <= n
    requires ToBits(x, n) == ToBits(Shr(buf[bytePos], n - bitPos), bitPos) + more
    ensures Filled(buf[bytePos := x], bytePos + 1, 0, n) == Filled(buf, bytePos, bitPos, n) + more
  {
    hide ToBits, Shr;
    FilledUnfold(buf, bytePos, bitPos, n);
    assert buf[bytePos := x][..bytePos + 1] == buf[..bytePos] + [x];
    assert (buf[..bytePos] + [x])[..bytePos] == buf[..bytePos];
  }

  lemma CellIsByte(n: nat)
    requires n <= 7
    ensures Pow2(n) <= 128
  {
    Pow2Increasing(n, 7);
    assert Pow2(4) == 16;
  }

  lemma FilledUnfold(buf: seq<byte>, bytePos: nat, bitPos: nat, n: nat)
    requires bytePos < |buf| && bitPos <= n
    ensures Filled(buf, bytePos, bitPos, n) == Concat(buf[..bytePos], n) + ToBits(Shr(buf[bytePos], n - bitPos), bitPos)
  {
  }

  lemma CleanAfter(buf: seq<byte>, bytePos: nat, bitPos: nat, n: nat, x: byte)
    requires bytePos < |buf| && bitPos <= n && Clean(buf, bytePos, bitPos, n) && x < Pow2(n)
    ensures Clean(buf[bytePos := x], bytePos + 1, 0, n)
  {
    ShrZero(n);
    assert Pow2(0) == 1;
  }

  /** The rest of b does not complete the cell. */
  lemma PartialStep(buf: seq<byte>, bytePos: nat, bitPos: nat, n: nat, b: byte, left: nat, x: nat)
    requires bytePos < |buf| && bitPos < n <= 7 && Clean(buf, bytePos, bitPos, n)
    requires left < n - bitPos && Aligned(b, left, 8)
    requires x == Or(buf[bytePos], Shr(b, 8 - (n - bitPos)))
    ensures x < 256 && Clean(buf[bytePos := x], bytePos, bitPos + left, n)
    ensures Filled(buf[bytePos := x], bytePos, bitPos + left, n)
         == Filled(buf, bytePos, bitPos, n) + ToBits(Shr(b, 8 - left), left)
  {
    hide ToBits, Or, Shr, Pow2, Concat, Filled, Clean;
    var r, free := Shr(b, 8 - left), n - bitPos - left;
    ShiftLeftRight(r, free, 8 - (n - bitPos));
    assert free + (8 - (n - bitPos)) == 8 - left;
    CellAligned(buf, bytePos, bitPos, n);
    ExtendCell(buf[bytePos], r, bitPos, left, n);
    AlignedBound(x, bitPos + left, n);
    assert buf[bytePos := x][..bytePos] == buf[..bytePos];
    FilledUnfold(buf, bytePos, bitPos, n);
    FilledUnfold(buf[bytePos := x], bytePos, bitPos + left, n);
    CleanExtended(buf, bytePos, bitPos, bitPos + left, n, x);
    assert n - (bitPos + left) == free;
  }

  lemma CleanExtended(buf: seq<byte>, bytePos: nat, bitPos: nat, bitPos': nat, n: nat, x: byte)
    requires bytePos < |buf| && bitPos <= n && bitPos' <= n && Clean(buf, bytePos, bitPos, n) && Aligned(x, bitPos', n)
    ensures Clean(buf[bytePos := x], bytePos, bitPos', n)
  {
  }

  lemma AlignedBound(x: nat, bitPos: nat, n: nat)
    requires bitPos <= n <= 7 && Aligned(x, bitPos, n)
    ensures x < Pow2(n) <= 128
  {
    Pow2Add(bitPos, n - bitPos);
    MulStrict(Shr(x, n - bitPos), Pow2(bitPos), Pow2(n - bitPos));
    CellIsByte(n);
  }

  // The specification of the codec

  /** The digits of a bit string, the last one padded with zeros. */
  function Digits(bits: seq<bool>, n: nat): (s: seq<nat>)
    requires n > 0
  {
    if |bits| == 0 then []
    else if |bits| <= n then [FromBits(bits + Zeros(n - |bits|))]
    else [FromBits(bits[..n])] + Digits(bits[n..], n)
  }

  /** Digits that carry the bits and fewer than n zeros after them. */
  ghost predicate AreDigits(s: seq<nat>, bits: seq<bool>, n: nat, extra: nat) {
    && extra < n
    && (forall k :: 0 <= k < |s| ==> s[k] < Pow2(n))
    && Concat(s, n) == bits + Zeros(extra)
  }

  /** There is only one string of digits that carries given bits. */
  lemma {:induction false} DigitsUnique(s: seq<nat>, bits: seq<bool>, n: nat, extra: nat)
    requires AreDigits(s, bits, n, extra)
    ensures s == Digits(bits, n)
  {
    hide ToBits;
    ConcatLength(s, n);
    if |s| > 0 {
      FirstCell(s, n);
      FromToBits(s[0], n);
      var all := bits + Zeros(extra);
      assert all[..n] == ToBits(s[0], n) && all[n..] == Concat(s[1..], n);
      assert |bits| > 0 by {
        MulStrict(1, |s|, n);
      }
      if |bits| <= n {
        assert |s| == 1 by {
          MulStrict(|s|, 2, n);
        }
        assert all == bits + Zeros(n - |bits|) == all[..n];
      } else {
        assert all[..n] == bits[..n] && all[n..] == bits[n..] + Zeros(extra);
        DigitsUnique(s[1..], bits[n..], n, extra);
      }
    }
  }

  lemma {:induction false} FirstCell(s: seq<nat>, n: nat)
    requires |s| > 0
    ensures Concat(s, n) == ToBits(s[0], n) + Concat(s[1..], n)
  {
    assert s == [s[0]] + s[1..];
    ConcatAppend([s[0]], s[1..], n);
    ConcatOne(s[0], n);
  }

  /** Every bit string has digits. */
  lemma {:induction false} DigitsCarry(bits: seq<bool>, n: nat) returns (extra: nat)
    requires n > 0
    ensures AreDigits(Digits(bits, n), bits, n, extra)
  {
    hide ToBits, FromBits, Pow2, Concat, AreDigits;
    if |bits| == 0 {
      extra := 0;
      NoDigits(n);
      assert bits == [];
    } else if |bits| <= n {
      extra := n - |bits|;
      ToFromBits(bits + Zeros(extra));
      OneDigit(FromBits(bits + Zeros(extra)), bits, n, extra);
    } else {
      extra := DigitsCarry(bits[n..], n);
      ToFromBits(bits[..n]);
      MoreDigits(FromBits(bits[..n]), Digits(bits[n..], n), bits[..n], bits[n..], n, extra);
      assert bits[..n] + bits[n..] == bits;
    }
  }

  lemma NoDigits(n: nat)
    requires n > 0
    ensures AreDigits([], [], n, 0)
  {
    assert [] + Zeros(0) == [];
  }

  lemma OneDigit(d: nat, bits: seq<bool>, n: nat, extra: nat)
    requires extra < n && d < Pow2(n) && ToBits(d, n) == bits + Zeros(extra)
    ensures AreDigits([d], bits, n, extra)
  {
    ConcatOne(d, n);
  }

  lemma MoreDigits(d: nat, s: seq<nat>, first: seq<bool>, rest: seq<bool>, n: nat, extra: nat)
    requires d < Pow2(n) && ToBits(d, n) == first && AreDigits(s, rest, n, extra)
    ensures AreDigits([d] + s, first + rest, n, extra)
  {
    FirstCell([d] + s, n);
    assert ([d] + s)[1..] == s;
    assert first + (rest + Zeros(extra)) == (first + rest) + Zeros(extra);
  }

  /** A number of n-bit digits that fills whole bytes. */
  ghost predicate IsBlock(n: nat, size: nat) {
    0 < size && (n * size) % 8 == 0
  }

  /** The least number of n-bit digits that fills whole bytes. */
  function BlockDigits(n: nat): (size: nat)
    ensures size > 0
  {
    if n % 2 == 1 then 8 else if n % 4 == 2 then 4 else 2
  }

  lemma LeastBlock(n: nat, i: nat)
    requires 1 <= n <= 7 && i % 8 == 0 && 0 < i <= n * BlockDigits(n)
    ensures i % n == 0 <==> i == n * BlockDigits(n)
  {
    if n == 1 {
    } else if n == 2 {
    } else if n == 3 {
      assert i == 8 || i == 16 || i == 24;
    } else if n == 4 {
    } else if n == 5 {
      assert i == 8 || i == 16 || i == 24 || i == 32 || i == 40;
    } else if n == 6 {
      assert i == 8 || i == 16 || i == 24;
    } else {
      assert i == 8 || i == 16 || i == 24 || i == 32 || i == 40 || i == 48 || i == 56;
    }
  }

  /** A full block has no bits of its last byte left over. */
  lemma BlockEndsByte(n: nat, size: nat, bytes: nat, left: nat)
    requires IsBlock(n, size) && size * n + left == 8 * bytes && left < 8
    ensures left == 0
  {
    var k := (n * size) / 8;
    assert n * size == 8 * k;
    assert left == 8 * (bytes - k);
  }
}
