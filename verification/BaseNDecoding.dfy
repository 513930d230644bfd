/** `BaseN_Decoder` and its lookup tables. */
module BaseNDecoding {
  import opened Arithmetic
  import opened BitStrings
  import opened Sequences
  import opened BaseNDigits

  // The specification

  /** The whole bytes at the start of a bit string. */
  function WholeBytes(bits: seq<bool>): seq<byte> {
    if |bits| < 8 then []
    else
      ToFromBits(bits[..8]);
      ByteBound();
      [FromBits(bits[..8])] + WholeBytes(bits[8..])
  }

  /** Bytes followed by less than a byte are the whole bytes. */
  lemma {:induction false} WholeBytesOf(s: seq<byte>, rest: seq<bool>)
    requires |rest| < 8
    ensures WholeBytes(Concat(s, 8) + rest) == s
  {
    hide ToBits, Pow2, FromBits;
    ConcatLength(s, 8);
    if |s| > 0 {
      var bits := Concat(s, 8) + rest;
      FirstCell(s, 8);
      ConcatLength(s[1..], 8);
      ByteBound();
      FromToBits(s[0], 8);
      assert bits[..8] == ToBits(s[0], 8);
      assert bits[8..] == Concat(s[1..], 8) + rest;
      WholeBytesOf(s[1..], rest);
    } else {
      assert Concat(s, 8) + rest == rest;
    }
  }

  /** A table entry read as an unsigned number of 32 bits. */
  function Unsigned(entry: int): nat {
    entry % 0x1_0000_0000
  }

  /** The values of the bytes that have one. */
  function Values(lookup: seq<int>, s: seq<byte>): seq<nat>
    requires |lookup| == 256
  {
    if |s| == 0 then []
    else
      var value := Unsigned(lookup[s[|s| - 1]]);
      Values(lookup, s[..|s| - 1]) + if value >= 256 then [] else [value]
  }

  function OrBits(a: seq<bool>, b: seq<bool>): (r: seq<bool>)
    requires |a| == |b|
    ensures |r| == |a|
  {
    seq(|a|, i requires 0 <= i < |a| => a[i] || b[i])
  }

  /** One value after a bit string: its low n bits are appended. Higher bits, which a digit does not have, get mixed
      up with the bits before them, as far as the byte goes. */
  function Write(bits: seq<bool>, v: nat, n: nat): (r: seq<bool>)
    ensures |r| == |bits| + n
  {
    Mix(bits, |bits| % 8, Shr(v, n)) + ToBits(v, n)
  }

  /** The low p bits of u, mixed into the last p bits. */
  function Mix(bits: seq<bool>, p: nat, u: nat): (r: seq<bool>)
    requires p <= |bits|
    ensures |r| == |bits|
  {
    bits[..|bits| - p] + OrBits(bits[|bits| - p..], ToBits(u, p))
  }

  lemma MixAfter(a: seq<bool>, b: seq<bool>, p: nat, u: nat)
    requires p <= |b|
    ensures Mix(a + b, p, u) == a + Mix(b, p, u)
  {
    hide OrBits, ToBits;
    assert (a + b)[|a + b| - p..] == b[|b| - p..];
    assert (a + b)[..|a + b| - p] == a + b[..|b| - p];
  }

  lemma MixAll(b: seq<bool>, u: nat)
    ensures Mix(b, |b|, u) == OrBits(b, ToBits(u, |b|))
  {
    hide OrBits, ToBits;
    assert b[0..] == b && b[..0] == [];
  }

  function Scan(values: seq<nat>, n: nat): (bits: seq<bool>) {
    if |values| == 0 then [] else Write(Scan(values[..|values| - 1], n), values[|values| - 1], n)
  }

  function Decode(lookup: seq<int>, n: nat, s: seq<byte>): seq<byte>
    requires |lookup| == 256
  {
    WholeBytes(Scan(Values(lookup, s), n))
  }

  /** A digit leaves the bits before it alone. */
  lemma WriteDigit(bits: seq<bool>, v: nat, n: nat)
    requires v < Pow2(n)
    ensures Write(bits, v, n) == bits + ToBits(v, n)
  {
    hide ToBits, Pow2;
    var p := |bits| % 8;
    ShrSmall(v, n);
    ZeroBits(p);
    assert OrBits(bits[|bits| - p..], ToBits(0, p)) == bits[|bits| - p..];
    assert bits[..|bits| - p] + bits[|bits| - p..] == bits;
  }

  /** Digits are put together. */
  lemma {:induction false} ScanDigits(digits: seq<nat>, n: nat)
    requires forall k :: 0 <= k < |digits| ==> digits[k] < Pow2(n)
    ensures Scan(digits, n) == Concat(digits, n)
  {
    hide Write;
    if |digits| > 0 {
      ScanDigits(digits[..|digits| - 1], n);
      WriteDigit(Scan(digits[..|digits| - 1], n), digits[|digits| - 1], n);
    }
  }

  /** Every entry is the value of a digit or no value at all. */
  ghost predicate IsLookup(lookup: seq<int>, n: nat) {
    |lookup| == 256 && forall c :: 0 <= c < 256 ==> Unsigned(lookup[c]) < Pow2(n) || Unsigned(lookup[c]) >= 256
  }

  /** With such a table, decoding is putting the digits together. */
  lemma DecodeDigits(lookup: seq<int>, n: nat, s: seq<byte>)
    requires IsLookup(lookup, n)
    ensures Decode(lookup, n, s) == WholeBytes(Concat(Values(lookup, s), n))
  {
    ValuesAreDigits(lookup, n, s);
    ScanDigits(Values(lookup, s), n);
  }

  lemma {:induction false} ValuesAreDigits(lookup: seq<int>, n: nat, s: seq<byte>)
    requires IsLookup(lookup, n)
    ensures forall k :: 0 <= k < |Values(lookup, s)| ==> Values(lookup, s)[k] < Pow2(n)
  {
    if |s| > 0 {
      ValuesAreDigits(lookup, n, s[..|s| - 1]);
    }
  }

  /** Of a value that is no digit, the upper bits show: 2 does not fit one bit, and sets the bit before its own. */
  lemma UpperBitsShow()
    ensures Scan([2, 2], 1) == [true, false] && Concat([2, 2], 1) == [false, false]
  {
    hide Write, ToBits;
    assert [2, 2][..1] == [2] && [2][..0] == [];
    BitsOfTwo();
    WriteTwo([]);
    WriteTwo([false]);
  }

  lemma BitsOfTwo()
    ensures ToBits(2, 1) == [false] && ToBits(Shr(2, 1), 1) == [true] && ToBits(Shr(2, 1), 0) == []
  {
  }

  lemma WriteTwo(bits: seq<bool>)
    requires bits == [] || bits == [false]
    ensures Write(bits, 2, 1) == if bits == [] then [false] else [true, false]
  {
    hide ToBits, Shr;
    BitsOfTwo();
  }

  lemma {:induction false} ScanLength(values: seq<nat>, n: nat)
    ensures |Scan(values, n)| == |values| * n
  {
    if |values| > 0 {
      ScanLength(values[..|values| - 1], n);
      MulDistributes(|values| - 1, 1, n);
    }
  }

  /** Whole bytes may be split off. */
  lemma {:induction false} ScanAppend(a: seq<nat>, b: seq<nat>, n: nat)
    requires |Scan(a, n)| % 8 == 0
    ensures Scan(a + b, n) == Scan(a, n) + Scan(b, n)
  {
    hide Write;
    if |b| == 0 {
      assert a + b == a;
    } else {
      var c := b[..|b| - 1];
      ScanAppend(a, c, n);
      assert (a + b)[..|a + b| - 1] == a + c;
      WriteAfter(Scan(a, n), Scan(c, n), b[|b| - 1], n);
    }
  }

  lemma WriteAfter(a: seq<bool>, b: seq<bool>, v: nat, n: nat)
    requires |a| % 8 == 0
    ensures Write(a + b, v, n) == a + Write(b, v, n)
  {
    hide Mix, ToBits;
    SameByte(|a|, |b|);
    MixAfter(a, b, |b| % 8, Shr(v, n));
  }

  lemma SameByte(a: nat, b: nat)
    requires a % 8 == 0
    ensures (a + b) % 8 == b % 8
  {
  }

  lemma {:induction false} ValuesAppend(lookup: seq<int>, s: seq<byte>, t: seq<byte>)
    requires |lookup| == 256
    ensures Values(lookup, s + t) == Values(lookup, s) + Values(lookup, t)
  {
    if |t| == 0 {
      assert s + t == s;
    } else {
      ValuesAppend(lookup, s, t[..|t| - 1]);
      assert (s + t)[..|s + t| - 1] == s + t[..|t| - 1];
    }
  }

  // Steps of the decoder

  /** The upper p places of a byte after a value whose low n bits are to follow them: what the value has above those
      bits is mixed in. */
  function MixedIn(x: nat, v: nat, p: nat, n: nat): nat
    requires p <= 8
  {
    Or(Shr(x, 8 - p), Shr(v, n) % Pow2(p)) * Pow2(8 - p)
  }

  lemma {:induction false} OrOfBits(a: nat, b: nat, n: nat)
    ensures ToBits(Or(a, b), n) == OrBits(ToBits(a, n), ToBits(b, n))
  {
    hide Or;
    if n > 0 {
      OrOfBits(a / 2, b / 2, n - 1);
      OrHalves(a, b);
    }
  }

  lemma {:induction false} OrBounded(a: nat, b: nat, n: nat)
    requires a < Pow2(n) && b < Pow2(n)
    ensures Or(a, b) < Pow2(n)
  {
    hide Or;
    OrHalves(a, b);
    if n > 0 {
      OrBounded(a / 2, b / 2, n - 1);
    } else {
      OrHalves(0, 0);
    }
  }

  /** A number is made of what is above its low n bits, and of those. */
  lemma CutNumber(v: nat, n: nat)
    ensures Shr(v, n) * Pow2(n) >= 0 && v == Shr(v, n) * Pow2(n) + v % Pow2(n)
    ensures ToBits(v % Pow2(n), n) == ToBits(v, n)
  {
    hide ToBits, Shr, Pow2;
    ShrIsDiv(v, n);
    LowBitsOnly(v % Pow2(n), Shr(v, n), n);
  }

  lemma MixedCell(x: nat, v: nat, p: nat, n: nat)
    requires p <= 8 && Aligned(x, p, 8)
    ensures Aligned(MixedIn(x, v, p, n), p, 8) && MixedIn(x, v, p, n) < 256
    ensures ToBits(Shr(MixedIn(x, v, p, n), 8 - p), p)
         == OrBits(ToBits(Shr(x, 8 - p), p), ToBits(Shr(v, n), p))
  {
    hide ToBits, Or, Shr, Pow2, OrBits;
    var q, u: nat := Shr(x, 8 - p), Shr(v, n) % Pow2(p);
    CutNumber(Shr(v, n), p);
    OrBounded(q, u, p);
    OrOfBits(q, u, p);
    ShrProduct(Or(q, u), 8 - p);
    AlignedByte(MixedIn(x, v, p, n), p);
  }

  /** In one byte. */
  lemma MixFits(x: nat, v: nat, p: nat, n: nat)
    requires p + n <= 8 && Aligned(x, p, 8)
    ensures var free, w := 8 - p - n, v % Pow2(n);
            && w * Pow2(free) >= 0
            && Or(x, ShlByte(v, free)) == Or(MixedIn(x, v, p, n), w * Pow2(free))
  {
    hide ToBits, Or, Shr, Pow2, ShlByte;
    LowPart(v, n, 8 - p - n);
    ShiftedParts(v, p, n, 8 - p - n);
    assert n + (8 - p - n) == 8 - p;
    OrOnTop(Shr(x, 8 - p), Shr(v, n) % Pow2(p), (v % Pow2(n)) * Pow2(8 - p - n), 8 - p);
  }

  lemma LowPart(v: nat, n: nat, free: nat)
    ensures (v % Pow2(n)) * Pow2(free) >= 0 && (v % Pow2(n)) * Pow2(free) < Pow2(n + free)
  {
    hide Pow2;
    Pow2Add(n, free);
    QuotientOf(v, Pow2(n));
    MulStrict(v % Pow2(n), Pow2(n), Pow2(free));
  }

  lemma ShiftedParts(v: nat, p: nat, n: nat, free: nat)
    requires p + n + free == 8
    ensures var u, w := Shr(v, n) % Pow2(p), v % Pow2(n);
            u * Pow2(8 - p) >= 0 && w * Pow2(free) >= 0 && ShlByte(v, free) == u * Pow2(8 - p) + w * Pow2(free)
  {
    hide Shr, Pow2, ToBits, ShlByte;
    CutNumber(v, n);
    PlacesOfByte(p, n, free);
    ShlByteIs(v, free);
    ShiftedNumber(v, Shr(v, n), Pow2(p), Pow2(n), Pow2(free));
  }

  lemma ShiftedNumber(v: nat, top: nat, a: nat, b: nat, f: nat)
    requires a > 0 && b > 0 && f > 0 && v == top * b + v % b && a * (b * f) == 256
    ensures (top % a) * (b * f) >= 0 && (v % b) * f >= 0 && v * f >= 0
    ensures (v * f) % 256 == (top % a) * (b * f) + (v % b) * f
  {
    QuotientOf(top, a);
    QuotientOf(v, b);
    LowByteOfParts(v, top / a, top % a, v % b, a, b, f);
  }

  lemma PlacesOfByte(p: nat, n: nat, free: nat)
    requires p + n + free == 8
    ensures Pow2(8 - p) == Pow2(n) * Pow2(free) && Pow2(p) * (Pow2(n) * Pow2(free)) == 256
  {
    hide Pow2;
    Pow2Add(n, free);
    Pow2Add(p, 8 - p);
    ByteBound();
  }

  lemma ShlByteIs(v: nat, t: nat)
    ensures v * Pow2(t) >= 0 && ShlByte(v, t) == (v * Pow2(t)) % 256
  {
  }

  lemma LowByteOfParts(v: nat, h: nat, u: nat, w: nat, a: nat, b: nat, f: nat)
    requires v == (h * a + u) * b + w && u < a && w < b && f > 0 && a * (b * f) == 256
    ensures u * (b * f) >= 0 && w * f >= 0 && v * f >= 0 && (v * f) % 256 == u * (b * f) + w * f
  {
    ThreeParts(v, h, u, w, a, b, f);
    MulStrict(w, b, f);
    CellBound(u, a, b * f, w * f);
    DivModUnique(v * f, 256, h, u * (b * f) + w * f);
  }

  lemma ThreeParts(v: nat, h: nat, u: nat, w: nat, a: nat, b: nat, f: nat)
    requires v == (h * a + u) * b + w && a * (b * f) == 256
    ensures u * (b * f) >= 0 && w * f >= 0 && v * f == h * 256 + (u * (b * f) + w * f)
  {
    MulDistributes((h * a + u) * b, w, f);
    MulDistributes(h * a, u, b);
    MulDistributes(h * a * b, u * b, f);
    assert h * a * b * f == h * (a * (b * f));
    assert u * b * f == u * (b * f);
  }

  /** Across two bytes. */
  lemma MixSpills(x: nat, v: byte, p: nat, n: nat)
    requires p < 8 && n <= 8 < p + n && Aligned(x, p, 8)
    ensures var k, w := p + n - 8, v % Pow2(n);
            && Or(x, Shr(v, k)) == Or(MixedIn(x, v, p, n), Shr(w, k))
            && ShlByte(v, 8 - k) == ShlByte(w, 8 - k)
  {
    MixUpper(x, v, p, n);
    MixLower(v, p + n - 8, n);
  }

  lemma MixUpper(x: nat, v: byte, p: nat, n: nat)
    requires p < 8 && n <= 8 < p + n && Aligned(x, p, 8)
    ensures Or(x, Shr(v, p + n - 8)) == Or(MixedIn(x, v, p, n), Shr(v % Pow2(n), p + n - 8))
  {
    hide ToBits, Or, Shr, Pow2;
    var k, w: nat, q, u: nat := p + n - 8, v % Pow2(n), Shr(x, 8 - p), Shr(v, n);
    CutNumber(v, n);
    SmallTop(v, p, n);
    ShrBounded(w, 8 - p, k);
    ShrOfSum(u, w, 8 - p, k);
    assert 8 - p + k == n;
    OrOnTop(q, u, Shr(w, k), 8 - p);
  }

  lemma OrOnTop(q: nat, u: nat, r: nat, k: nat)
    requires r < Pow2(k)
    ensures q * Pow2(k) >= 0 && u * Pow2(k) >= 0
    ensures Or(q * Pow2(k), u * Pow2(k) + r) == Or(Or(q, u) * Pow2(k), r)
  {
    hide Or, Pow2;
    OrParts(q, 0, u, r, k);
    OrNothing(r);
    OrDisjoint(Or(q, u), r, k);
  }

  lemma MixLower(v: byte, k: nat, n: nat)
    requires k <= n <= 8
    ensures ShlByte(v, 8 - k) == ShlByte(v % Pow2(n), 8 - k)
  {
    hide ToBits, Shr, Pow2;
    CutNumber(v, n);
    Pow2Add(n, 8 - k);
    Pow2Add(8, n - k);
    ByteBound();
    SameLowByte(v, Shr(v, n), v % Pow2(n), Pow2(n), Pow2(8 - k), Pow2(n - k));
  }

  /** A byte has nothing above the bits that are mixed in. */
  lemma SmallTop(v: byte, p: nat, n: nat)
    requires p <= 8 && n <= 8 < p + n
    ensures Shr(v, n) % Pow2(p) == Shr(v, n)
  {
    hide Shr, Pow2;
    ByteBound();
    ShrBounded(v, 8 - n, n);
    Pow2Increasing(8 - n, p);
    RemainderOfSmall(Shr(v, n), Pow2(p));
  }

  lemma ShrOfSum(u: nat, w: nat, a: nat, k: nat)
    ensures u * Pow2(a + k) >= 0 && u * Pow2(a) >= 0
    ensures Shr(u * Pow2(a + k) + w, k) == u * Pow2(a) + Shr(w, k)
  {
    hide Shr, Pow2;
    Pow2Add(a, k);
    MulAssociates(u, Pow2(a), Pow2(k));
    ShrShift(w, k, u * Pow2(a));
  }

  lemma SameLowByte(v: nat, u: nat, w: nat, a: nat, b: nat, c: nat)
    requires v == u * a + w && a * b == 256 * c
    ensures (v * b) % 256 == (w * b) % 256
  {
    MulDistributes(u * a, w, b);
    assert (u * a) * b == (u * c) * 256 by {
      MulAssociates(u, a, b);
      assert u * (256 * c) == (u * c) * 256;
    }
    AddMultiple(w * b, u * c, 256);
  }

  /** The upper bits of a value complete a byte, the others start the next. */
  lemma SpilledBits(v: nat, k: nat)
    requires k <= 8
    ensures Aligned(ShlByte(v, 8 - k), k, 8)
    ensures ToBits(Shr(ShlByte(v, 8 - k), 8 - k), k) == ToBits(v, k)
  {
    hide Pow2, Shr, ToBits, Aligned;
    ShiftNothing(v);
    TruncatedShift(v, v, 8, 8 - k);
    ByteBound();
    TruncatedBits(v * Pow2(8 - k), 8, 8 - k, k);
    ShiftLeftRight(v, 8 - k, 0);
  }

  lemma ShiftNothing(v: nat)
    ensures Shr(v, 0) == v && v * Pow2(0) == v
  {
  }

  /** A byte that takes a whole value. */
  lemma ValueFits(x: nat, v: nat, bitPos: nat, n: nat)
    requires bitPos + n <= 8 && Aligned(x, bitPos, 8) && v < Pow2(n)
    ensures var x' := Or(x, v * Pow2(8 - bitPos - n));
            && Aligned(x', bitPos + n, 8) && x' < 256
            && ToBits(Shr(x', 8 - bitPos - n), bitPos + n) == ToBits(Shr(x, 8 - bitPos), bitPos) + ToBits(v, n)
  {
    hide Pow2, Shr, ToBits, Or;
    ExtendCell(x, v, bitPos, n, 8);
    var x' := Or(x, v * Pow2(8 - bitPos - n));
    AlignedByte(x', bitPos + n);
  }

  lemma AlignedByte(x: nat, bitPos: nat)
    requires bitPos <= 8 && Aligned(x, bitPos, 8)
    ensures x < 256
  {
    hide Shr;
    Pow2Add(bitPos, 8 - bitPos);
    ByteBound();
    MulStrict(Shr(x, 8 - bitPos), Pow2(bitPos), Pow2(8 - bitPos));
  }

  /** A value that fits the free places of a byte. */
  lemma FitStep(buf: seq<byte>, bytePos: nat, bitPos: nat, n: nat, v: nat, x: byte)
    requires bytePos < |buf| && bitPos + n <= 8 && Clean(buf, bytePos, bitPos, 8) && v < Pow2(n)
    requires x == Or(buf[bytePos], v * Pow2(8 - bitPos - n))
    ensures bitPos + n < 8 ==> Clean(buf[bytePos := x], bytePos, bitPos + n, 8)
    ensures bitPos + n == 8 ==> Clean(buf[bytePos := x], bytePos + 1, 0, 8)
    ensures bitPos + n < 8
            ==> Filled(buf[bytePos := x], bytePos, bitPos + n, 8) == Filled(buf, bytePos, bitPos, 8) + ToBits(v, n)
    ensures bitPos + n == 8
            ==> Filled(buf[bytePos := x], bytePos + 1, 0, 8) == Filled(buf, bytePos, bitPos, 8) + ToBits(v, n)
  {
    hide ToBits, Or, Shr, Pow2, Concat, Filled, Clean, Aligned;
    var buf', p := buf[bytePos := x], bitPos + n;
    CellAligned(buf, bytePos, bitPos, 8);
    ValueFits(buf[bytePos], v, bitPos, n);
    if p == 8 {
      ByteBound();
      CleanAfter(buf, bytePos, bitPos, 8, x);
      ShiftNothing(x);
      FilledAfter(buf, bytePos, bitPos, 8, x, ToBits(v, n));
    } else {
      CleanExtended(buf, bytePos, bitPos, p, 8, x);
      FilledExtended(buf, bytePos, bitPos, p, x, ToBits(v, n));
    }
  }

  lemma FilledExtended(buf: seq<byte>, bytePos: nat, bitPos: nat, bitPos': nat, x: byte, more: seq<bool>)
    requires bytePos < |buf| && bitPos <= 8 && bitPos' <= 8
    requires ToBits(Shr(x, 8 - bitPos'), bitPos') == ToBits(Shr(buf[bytePos], 8 - bitPos), bitPos) + more
    ensures Filled(buf[bytePos := x], bytePos, bitPos', 8) == Filled(buf, bytePos, bitPos, 8) + more
  {
    hide ToBits, Shr, Concat, Filled;
    FilledUnfold(buf, bytePos, bitPos, 8);
    FilledUnfold(buf[bytePos := x], bytePos, bitPos', 8);
    assert buf[bytePos := x][..bytePos] == buf[..bytePos];
  }

  /** A value that spills over into the next byte. */
  lemma SpillStep(buf: seq<byte>, bytePos: nat, bitPos: nat, n: nat, v: nat, x: byte, y: byte)
    requires bytePos + 1 < |buf| && bitPos < 8 && n <= 8 < bitPos + n && Clean(buf, bytePos, bitPos, 8) && v < Pow2(n)
    requires var k := bitPos + n - 8; x == Or(buf[bytePos], Shr(v, k)) && y == Or(buf[bytePos + 1], ShlByte(v, 8 - k))
    ensures var k := bitPos + n - 8; var buf' := buf[bytePos := x][bytePos + 1 := y];
            && Clean(buf', bytePos + 1, k, 8)
            && Filled(buf', bytePos + 1, k, 8) == Filled(buf, bytePos, bitPos, 8) + ToBits(v, n)
  {
    hide ToBits, Or, Shr, Pow2, Concat, Filled, Clean, Aligned;
    var k, mid := bitPos + n - 8, buf[bytePos := x];
    CellAligned(buf, bytePos, bitPos, 8);
    ShrBounded(v, n - k, k);
    CompleteCell(buf[bytePos], Shr(v, k), bitPos, 8);
    CleanAfter(buf, bytePos, bitPos, 8, x);
    FilledAfter(buf, bytePos, bitPos, 8, x, ToBits(Shr(v, k), n - k));
    CleanBeyond(buf, bytePos, bitPos);
    OrNothing(ShlByte(v, 8 - k));
    SpilledBits(v, k);
    CleanExtended(mid, bytePos + 1, 0, k, 8, y);
    FilledExtended(mid, bytePos + 1, 0, k, y, ToBits(v, k));
    SplitBits(v, n - k, k);
    AppendAssociates(Filled(buf, bytePos, bitPos, 8), ToBits(Shr(v, k), n - k), ToBits(v, k));
  }

  /** The buffer with what a value mixes in. */
  lemma MixBuffer(buf: seq<byte>, bytePos: nat, bitPos: nat, n: nat, v: nat) returns (mixed: seq<byte>)
    requires bytePos < |buf| && bitPos < 8 && Clean(buf, bytePos, bitPos, 8)
    ensures |mixed| == |buf| && MixedIn(buf[bytePos], v, bitPos, n) < 256
    ensures mixed == buf[bytePos := MixedIn(buf[bytePos], v, bitPos, n)] && Clean(mixed, bytePos, bitPos, 8)
    ensures Filled(mixed, bytePos, bitPos, 8) + ToBits(v % Pow2(n), n) == Write(Filled(buf, bytePos, bitPos, 8), v, n)
  {
    hide ToBits, Or, Shr, Pow2, Concat, Filled, Clean, Aligned, OrBits, MixedIn;
    CellAligned(buf, bytePos, bitPos, 8);
    MixedCell(buf[bytePos], v, bitPos, n);
    var x := MixedIn(buf[bytePos], v, bitPos, n);
    mixed := buf[bytePos := x];
    CleanExtended(buf, bytePos, bitPos, bitPos, 8, x);
    CutNumber(v, n);
    FilledUnfold(buf, bytePos, bitPos, 8);
    FilledUnfold(mixed, bytePos, bitPos, 8);
    assert mixed[..bytePos] == buf[..bytePos];
    ConcatLength(buf[..bytePos], 8);
    WriteInParts(Concat(buf[..bytePos], 8), ToBits(Shr(buf[bytePos], 8 - bitPos), bitPos), v, n);
  }

  lemma WriteInParts(bytes: seq<bool>, bits: seq<bool>, v: nat, n: nat)
    requires |bytes| % 8 == 0 && |bits| < 8
    ensures Write(bytes + bits, v, n) == bytes + OrBits(bits, ToBits(Shr(v, n), |bits|)) + ToBits(v, n)
  {
    hide OrBits, ToBits, Shr, Mix;
    SameByte(|bytes|, |bits|);
    RemainderOfSmall(|bits|, 8);
    MixAfter(bytes, bits, |bits|, Shr(v, n));
    MixAll(bits, Shr(v, n));
  }

  lemma FitValue(buf: seq<byte>, bytePos: nat, bitPos: nat, n: nat, v: nat, x: byte)
    requires bytePos < |buf| && n > 0 && bitPos + n <= 8 && Clean(buf, bytePos, bitPos, 8)
    requires x == Or(buf[bytePos], ShlByte(v, 8 - bitPos - n))
    ensures var p, r := bitPos + n, Write(Filled(buf, bytePos, bitPos, 8), v, n);
            if p < 8 then Clean(buf[bytePos := x], bytePos, p, 8) && Filled(buf[bytePos := x], bytePos, p, 8) == r
            else Clean(buf[bytePos := x], bytePos + 1, 0, 8) && Filled(buf[bytePos := x], bytePos + 1, 0, 8) == r
  {
    hide ToBits, Or, Shr, Pow2, Concat, Filled, Clean, Aligned, Write, MixedIn, ShlByte;
    var mixed := MixBuffer(buf, bytePos, bitPos, n, v);
    CellAligned(buf, bytePos, bitPos, 8);
    MixFits(buf[bytePos], v, bitPos, n);
    CutNumber(v, n);
    FitStep(mixed, bytePos, bitPos, n, v % Pow2(n), x);
    assert mixed[bytePos := x] == buf[bytePos := x];
  }

  lemma SpillValue(buf: seq<byte>, bytePos: nat, bitPos: nat, n: nat, v: byte, x: byte, y: byte)
    requires bytePos + 1 < |buf| && bitPos < 8 && n <= 8 < bitPos + n && Clean(buf, bytePos, bitPos, 8)
    requires var k := bitPos + n - 8; x == Or(buf[bytePos], Shr(v, k)) && y == Or(buf[bytePos + 1], ShlByte(v, 8 - k))
    ensures var k := bitPos + n - 8; var buf' := buf[bytePos := x][bytePos + 1 := y];
            && Clean(buf', bytePos + 1, k, 8)
            && Filled(buf', bytePos + 1, k, 8) == Write(Filled(buf, bytePos, bitPos, 8), v, n)
  {
    hide ToBits, Or, Shr, Pow2, Concat, Filled, Clean, Aligned, Write, MixedIn, ShlByte;
    var mixed := MixBuffer(buf, bytePos, bitPos, n, v);
    CellAligned(buf, bytePos, bitPos, 8);
    MixSpills(buf[bytePos], v, bitPos, n);
    CutNumber(v, n);
    SpillStep(mixed, bytePos, bitPos, n, v % Pow2(n), x, y);
    assert mixed[bytePos := x][bytePos + 1 := y] == buf[bytePos := x][bytePos + 1 := y];
  }

  lemma CleanBeyond(buf: seq<byte>, bytePos: nat, bitPos: nat)
    requires bytePos + 1 < |buf| && bitPos <= 8 && Clean(buf, bytePos, bitPos, 8)
    ensures buf[bytePos + 1] == 0
  {
  }

  lemma OrNothing(y: nat)
    ensures Or(0, y) == y
  {
  }

  /** A value that does not fit its byte does not spill over the end of the block. */
  lemma BlockNotFull(size: nat, bytePos: nat, bitPos: nat, n: nat, values: nat)
    requires IsByteBlock(n, size) && bytePos < size && 8 < bitPos + n && values * n == bytePos * 8 + bitPos
    requires bitPos < 8
    ensures bytePos + 1 < size
  {
    var c := (8 * size) / n;
    assert c * n == 8 * size;
    if bytePos + 1 == size {
      MulStrict(values, c, n);
      MulStrict(c, values + 1, n);
      MulDistributes(values, 1, n);
    }
  }

  ghost predicate IsByteBlock(n: nat, size: nat) {
    0 < size && 0 < n && (8 * size) % n == 0
  }

  /** `IsolatedInitialize`, which throws for a base that is not 2 to the 1, ..., 7. */
  method InitializeDecoder(lookup: seq<int>, log2Base: int) returns (decoder: BaseNDecoder?)
    requires |lookup| == 256
    ensures decoder == null <==> log2Base < 1 || log2Base > 7
    ensures decoder != null ==>
              && fresh(decoder) && decoder.Valid() && fresh(decoder.outBuf) && decoder.text == []
              && decoder.before == decoder.output == [] && decoder.lookup == lookup && decoder.bitsPerChar == log2Base
  {
    if log2Base <= 0 || log2Base >= 8 {
      return null;
    }
    decoder := new BaseNDecoder(lookup, log2Base);
  }

  class BaseNDecoder {
    const lookup: seq<int>
    const bitsPerChar: nat
    const outputBlockSize: nat
    const outBuf: array<byte>
    var bytePos: nat
    var bitPos: nat
    var output: seq<byte>

    // The output before the current message, the message so far, and how it has been digested:
    // the values and bytes of full blocks, and the values of the block in the buffer.
    ghost var before: seq<byte>
    ghost var text: seq<byte>
    ghost var flushed: seq<nat>
    ghost var bytes: seq<byte>
    ghost var inBlock: seq<nat>

    ghost predicate Configured()
      reads this
    {
      && 1 <= bitsPerChar <= 7 && |lookup| == 256
      && IsByteBlock(bitsPerChar, outputBlockSize) && outBuf.Length == outputBlockSize
    }

    ghost predicate Valid()
      reads this, outBuf
    {
      && Configured()
      && bytePos < outputBlockSize && bitPos < 8
      && (bytePos > 0 || bitPos > 0 ==> Clean(outBuf[..], bytePos, bitPos, 8))
      && Filled(outBuf[..], bytePos, bitPos, 8) == Scan(inBlock, bitsPerChar)
      && Flushed()
    }

    ghost predicate Flushed()
      requires Configured()
      reads this
    {
      && Concat(bytes, 8) == Scan(flushed, bitsPerChar)
      && output == before + bytes
      && Values(lookup, text) == flushed + inBlock
    }

    constructor (lookup: seq<int>, log2Base: nat)
      requires 1 <= log2Base <= 7 && |lookup| == 256
      ensures Valid() && fresh(outBuf) && text == [] && before == output == []
      ensures this.lookup == lookup && bitsPerChar == log2Base
    {
      this.lookup, bitsPerChar := lookup, log2Base;
      bytePos, bitPos, output := 0, 0, [];
      before, text, flushed, bytes, inBlock := [], [], [], [], [];
      var i := log2Base;
      while i % 8 != 0
        invariant 0 < i <= 8 * log2Base && i % log2Base == 0
        decreases 8 * log2Base - i
      {
        NextMultiple(i, log2Base);
        i := i + log2Base;
      }
      outputBlockSize := i / 8;
      outBuf := new byte[i / 8];
      new;
      assert outBuf[..0] == [];
    }

    /** Writes a value that fits the current byte. */
    method OrInto(value: byte)
      requires Configured() && bytePos < outputBlockSize && bitPos + bitsPerChar <= 8
      requires Clean(outBuf[..], bytePos, bitPos, 8)
      modifies outBuf
      ensures var p := bitPos + bitsPerChar;
              if p < 8 then
                Clean(outBuf[..], bytePos, p, 8)
                && Filled(outBuf[..], bytePos, p, 8)
                   == Write(Filled(old(outBuf[..]), bytePos, bitPos, 8), value, bitsPerChar)
              else
                Clean(outBuf[..], bytePos + 1, 0, 8)
                && Filled(outBuf[..], bytePos + 1, 0, 8)
                   == Write(Filled(old(outBuf[..]), bytePos, bitPos, 8), value, bitsPerChar)
    {
      hide Clean, Filled, Concat, ToBits, Or, Shr, Pow2, IsByteBlock, ShlByte, Write;
      ghost var buf: seq<byte> := outBuf[..];
      FitByte(buf[bytePos], value, bitPos, bitsPerChar);
      var x: byte := Or(outBuf[bytePos], ShlByte(value, 8 - bitPos - bitsPerChar));
      FitValue(buf, bytePos, bitPos, bitsPerChar, value, x);
      outBuf[bytePos] := x;
      assert outBuf[..] == buf[bytePos := x];
    }

    /** Writes a value that spills over into the next byte. */
    method OrAcross(value: byte)
      requires Configured() && bytePos + 1 < outputBlockSize && bitPos < 8 < bitPos + bitsPerChar
      requires Clean(outBuf[..], bytePos, bitPos, 8)
      modifies outBuf
      ensures var p := bitPos + bitsPerChar - 8;
              Clean(outBuf[..], bytePos + 1, p, 8)
              && Filled(outBuf[..], bytePos + 1, p, 8)
                 == Write(Filled(old(outBuf[..]), bytePos, bitPos, 8), value, bitsPerChar)
    {
      hide Clean, Filled, Concat, ToBits, Or, Shr, ShlByte, Pow2, IsByteBlock, Write;
      ghost var buf: seq<byte> := outBuf[..];
      var newBitPos := bitPos + bitsPerChar;
      OrBytes(outBuf[bytePos], value, newBitPos - 8);
      var x: byte := Or(outBuf[bytePos], Shr(value, newBitPos - 8));
      OrNothing(ShlByte(value, 16 - newBitPos));
      CleanBeyond(buf, bytePos, bitPos);
      var y: byte := Or(outBuf[bytePos + 1], ShlByte(value, 16 - newBitPos));
      SpillValue(buf, bytePos, bitPos, bitsPerChar, value, x, y);
      outBuf[bytePos] := x;
      outBuf[bytePos + 1] := y;
      assert outBuf[..] == buf[bytePos := x][bytePos + 1 := y];
    }

    /** Writes the bits of one value into the buffer. */
    method DecodeValue(value: byte)
      requires Configured() && bytePos < outputBlockSize && bitPos < 8
      requires Clean(outBuf[..], bytePos, bitPos, 8)
      requires Filled(outBuf[..], bytePos, bitPos, 8) == Scan(inBlock, bitsPerChar)
      modifies `bytePos, `bitPos, `inBlock, outBuf
      ensures inBlock == old(inBlock) + [value]
      ensures bitPos < 8 && (bytePos < outputBlockSize || (bytePos == outputBlockSize && bitPos == 0))
      ensures Clean(outBuf[..], bytePos, bitPos, 8)
      ensures Filled(outBuf[..], bytePos, bitPos, 8) == Scan(inBlock, bitsPerChar)
    {
      hide Clean, Filled, Concat, ToBits, Or, Shr, ShlByte, Pow2, IsByteBlock, Values, Scan, Write;
      ghost var buf := outBuf[..];
      FilledLength(buf, bytePos, bitPos, 8);
      ScanLength(inBlock, bitsPerChar);
      ScanNext(inBlock, value, bitsPerChar);
      var newBitPos := bitPos + bitsPerChar;
      if newBitPos <= 8 {
        OrInto(value);
      } else {
        BlockNotFull(outputBlockSize, bytePos, bitPos, bitsPerChar, |inBlock|);
        OrAcross(value);
      }
      inBlock := inBlock + [value];
      bitPos := newBitPos;
      if bitPos >= 8 {
        bitPos := bitPos - 8;
        bytePos := bytePos + 1;
      }
    }

    /** Puts out a full block. */
    method FlushBlock()
      requires Configured() && Flushed() && 0 < bytePos == outputBlockSize && bitPos == 0
      requires Clean(outBuf[..], bytePos, 0, 8)
      requires Filled(outBuf[..], bytePos, 0, 8) == Scan(inBlock, bitsPerChar)
      modifies this
      ensures Valid() && before == old(before) && text == old(text)
      ensures Extends(output, old(output))
    {
      hide Clean, Filled, Concat, IsByteBlock, Values, Scan;
      output := output + outBuf[..];
      bytePos, bitPos := 0, 0;
      FilledWhole(outBuf[..]);
      ConcatAppend(bytes, outBuf[..], 8);
      ConcatLength(bytes, 8);
      ScanAppend(flushed, inBlock, bitsPerChar);
      bytes, flushed, inBlock := bytes + outBuf[..], flushed + inBlock, [];
      FilledEmpty(outBuf[..], bitsPerChar);
    }

    /** Puts out the whole bytes of the last block. */
    method FinishMessage()
      requires Valid()
      modifies this
      ensures Valid() && text == [] && output == before
      ensures output == old(before) + Decode(lookup, bitsPerChar, old(text))
      ensures Extends(output, old(output))
    {
      hide Clean, Filled, Concat, IsByteBlock, Values, Decode, Pow2, Scan;
      ghost var rest := LastBytes(outBuf[..], bytePos, bitPos);
      ConcatAppend(bytes, outBuf[..bytePos], 8);
      ConcatLength(bytes, 8);
      ScanAppend(flushed, inBlock, bitsPerChar);
      AppendAssociates(Concat(bytes, 8), Concat(outBuf[..bytePos], 8), rest);
      DecodeIs(lookup, bitsPerChar, text, bytes + outBuf[..bytePos], rest);
      output := output + outBuf[..bytePos];
      assert output == before + (bytes + outBuf[..bytePos]);
      bytePos, bitPos := 0, 0;
      before, text, flushed, bytes, inBlock := output, [], [], [], [];
      FilledEmpty(outBuf[..], bitsPerChar);
      NoValues(lookup, bitsPerChar);
      assert output == before + [];
    }

    /** Takes in a piece of the text, which may be its last. */
    method Put(begin: seq<byte>, messageEnd: bool)
      requires Valid()
      modifies this, outBuf
      ensures Valid()
      ensures !messageEnd ==> before == old(before) && text == old(text) + begin
      ensures messageEnd ==> text == [] && output == before
      ensures messageEnd ==> output == old(before) + Decode(lookup, bitsPerChar, old(text) + begin)
      ensures Extends(output, old(output))
    {
      hide Clean, Filled, Concat, IsByteBlock, Values, Decode, Scan;
      var inputPosition := 0;
      while inputPosition < |begin|
        invariant inputPosition <= |begin| && Valid() && before == old(before)
        invariant text == old(text) + begin[..inputPosition] && Extends(output, old(output))
      {
        var c := begin[inputPosition];
        var value := Unsigned(lookup[c]);
        assert begin[..inputPosition + 1] == begin[..inputPosition] + [c];
        inputPosition := inputPosition + 1;
        NextValue(lookup, text, c);
        text := text + [c];
        if value >= 256 {
          continue;
        }
        assert Values(lookup, text) == flushed + (inBlock + [value]);
        if bytePos == 0 && bitPos == 0 {
          FilledEmpty(outBuf[..], bitsPerChar);
          forall i | 0 <= i < outBuf.Length {
            outBuf[i] := 0;
          }
          ZeroBuffer(outBuf[..]);
          FilledEmpty(outBuf[..], bitsPerChar);
        }
        DecodeValue(value);
        if bytePos == outputBlockSize {
          FlushBlock();
        }
      }
      assert begin[..|begin|] == begin;
      if messageEnd {
        FinishMessage();
      }
    }
  }

  lemma FilledWhole(buf: seq<byte>)
    ensures Filled(buf, |buf|, 0, 8) == Concat(buf, 8)
  {
    assert buf[..|buf|] == buf;
    assert Concat(buf, 8) + [] == Concat(buf, 8);
  }

  lemma FilledEmpty(buf: seq<byte>, n: nat)
    ensures Filled(buf, 0, 0, 8) == [] == Scan([], n)
  {
    assert buf[..0] == [];
  }

  lemma ZeroBuffer(buf: seq<byte>)
    requires |buf| > 0 && forall i :: 0 <= i < |buf| ==> buf[i] == 0
    ensures Clean(buf, 0, 0, 8)
  {
    ShrZero(8);
    assert Pow2(0) == 1;
  }

  lemma NoValues(lookup: seq<int>, n: nat)
    requires |lookup| == 256
    ensures Values(lookup, []) == [] && Concat([], 8) == [] == Scan([], n)
  {
  }

  lemma NextValue(lookup: seq<int>, s: seq<byte>, c: byte)
    requires |lookup| == 256
    ensures var value := Unsigned(lookup[c]);
            Values(lookup, s + [c]) == Values(lookup, s) + if value >= 256 then [] else [value]
  {
    assert (s + [c])[..|s|] == s;
  }

  lemma LastBytes(buf: seq<byte>, bytePos: nat, bitPos: nat) returns (rest: seq<bool>)
    requires bytePos < |buf| && bitPos < 8
    ensures |rest| < 8 && Filled(buf, bytePos, bitPos, 8) == Concat(buf[..bytePos], 8) + rest
  {
    rest := if bitPos == 0 then [] else ToBits(Shr(buf[bytePos], 8 - bitPos), bitPos);
  }

  lemma DecodeIs(lookup: seq<int>, n: nat, s: seq<byte>, decoded: seq<byte>, rest: seq<bool>)
    requires |lookup| == 256 && |rest| < 8 && Scan(Values(lookup, s), n) == Concat(decoded, 8) + rest
    ensures Decode(lookup, n, s) == decoded
  {
    WholeBytesOf(decoded, rest);
  }

  lemma ScanNext(s: seq<nat>, v: nat, n: nat)
    ensures Scan(s + [v], n) == Write(Scan(s, n), v, n)
  {
    assert (s + [v])[..|s|] == s;
  }

  lemma OrBytes(x: byte, v: byte, k: nat)
    ensures Or(x, Shr(v, k)) < 256
  {
    hide Or, Shr;
    ByteBound();
    ShrBounded(v, 8, 0);
    ShrSmaller(v, k);
    OrBounded(x, Shr(v, k), 8);
  }

  lemma FitByte(x: byte, v: byte, p: nat, n: nat)
    requires p + n <= 8
    ensures Or(x, ShlByte(v, 8 - p - n)) < 256
  {
    hide Or, ShlByte;
    ByteBound();
    OrBounded(x, ShlByte(v, 8 - p - n), 8);
  }

  lemma {:induction false} ShrSmaller(v: nat, k: nat)
    ensures Shr(v, k) <= v
  {
    if k > 0 {
      ShrSmaller(v, k - 1);
    }
  }

  lemma NextMultiple(i: nat, n: nat)
    requires n > 0 && i % n == 0 && i <= 8 * n && i % 8 != 0
    ensures (i + n) % n == 0 && i + n <= 8 * n
  {
    AddMultiple(i, 1, n);
    var q := i / n;
    assert i == q * n;
    MulStrict(q, 8, n);
    MulStrict(q + 1, 8, n);
    MulDistributes(q, 1, n);
  }

  // Lookup tables

  predicate IsAlpha(c: byte) {
    65 <= c <= 90 || 97 <= c <= 122
  }

  function ToUpper(c: byte): byte {
    if 97 <= c <= 122 then c - 32 else c
  }

  function ToLower(c: byte): byte {
    if 65 <= c <= 90 then c + 32 else c
  }

  /** Upper and lower case in ASCII. */
  lemma CaseOfLetters(k: nat, c: byte)
    requires k < 26
    ensures var upper, lower := 'A' as int + k, 'a' as int + k;
            && ToUpper(lower) == upper == ToUpper(upper) && ToLower(upper) == lower == ToLower(lower)
            && (c != lower ==> ToUpper(c) == upper ==> c == upper)
    ensures IsAlpha(c) <==> 'A' as int <= c <= 'Z' as int || 'a' as int <= c <= 'z' as int
    ensures !IsAlpha(c) ==> ToUpper(c) == c == ToLower(c)
  {
  }

  /** Whether c is read as the letter a. */
  predicate ReadAs(c: byte, a: byte, caseInsensitive: bool) {
    if caseInsensitive && IsAlpha(a) then c == ToUpper(a) || c == ToLower(a) else c == a
  }

  /** The last letter of the alphabet that c is read as, or -1. */
  function LookupOf(alphabet: seq<byte>, caseInsensitive: bool, c: byte): (k: int)
    ensures -1 <= k < |alphabet|
    ensures k >= 0 ==> ReadAs(c, alphabet[k], caseInsensitive)
    ensures forall j :: k < j < |alphabet| ==> !ReadAs(c, alphabet[j], caseInsensitive)
  {
    var last := |alphabet| - 1;
    if last < 0 then -1
    else if ReadAs(c, alphabet[last], caseInsensitive) then last
    else LookupOf(alphabet[..last], caseInsensitive, c)
  }

  ghost predicate IsTable(lookup: seq<int>, alphabet: seq<byte>, caseInsensitive: bool) {
    |lookup| == 256 && forall c: byte :: lookup[c] == LookupOf(alphabet, caseInsensitive, c)
  }

  method InitializeDecodingLookupArray(lookup: array<int>, alphabet: seq<byte>, base: nat, caseInsensitive: bool)
    requires lookup.Length == 256 && base <= |alphabet|
    modifies lookup
    ensures IsTable(lookup[..], alphabet[..base], caseInsensitive)
  {
    forall c | 0 <= c < 256 {
      lookup[c] := -1;
    }
    for i := 0 to base
      invariant forall c: byte :: lookup[c] == LookupOf(alphabet[..i], caseInsensitive, c)
    {
      assert alphabet[..i + 1][..i] == alphabet[..i];
      if caseInsensitive && IsAlpha(alphabet[i]) {
        lookup[ToUpper(alphabet[i])] := i;
        lookup[ToLower(alphabet[i])] := i;
      } else {
        lookup[alphabet[i]] := i;
      }
    }
  }

  /** No byte is read as two letters. */
  ghost predicate Distinct(alphabet: seq<byte>, caseInsensitive: bool) {
    forall i, j :: 0 <= i < |alphabet| && 0 <= j < |alphabet| && ReadAs(alphabet[i], alphabet[j], caseInsensitive)
      ==> i == j
  }

  ghost predicate Outside(s: seq<byte>, alphabet: seq<byte>, caseInsensitive: bool) {
    forall i, j :: 0 <= i < |s| && 0 <= j < |alphabet| ==> !ReadAs(s[i], alphabet[j], caseInsensitive)
  }

  /** The table of an alphabet of at most 128 letters is a decoder's table. */
  lemma TableIsLookup(lookup: seq<int>, alphabet: seq<byte>, caseInsensitive: bool, n: nat)
    requires IsTable(lookup, alphabet, caseInsensitive) && |alphabet| == Pow2(n) && n <= 7
    ensures IsLookup(lookup, n)
  {
    CellIsByte(n);
    forall c | 0 <= c < 256 ensures Unsigned(lookup[c]) < Pow2(n) || Unsigned(lookup[c]) >= 256 {
      var b: byte := c;
      assert lookup[b] == LookupOf(alphabet, caseInsensitive, b);
    }
  }

  lemma {:induction false} ValuesOutside(lookup: seq<int>, alphabet: seq<byte>, caseInsensitive: bool, s: seq<byte>)
    requires IsTable(lookup, alphabet, caseInsensitive) && Outside(s, alphabet, caseInsensitive)
    ensures Values(lookup, s) == []
  {
    if |s| > 0 {
      var c := s[|s| - 1];
      assert lookup[c] == LookupOf(alphabet, caseInsensitive, c) == -1;
      ValuesOutside(lookup, alphabet, caseInsensitive, s[..|s| - 1]);
    }
  }

  /** The table of a case-insensitive alphabet reads both cases alike. */
  lemma {:induction false} CaseDoesNotMatter(alphabet: seq<byte>, c: byte)
    ensures LookupOf(alphabet, true, ToLower(c)) == LookupOf(alphabet, true, c)
  {
    if |alphabet| > 0 {
      var a := alphabet[|alphabet| - 1];
      assert ReadAs(ToLower(c), a, true) == ReadAs(c, a, true);
      CaseDoesNotMatter(alphabet[..|alphabet| - 1], c);
    }
  }

  lemma {:induction false} DecodeIgnoresCase(lookup: seq<int>, alphabet: seq<byte>, n: nat, s: seq<byte>, t: seq<byte>)
    requires |lookup| == 256 && IsTable(lookup, alphabet, true)
    requires |s| == |t| && forall i :: 0 <= i < |s| ==> ToLower(s[i]) == ToLower(t[i])
    ensures Values(lookup, s) == Values(lookup, t) && Decode(lookup, n, s) == Decode(lookup, n, t)
  {
    hide ToLower, Values, WholeBytes, Unsigned, IsTable;
    if |s| > 0 {
      var m := |s| - 1;
      DecodeIgnoresCase(lookup, alphabet, n, s[..m], t[..m]);
      SameEntry(lookup, alphabet, s[m], t[m]);
      assert s == s[..m] + [s[m]] && t == t[..m] + [t[m]];
      NextValue(lookup, s[..m], s[m]);
      NextValue(lookup, t[..m], t[m]);
    }
  }

  lemma SameEntry(lookup: seq<int>, alphabet: seq<byte>, c: byte, d: byte)
    requires IsTable(lookup, alphabet, true) && ToLower(c) == ToLower(d)
    ensures lookup[c] == lookup[d]
  {
    hide LookupOf;
    CaseDoesNotMatter(alphabet, c);
    CaseDoesNotMatter(alphabet, d);
  }
}
