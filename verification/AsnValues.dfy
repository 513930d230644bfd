/** ASN.1 object identifiers and unsigned numbers. */
module AsnValues {
  import opened Arithmetic
  import opened BitStrings
  import opened Sequences
  import opened AsnLengths

  const WORD32_LIMIT: nat := 0x1_0000_0000

  // Arcs of object identifiers, section 8.19 of ITU-T X.690

  /** The base-128 digits of v, each with the bit that announces another one. */
  function ArcHead(v: nat): seq<byte> {
    if v == 0 then [] else ArcHead(v / 128) + [128 + v % 128]
  }

  function EncodeArc(v: nat): (s: seq<byte>)
    ensures |s| > 0
  {
    ArcHead(v / 128) + [v % 128]
  }

  /** The least multiple of 7 that is not less than n. */
  function RoundUp7(n: nat): (m: nat)
    ensures m % 7 == 0 && n <= m < n + 7
  {
    (n + 6) - (n + 6) % 7
  }

  lemma ShiftBy7(v: nat, i: nat)
    ensures Shr(v, i + 7) == Shr(v, i) / 128
  {
    ShrShr(v, i, 7);
    ShrIsDiv(Shr(v, i), 7);
    assert Pow2(3) == 8;
  }

  /** `OID::EncodeValue` */
  method EncodeValue(bt: ByteQueue, v: nat)
    modifies bt
    ensures bt.data == old(bt.data) + EncodeArc(v)
  {
    hide ArcHead, Shr, BitCount;
    var i: nat := RoundUp7(if BitCount(v) > 7 then BitCount(v) else 7) - 7;
    FirstDigit(v, i);
    while i != 0
      invariant i % 7 == 0 && (i == 0 || i < BitCount(v))
      invariant bt.data == old(bt.data) + ArcHead(Shr(v, i + 7))
      decreases i
    {
      hide RoundUp7;
      NextDigit(v, i);
      bt.Put(0x80 + Shr(v, i) % 128);
      i := i - 7;
    }
    LastDigit(v);
    bt.Put(v % 128);
  }

  lemma FirstDigit(v: nat, i: nat)
    requires BitCount(v) <= i + 7
    ensures ArcHead(Shr(v, i + 7)) == []
  {
    hide BitCount;
    ShrVanishes(v, i + 7);
  }

  lemma NextDigit(v: nat, i: nat)
    requires i < BitCount(v)
    ensures ArcHead(Shr(v, i)) == ArcHead(Shr(v, i + 7)) + [128 + Shr(v, i) % 128]
  {
    hide BitCount, Shr;
    ShrVanishes(v, i);
    ShiftBy7(v, i);
  }

  lemma LastDigit(v: nat)
    ensures Shr(v, 7) == v / 128
  {
    ShiftBy7(v, 0);
  }

  /** Reads digits onto v, giving up before an overflow of 32 bits or at the end of the input; with the rest. */
  function FoldArc(s: seq<byte>, v: nat): Option<(nat, seq<byte>)> {
    if |s| == 0 || v >= 0x200_0000 then None
    else
      var next := v * 128 + s[0] % 128;
      if s[0] < 128 then Some((next, s[1..])) else FoldArc(s[1..], next)
  }

  /** `OID::DecodeValue`; not ok where the source throws. */
  method DecodeValue(bt: ByteQueue) returns (ok: bool, v: nat, count: nat)
    modifies bt
    ensures ok <==> FoldArc(old(bt.data), 0).Some?
    ensures ok ==> FoldArc(old(bt.data), 0) == Some((v, bt.data)) && count == |old(bt.data)| - |bt.data| > 0
  {
    v, count := 0, 0;
    while true
      invariant FoldArc(bt.data, v) == FoldArc(old(bt.data), 0)
      invariant count == |old(bt.data)| - |bt.data|
      decreases |bt.data|
    {
      var b := bt.Get();
      if b == None {
        return false, v, count;
      }
      count := count + 1;
      if v >= 0x200_0000 {
        return false, v, count;
      }
      v := v * 128 + b.value % 128;
      if b.value < 128 {
        return true, v, count;
      }
    }
  }

  lemma {:induction false} FoldHead(u: nat, t: seq<byte>)
    requires u < 0x200_0000
    ensures FoldArc(ArcHead(u) + t, 0) == FoldArc(t, u)
  {
    if u == 0 {
      assert ArcHead(0) + t == t;
    } else {
      var d: byte := 128 + u % 128;
      FoldHead(u / 128, [d] + t);
      assert ArcHead(u) + t == ArcHead(u / 128) + ([d] + t);
      assert ([d] + t)[1..] == t;
    }
  }

  /** Every arc of 32 bits survives the round trip, whatever follows it. */
  lemma ArcRoundTrip(v: nat, rest: seq<byte>)
    requires v < WORD32_LIMIT
    ensures FoldArc(EncodeArc(v) + rest, 0) == Some((v, rest))
  {
    FoldHead(v / 128, [v % 128] + rest);
    assert EncodeArc(v) + rest == ArcHead(v / 128) + ([v % 128] + rest);
    assert ([v % 128] + rest)[1..] == rest;
  }

  /** The number of digits it takes to read v. */
  lemma {:induction false} ArcsAreShortest(s: seq<byte>, u: nat)
    requires FoldArc(s, u).Some?
    ensures var (v, rest) := FoldArc(s, u).value;
            |rest| < |s| && |ArcHead(v)| <= |ArcHead(u)| + |s| - |rest|
  {
    var next := u * 128 + s[0] % 128;
    assert next / 128 == u && next % 128 == s[0] % 128;
    assert |ArcHead(next)| <= |ArcHead(u)| + 1;
    if s[0] >= 128 {
      ArcsAreShortest(s[1..], next);
    }
  }

  /** No other digits for v are shorter. */
  lemma EncodeArcIsShortest(s: seq<byte>)
    requires FoldArc(s, 0).Some?
    ensures var (v, rest) := FoldArc(s, 0).value; |EncodeArc(v)| <= |s| - |rest|
  {
    var (v, rest) := FoldArc(s, 0).value;
    ArcsAreShortest(s, 0);
    if v > 0 {
      assert |ArcHead(v)| == |EncodeArc(v)|;
    }
  }

  // Object identifiers

  const OBJECT_IDENTIFIER: byte := 6

  function EncodeArcs(values: seq<nat>): seq<byte> {
    if |values| == 0 then [] else EncodeArcs(values[..|values| - 1]) + EncodeArc(values[|values| - 1])
  }

  /** The contents octets: the first two arcs share an octet. */
  function OidContents(values: seq<nat>): (s: seq<byte>)
    requires |values| >= 2
    ensures |s| > 0
  {
    [(values[0] * 40 + values[1]) % 256] + EncodeArcs(values[2..])
  }

  function EncodeOid(values: seq<nat>): (s: seq<byte>)
    requires |values| >= 2 && |OidContents(values)| < LWORD_LIMIT
  {
    [OBJECT_IDENTIFIER] + EncodeLength(|OidContents(values)|) + OidContents(values)
  }

  /** `OID::DEREncode` */
  method DerEncodeOid(bt: ByteQueue, values: seq<nat>)
    requires |values| >= 2 && |OidContents(values)| < LWORD_LIMIT
    modifies bt
    ensures bt.data == old(bt.data) + EncodeOid(values)
  {
    hide EncodeArc, EncodeLength;
    var temp := new ByteQueue();
    temp.Put((values[0] * 40 + values[1]) % 256);
    assert values[2..2] == [];
    for i := 2 to |values|
      invariant bt.data == old(bt.data)
      invariant temp.data == [(values[0] * 40 + values[1]) % 256] + EncodeArcs(values[2..i])
    {
      EncodeValue(temp, values[i]);
      assert values[2..i + 1][..i - 2] == values[2..i];
    }
    assert values[2..|values|] == values[2..];
    bt.Put(OBJECT_IDENTIFIER);
    var lengthOctets := DerLengthEncode(bt, |temp.data|);
    bt.data := bt.data + temp.data;
    assert bt.data == old(bt.data) + EncodeOid(values);
  }

  /** Reads arcs until exactly length octets have been used up; with the rest. */
  function DecodeArcs(s: seq<byte>, length: nat): Option<(seq<nat>, seq<byte>)>
    decreases length
  {
    if length == 0 then Some(([], s))
    else
      match FoldArc(s, 0)
      case None => None
      case Some((v, rest)) =>
        var used := |s| - |rest|;
        if used <= 0 || used > length then None
        else
          Prefixed([v], DecodeArcs(rest, length - used))
  }

  /** What `OID::BERDecode` makes of the input, with the rest of it. */
  function DecodeOid(s: seq<byte>): Option<(seq<nat>, seq<byte>)> {
    if |s| == 0 || s[0] != OBJECT_IDENTIFIER then None
    else
      match DecodeLength(s[1..])
      case Malformed => None
      case Indefinite => None
      case Definite(length, octets) =>
        if length < 1 || |s| - 1 <= octets then None
        else
          var b := s[1 + octets];
          Prefixed([b / 40, b % 40], DecodeArcs(s[2 + octets..], length - 1))
  }

  /** `OID::BERDecode`; not ok where the source throws. */
  method BerDecodeOid(bt: ByteQueue) returns (ok: bool, values: seq<nat>)
    modifies bt
    ensures ok <==> DecodeOid(old(bt.data)).Some?
    ensures ok ==> DecodeOid(old(bt.data)) == Some((values, bt.data))
  {
    hide DecodeLength, FoldArc;
    values := [];
    ghost var s := bt.data;
    var b := bt.Get();
    if b == None || b.value != OBJECT_IDENTIFIER {
      return false, values;
    }
    var known, length, definite;
    known, length, definite := BerLengthDecode(bt);
    if !known || !definite || length < 1 {
      return false, values;
    }
    ghost var octets := DecodeLength(s[1..]).octets;
    assert bt.data == s[1 + octets..];
    b := bt.Get();
    if b == None {
      return false, values;
    }
    length := length - 1;
    assert bt.data == s[2 + octets..];
    var arcs;
    ok, arcs := BerDecodeArcs(bt, length);
    values := [b.value / 40, b.value % 40] + arcs;
  }

  method BerDecodeArcs(bt: ByteQueue, length0: nat) returns (ok: bool, values: seq<nat>)
    modifies bt
    ensures ok <==> DecodeArcs(old(bt.data), length0).Some?
    ensures ok ==> DecodeArcs(old(bt.data), length0) == Some((values, bt.data))
  {
    hide FoldArc;
    var length := length0;
    values := [];
    PrefixedNothing(DecodeArcs(bt.data, length));
    while length > 0
      invariant DecodeArcs(old(bt.data), length0) == Prefixed(values, DecodeArcs(bt.data, length))
      decreases length
    {
      ghost var s := bt.data;
      var v, valueLen;
      ok, v, valueLen := DecodeValue(bt);
      if !ok {
        return false, values;
      }
      if valueLen > length {
        return false, values;
      }
      PrefixedMore(values, v, DecodeArcs(bt.data, length - valueLen));
      values := values + [v];
      length := length - valueLen;
    }
    ok := true;
    assert values + [] == values;
  }

  lemma PrefixedNothing(r: Option<(seq<nat>, seq<byte>)>)
    ensures Prefixed([], r) == r
  {
    match r
    case None =>
    case Some((more, end)) => assert [] + more == more;
  }

  function Prefixed(values: seq<nat>, r: Option<(seq<nat>, seq<byte>)>): Option<(seq<nat>, seq<byte>)> {
    match r
    case None => None
    case Some((more, end)) => Some((values + more, end))
  }

  lemma PrefixedMore(values: seq<nat>, v: nat, r: Option<(seq<nat>, seq<byte>)>)
    ensures Prefixed(values, Prefixed([v], r)) == Prefixed(values + [v], r)
  {
    match r
    case None =>
    case Some((more, end)) => assert values + ([v] + more) == (values + [v]) + more;
  }

  /** Encoded arcs are decoded, whatever follows them. */
  lemma {:induction false} ArcsRoundTrip(values: seq<nat>, done: nat, rest: seq<byte>)
    requires done <= |values| && forall i :: 0 <= i < |values| ==> values[i] < WORD32_LIMIT
    ensures DecodeArcs(EncodeArcs(values[done..]) + rest, |EncodeArcs(values[done..])|) == Some((values[done..], rest))
    decreases |values| - done
  {
    hide FoldArc, EncodeArc;
    var tail := values[done..];
    if tail == [] {
      assert EncodeArcs(tail) + rest == rest;
    } else {
      ArcsRoundTrip(values, done + 1, rest);
      assert tail[1..] == values[done + 1..];
      EncodeArcsHead(tail);
      var more := EncodeArcs(tail[1..]) + rest;
      ArcRoundTrip(tail[0], more);
      assert EncodeArcs(tail) + rest == EncodeArc(tail[0]) + more;
      assert [tail[0]] + tail[1..] == tail;
    }
  }

  lemma {:induction false} EncodeArcsHead(values: seq<nat>)
    requires |values| > 0
    ensures EncodeArcs(values) == EncodeArc(values[0]) + EncodeArcs(values[1..])
  {
    hide EncodeArc;
    var m := |values| - 1;
    if m == 0 {
      assert values[..0] == [] && values[1..] == [];
    } else {
      EncodeArcsHead(values[..m]);
      assert values[..m][1..] == values[1..][..m - 1];
    }
  }

  /** What an encoded identifier is decoded to: exactly its octets are used, and the first two arcs come back as their
      shared octet has them. */
  lemma OidDecoded(values: seq<nat>, rest: seq<byte>)
    requires |values| >= 2 && |OidContents(values)| < LWORD_LIMIT
    requires forall i :: 0 <= i < |values| ==> values[i] < WORD32_LIMIT
    ensures var b := (values[0] * 40 + values[1]) % 256;
            DecodeOid(EncodeOid(values) + rest) == Some(([b / 40, b % 40] + values[2..], rest))
  {
    hide EncodeArcs, DecodeArcs, EncodeLength, DecodeLength;
    var c := OidContents(values);
    var s := EncodeOid(values) + rest;
    assert s[1..] == EncodeLength(|c|) + (c + rest);
    LengthRoundTrip(|c|, c + rest);
    var octets := |EncodeLength(|c|)|;
    assert s[1 + octets..] == c + rest;
    assert s[1 + octets] == (c + rest)[0];
    assert s[2 + octets..] == (c + rest)[1..] == EncodeArcs(values[2..]) + rest;
    ArcsRoundTrip(values, 2, rest);
  }

  /** An object identifier survives the round trip exactly if its first two arcs can share an octet. */
  lemma OidRoundTrip(values: seq<nat>, rest: seq<byte>)
    requires |values| >= 2 && |OidContents(values)| < LWORD_LIMIT
    requires forall i :: 0 <= i < |values| ==> values[i] < WORD32_LIMIT
    ensures DecodeOid(EncodeOid(values) + rest) == Some((values, rest))
       <==> values[1] < 40 && values[0] * 40 + values[1] < 256
  {
    hide EncodeOid, DecodeOid;
    OidDecoded(values, rest);
    var b := (values[0] * 40 + values[1]) % 256;
    assert values == [values[0], values[1]] + values[2..];
    var back := [b / 40, b % 40] + values[2..];
    assert back[0] == b / 40 && back[1] == b % 40;
    if values[1] < 40 && values[0] * 40 + values[1] < 256 {
      DivModUnique(b, 40, values[0], values[1]);
    }
  }

  /** The arcs 1 and 40 come back as 2 and 0. */
  lemma OidFails(rest: seq<byte>)
    ensures |OidContents([1, 40])| < LWORD_LIMIT && DecodeOid(EncodeOid([1, 40]) + rest) == Some(([2, 0], rest))
  {
    hide DecodeOid, EncodeOid;
    assert [1, 40][2..] == [] && EncodeArcs([]) == [];
    assert |OidContents([1, 40])| == 1;
    OidDecoded([1, 40], rest);
    assert [2, 0] + [] == [2, 0];
  }

  // Unsigned numbers, section 8.3 of ITU-T X.690

  const BOOLEAN: byte := 1

  /** The shortest contents octets of a number that is not negative. */
  function UnsignedContents(w: nat): (s: seq<byte>)
    ensures 0 < |s| <= |Octets(w)| + 1
  {
    if w == 0 then [0] else if Octets(w)[0] >= 128 then [0] + Octets(w) else Octets(w)
  }

  /** The last n octets of w. */
  function Fixed(w: nat, n: nat): (s: seq<byte>)
    ensures |s| == n
  {
    if n == 0 then [] else Fixed(w / 256, n - 1) + [w % 256]
  }

  lemma {:induction false} FixedIsOctets(w: nat, n: nat)
    requires |Octets(w)| <= n
    ensures Fixed(w, n)[n - |Octets(w)|..] == Octets(w)
    ensures forall i :: 0 <= i < n - |Octets(w)| ==> Fixed(w, n)[i] == 0
  {
    if n > 0 {
      FixedIsOctets(w / 256, n - 1);
    }
  }

  lemma {:induction false} FixedAt(w: nat, n: nat, i: nat)
    requires i < n
    ensures Fixed(w, n)[i] == ShrOctets(w, n - 1 - i) % 256
  {
    if i < n - 1 {
      FixedAt(w / 256, n - 1, i);
      ShrOctetsHead(w, n - 1 - i);
    }
  }

  lemma {:induction false} OctetsStart(w: nat)
    requires w > 0
    ensures |Octets(w)| > 0 && Octets(w)[0] > 0
  {
    if w >= 256 {
      OctetsStart(w / 256);
    }
  }

  /** The contents octets under a tag: a BOOLEAN only tells zero from the rest. */
  function Contents(w: nat, tag: byte): (s: seq<byte>)
    ensures 0 < |s| <= |Octets(w)| + 1
  {
    if tag == BOOLEAN then [if w > 0 then 0xff else 0] else UnsignedContents(w)
  }

  function EncodeUnsigned(w: nat, tag: byte): (s: seq<byte>)
    requires |Octets(w)| <= 8
  {
    [tag] + EncodeLength(|Contents(w, tag)|) + Contents(w, tag)
  }

  /** `DEREncodeUnsigned` for a type of size bytes. */
  method DerEncodeUnsigned(bt: ByteQueue, w: nat, size: nat, tag: byte) returns (count: nat)
    requires 0 < size <= 8 && |Octets(w)| <= size
    modifies bt
    ensures bt.data == old(bt.data) + EncodeUnsigned(w, tag) && count == |EncodeUnsigned(w, tag)|
  {
    hide EncodeLength, UnsignedContents, Octets, Fixed;
    var buf := new byte[size + 1];
    var bc;
    if tag == BOOLEAN {
      buf[size] := if w > 0 then 0xff else 0;
      bc := 1;
      assert buf[size + 1 - bc..] == Contents(w, tag);
    } else {
      bc := PutContents(buf, w, size);
    }
    bt.Put(tag);
    var lengthOctets := DerLengthEncode(bt, bc);
    bt.data := bt.data + buf[size + 1 - bc..];
    count := 1 + lengthOctets + bc;
    var c := Contents(w, tag);
    assert (old(bt.data) + [tag] + EncodeLength(|c|)) + c == old(bt.data) + ([tag] + EncodeLength(|c|) + c);
  }

  /** Puts the contents octets at the end of the buffer; gives their number. */
  method PutContents(buf: array<byte>, w: nat, size: nat) returns (bc: nat)
    requires buf.Length == size + 1 && size > 0 && |Octets(w)| <= size
    modifies buf
    ensures 0 < bc <= size + 1 && buf[size + 1 - bc..] == UnsignedContents(w)
  {
    hide Octets, Fixed, ShrOctets;
    PutAll(buf, w, size);
    bc := size;
    while bc > 1 && buf[size + 1 - bc] == 0
      invariant 0 < bc <= size && |Octets(w)| <= bc
      invariant buf[0] == 0 && buf[1..] == Fixed(w, size)
      decreases bc
    {
      assert buf[1..][size - bc] == 0;
      ZeroIsLeading(w, size, bc);
      bc := bc - 1;
    }
    ContentsFound(w, size, bc, buf[..]);
    if buf[size + 1 - bc] >= 0x80 {
      bc := bc + 1;
    }
  }

  /** Puts all the octets of the number after a zero. */
  method PutAll(buf: array<byte>, w: nat, size: nat)
    requires buf.Length == size + 1
    modifies buf
    ensures buf[0] == 0 && buf[1..] == Fixed(w, size)
  {
    hide Fixed, ShrOctets;
    buf[0] := 0;
    for i := 0 to size
      invariant buf[0] == 0 && forall k :: 0 <= k < i ==> buf[k + 1] == Fixed(w, size)[k]
    {
      FixedAt(w, size, i);
      buf[i + 1] := ShrOctets(w, size - 1 - i) % 256;
    }
  }

  lemma ZeroIsLeading(w: nat, size: nat, bc: nat)
    requires 0 < bc <= size && |Octets(w)| <= bc && Fixed(w, size)[size - bc] == 0
    ensures bc > |Octets(w)|
  {
    FixedIsOctets(w, size);
    if w > 0 {
      OctetsStart(w);
    }
  }

  lemma ContentsFound(w: nat, size: nat, bc: nat, buf: seq<byte>)
    requires |buf| == size + 1 && buf[0] == 0 && buf[1..] == Fixed(w, size)
    requires 0 < bc <= size && |Octets(w)| <= bc && (bc == 1 || buf[size + 1 - bc] != 0)
    ensures buf[size + 1 - (if buf[size + 1 - bc] >= 0x80 then bc + 1 else bc)..] == UnsignedContents(w)
  {
    hide Fixed, Octets;
    FixedIsOctets(w, size);
    var f := Fixed(w, size);
    assert buf[size + 1 - bc] == f[size - bc];
    if w == 0 {
      NoOctets();
      assert buf[size..] == [0];
    } else {
      OctetsStart(w);
      assert bc == |Octets(w)|;
      BufferEnds(buf, f, bc);
    }
  }

  lemma NoOctets()
    ensures Octets(0) == []
  {
  }

  lemma BufferEnds(buf: seq<byte>, f: seq<byte>, bc: nat)
    requires |buf| == |f| + 1 && buf[0] == 0 && buf[1..] == f && 0 < bc <= |f|
    requires forall i :: 0 <= i < |f| - bc ==> f[i] == 0
    ensures buf[|f| + 1 - bc..] == f[|f| - bc..] && buf[|f| - bc..] == [0] + f[|f| - bc..]
  {
    assert buf == [0] + f;
  }

  /** Leading zeros that do not fit are dropped. */
  function StripZeros(s: seq<byte>, size: nat): (r: seq<byte>)
    ensures |r| <= |s|
  {
    if |s| > size && s[0] == 0 then StripZeros(s[1..], size) else s
  }

  /** What `BERDecodeUnsigned` for a type of size bytes makes of the input, with the rest of it. */
  function DecodeUnsigned(s: seq<byte>, tag: byte, size: nat, minValue: nat, maxValue: nat): Option<(nat, seq<byte>)> {
    if |s| == 0 || s[0] != tag then None
    else
      match DecodeLength(s[1..])
      case Malformed => None
      case Indefinite => None
      case Definite(length, octets) =>
        if |s| - 1 < octets then None else DecodeContents(s[1 + octets..], length, size, minValue, maxValue)
  }

  function DecodeContents(s: seq<byte>, length: nat, size: nat, minValue: nat, maxValue: nat):
      Option<(nat, seq<byte>)>
  {
    if |s| < length then None
    else
      var c := StripZeros(s[..length], size);
      if |c| > size || OctetsValue(c) < minValue || OctetsValue(c) > maxValue then None
      else Some((OctetsValue(c), s[length..]))
  }

  method BerDecodeUnsigned(bt: ByteQueue, tag: byte, size: nat, minValue: nat, maxValue: nat) returns (ok: bool, w: nat)
    modifies bt
    ensures ok <==> DecodeUnsigned(old(bt.data), tag, size, minValue, maxValue).Some?
    ensures ok ==> DecodeUnsigned(old(bt.data), tag, size, minValue, maxValue) == Some((w, bt.data))
  {
    hide DecodeLength, DecodeContents;
    w := 0;
    ghost var s := bt.data;
    var b := bt.Get();
    if b == None || b.value != tag {
      return false, w;
    }
    var known, bc, definite;
    known, bc, definite := BerLengthDecode(bt);
    if !known || !definite {
      return false, w;
    }
    ghost var octets := DecodeLength(s[1..]).octets;
    assert bt.data == s[1 + octets..];
    ok, w := BerDecodeContents(bt, bc, size, minValue, maxValue);
  }

  method BerDecodeContents(bt: ByteQueue, bc: nat, size: nat, minValue: nat, maxValue: nat) returns (ok: bool, w: nat)
    modifies bt
    ensures ok <==> DecodeContents(old(bt.data), bc, size, minValue, maxValue).Some?
    ensures ok ==> DecodeContents(old(bt.data), bc, size, minValue, maxValue) == Some((w, bt.data))
  {
    hide OctetsValue, StripZeros;
    w := 0;
    if bc > |bt.data| {
      return false, w;
    }
    var ptr := DropZeros(bt.data[..bc], size);
    bt.data := bt.data[bc..];
    if |ptr| > size {
      return false, w;
    }
    w := Fold(ptr);
    ok := minValue <= w <= maxValue;
  }

  method DropZeros(contents: seq<byte>, size: nat) returns (ptr: seq<byte>)
    ensures ptr == StripZeros(contents, size)
  {
    ptr := contents;
    while |ptr| > size && ptr[0] == 0
      invariant StripZeros(ptr, size) == StripZeros(contents, size)
      decreases |ptr|
    {
      ptr := ptr[1..];
    }
  }

  method Fold(ptr: seq<byte>) returns (w: nat)
    ensures w == OctetsValue(ptr)
  {
    w := 0;
    for i := 0 to |ptr|
      invariant w == OctetsValue(ptr[..i])
    {
      assert ptr[..i + 1][..i] == ptr[..i];
      w := w * 256 + ptr[i];
    }
    assert ptr[..|ptr|] == ptr;
  }

  lemma {:induction false} ValueOfOctets(n: nat)
    ensures OctetsValue(Octets(n)) == n
  {
    if n > 0 {
      ValueOfOctets(n / 256);
      assert Octets(n)[..|Octets(n)| - 1] == Octets(n / 256);
    }
  }

  lemma {:induction false} ValueOfZero(s: seq<byte>)
    ensures OctetsValue([0] + s) == OctetsValue(s)
  {
    if |s| == 0 {
      assert ([0] + s)[..0] == [];
    } else {
      ValueOfZero(s[..|s| - 1]);
      assert ([0] + s)[..|s|] == [0] + s[..|s| - 1];
    }
  }

  lemma ContentsValue(w: nat, size: nat)
    requires 0 < size && |Octets(w)| <= size
    ensures var c := StripZeros(UnsignedContents(w), size); |c| <= size && OctetsValue(c) == w
  {
    hide OctetsValue;
    ValueOfOctets(w);
    ValueOfZero(Octets(w));
    ValueOfZero([]);
    assert [0] + [] == [0];
    if w == 0 {
      assert UnsignedContents(w) == [0] + Octets(w);
    } else {
      assert ([0] + Octets(w))[1..] == Octets(w);
      OctetsStart(w);
    }
  }

  /** What an encoded number is decoded to: exactly its octets are used, and it must be in range. */
  lemma UnsignedDecoded(w: nat, tag: byte, size: nat, minValue: nat, maxValue: nat, rest: seq<byte>)
    requires 0 < size <= 8 && |Octets(w)| <= size
    ensures var v := if tag == BOOLEAN then (if w > 0 then 0xff else 0) else w;
            DecodeUnsigned(EncodeUnsigned(w, tag) + rest, tag, size, minValue, maxValue)
            == if minValue <= v <= maxValue then Some((v, rest)) else None
  {
    hide EncodeLength, DecodeLength, OctetsValue, UnsignedContents, StripZeros, Octets;
    var c := Contents(w, tag);
    var s := EncodeUnsigned(w, tag) + rest;
    assert |c| < LWORD_LIMIT;
    assert s[1..] == EncodeLength(|c|) + (c + rest);
    LengthRoundTrip(|c|, c + rest);
    var octets := |EncodeLength(|c|)|;
    assert s[1 + octets..] == c + rest;
    assert (c + rest)[..|c|] == c && (c + rest)[|c|..] == rest;
    if tag == BOOLEAN {
      OneOctet(c, size);
    } else {
      ContentsValue(w, size);
    }
  }

  lemma OneOctet(c: seq<byte>, size: nat)
    requires |c| == 1 && size > 0
    ensures StripZeros(c, size) == c && OctetsValue(c) == c[0]
  {
    assert c[..0] == [];
  }

  /** A number survives the round trip exactly if it is in range and the tag is not BOOLEAN, or it is 0 or 255. */
  lemma UnsignedRoundTrip(w: nat, tag: byte, size: nat, minValue: nat, maxValue: nat, rest: seq<byte>)
    requires 0 < size <= 8 && |Octets(w)| <= size
    ensures DecodeUnsigned(EncodeUnsigned(w, tag) + rest, tag, size, minValue, maxValue) == Some((w, rest))
       <==> minValue <= w <= maxValue && (tag == BOOLEAN ==> w == 0 || w == 0xff)
  {
    hide EncodeUnsigned, DecodeUnsigned, Octets;
    UnsignedDecoded(w, tag, size, minValue, maxValue, rest);
  }

  /** Under BOOLEAN, 1 comes back as 255. */
  lemma BooleanFails(size: nat, rest: seq<byte>)
    requires 0 < size <= 8
    ensures |Octets(1)| == 1
            && DecodeUnsigned(EncodeUnsigned(1, BOOLEAN) + rest, BOOLEAN, size, 0, 0xff) == Some((0xff, rest))
  {
    hide EncodeUnsigned, DecodeUnsigned;
    assert Octets(1) == Octets(0) + [1];
    UnsignedDecoded(1, BOOLEAN, size, 0, 0xff, rest);
  }

  lemma {:induction false} FixedOfValue(s: seq<byte>)
    ensures Fixed(OctetsValue(s), |s|) == s && ShrOctets(OctetsValue(s), |s|) == 0
  {
    if |s| > 0 {
      var m := |s| - 1;
      FixedOfValue(s[..m]);
      assert OctetsValue(s) / 256 == OctetsValue(s[..m]) && OctetsValue(s) % 256 == s[m];
      ShrOctetsHead(OctetsValue(s), |s|);
      assert s == s[..m] + [s[m]];
    }
  }

  /** No other contents octets of the number, read with its sign, are shorter. */
  lemma UnsignedContentsIsShortest(s: seq<byte>)
    requires |s| > 0 && s[0] < 0x80
    ensures |UnsignedContents(OctetsValue(s))| <= |s|
  {
    hide Octets, Fixed, OctetsValue, ShrOctets;
    var w := OctetsValue(s);
    FixedOfValue(s);
    OctetsBounded(w, |s|);
    FixedIsOctets(w, |s|);
    if |Octets(w)| == |s| {
      assert s[0..] == s;
    }
  }
}
