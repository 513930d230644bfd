/** ASN.1 length octets: `DERLengthEncode` and `BERLengthDecode`. */
module AsnLengths {
  import opened BitStrings
  import opened Sequences

  /** What length octets announce, and how many octets they take. */
  datatype Length = Malformed | Indefinite | Definite(length: nat, octets: nat)

  const LWORD_LIMIT: nat := 0x1_0000_0000_0000_0000

  /** Lengths at or above this would lose bits when shifted left by an octet. */
  const OVERFLOW_GUARD: nat := 0x100_0000_0000_0000

  /** A byte queue, the `BufferedTransformation` everything reads from and writes to. */
  class ByteQueue {
    var data: seq<byte>

    constructor ()
      ensures data == []
    {
      data := [];
    }

    method Get() returns (b: Option<byte>)
      modifies this
      ensures old(data) == [] ==> b == None && data == []
      ensures old(data) != [] ==> b == Some(old(data)[0]) && data == old(data)[1..]
    {
      if data == [] {
        return None;
      }
      b := Some(data[0]);
      data := data[1..];
    }

    method Put(b: byte)
      modifies this
      ensures data == old(data) + [b]
    {
      data := data + [b];
    }
  }

  // Big-endian octets

  /** The shortest big-endian notation of n. */
  function Octets(n: nat): seq<byte> {
    if n == 0 then [] else Octets(n / 256) + [n % 256]
  }

  function OctetsValue(s: seq<byte>): nat {
    if |s| == 0 then 0 else 256 * OctetsValue(s[..|s| - 1]) + s[|s| - 1]
  }

  /** n shifted right by k octets. */
  function ShrOctets(n: nat, k: nat): nat {
    if k == 0 then n else ShrOctets(n, k - 1) / 256
  }

  /** `BytePrecision`. */
  function BytePrecision(n: nat): nat {
    |Octets(n)|
  }

  lemma {:induction false} OctetsBounded(n: nat, k: nat)
    requires ShrOctets(n, k) == 0
    ensures |Octets(n)| <= k
  {
    if n > 0 {
      ShrOctetsHead(n, k);
      OctetsBounded(n / 256, k - 1);
    }
  }

  lemma {:induction false} ShrOctetsHead(n: nat, k: nat)
    requires k > 0
    ensures ShrOctets(n, k) == ShrOctets(n / 256, k - 1)
  {
    if k > 1 {
      ShrOctetsHead(n, k - 1);
    }
  }

  lemma LwordOctets(n: nat)
    requires n < LWORD_LIMIT
    ensures |Octets(n)| <= 8
  {
    assert ShrOctets(n, 8) == 0 by {
      assert ShrOctets(n, 1) < 0x100_0000_0000_0000;
      assert ShrOctets(n, 3) < 0x100_0000_0000;
      assert ShrOctets(n, 5) < 0x100_0000;
      assert ShrOctets(n, 7) < 0x100;
    }
    OctetsBounded(n, 8);
  }

  /** Dropping the last octet of the notation is shifting. */
  lemma {:induction false} OctetsPrefix(n: nat, k: nat)
    requires k <= |Octets(n)|
    ensures Octets(ShrOctets(n, k)) == Octets(n)[..|Octets(n)| - k]
  {
    if k > 0 {
      OctetsPrefix(n, k - 1);
      var m := ShrOctets(n, k - 1);
      assert m > 0;
      assert Octets(m) == Octets(m / 256) + [m % 256];
    }
  }

  lemma NextOctet(n: nat, j: nat)
    requires 0 < j <= |Octets(n)|
    ensures Octets(n)[..|Octets(n)| - (j - 1)] == Octets(n)[..|Octets(n)| - j] + [ShrOctets(n, j - 1) % 256]
  {
    OctetsPrefix(n, j);
    OctetsPrefix(n, j - 1);
    var shifted := ShrOctets(n, j - 1);
    assert Octets(shifted) == Octets(shifted / 256) + [shifted % 256];
  }

  // The encoder

  /** The minimal length octets of sections 8.1.3 and 10.1 of ITU-T X.690. */
  function EncodeLength(n: nat): (s: seq<byte>)
    requires n < LWORD_LIMIT
    ensures |s| > 0
  {
    if n <= 0x7f then [n] else (LwordOctets(n); [0x80 + |Octets(n)|] + Octets(n))
  }

  method DerLengthEncode(bt: ByteQueue, length: nat) returns (i: nat)
    requires length < LWORD_LIMIT
    modifies bt
    ensures bt.data == old(bt.data) + EncodeLength(length) && i == |EncodeLength(length)|
  {
    hide Octets, ShrOctets;
    i := 0;
    if length <= 0x7f {
      bt.Put(length);
      i := i + 1;
    } else {
      LwordOctets(length);
      bt.Put(BytePrecision(length) + 0x80);
      i := i + 1;
      var j := BytePrecision(length);
      while j > 0
        invariant 0 <= j <= |Octets(length)| && i == 1 + |Octets(length)| - j
        invariant bt.data == old(bt.data) + [0x80 + |Octets(length)|] + Octets(length)[..|Octets(length)| - j]
      {
        NextOctet(length, j);
        bt.Put(ShrOctets(length, j - 1) % 256);
        i := i + 1;
        j := j - 1;
      }
    }
  }

  // The decoder

  /** Reads count octets into the length, giving up before an overflow or at the end of the input. */
  function FoldLength(s: seq<byte>, length: nat, count: nat): Option<nat>
    decreases count
  {
    if count == 0 then Some(length)
    else if length >= OVERFLOW_GUARD || |s| == 0 then None
    else FoldLength(s[1..], length * 256 + s[0], count - 1)
  }

  function DecodeLength(s: seq<byte>): Length {
    if |s| == 0 then Malformed
    else if s[0] < 0x80 then Definite(s[0], 1)
    else if s[0] == 0x80 then Indefinite
    else
      match FoldLength(s[1..], 0, s[0] - 0x80)
      case None => Malformed
      case Some(length) => Definite(length, 1 + (s[0] as int - 0x80))
  }

  /** Reads length octets off the queue. `ok` is false where the source throws or returns false. */
  method BerLengthDecode(bt: ByteQueue) returns (ok: bool, length: nat, definiteLength: bool)
    modifies bt
    ensures ok <==> !DecodeLength(old(bt.data)).Malformed?
    ensures DecodeLength(old(bt.data)).Indefinite? ==> !definiteLength && bt.data == old(bt.data)[1..]
    ensures DecodeLength(old(bt.data)).Definite? ==>
              && definiteLength && length == DecodeLength(old(bt.data)).length
              && DecodeLength(old(bt.data)).octets <= |old(bt.data)|
              && bt.data == old(bt.data)[DecodeLength(old(bt.data)).octets..]
  {
    length, definiteLength := 0, true;
    var b := bt.Get();
    if b == None {
      return false, 0, true;
    }
    if b.value < 0x80 {
      return true, b.value, true;
    }
    var lengthBytes := b.value - 0x80;
    if lengthBytes == 0 {
      return true, 0, false;
    }
    ghost var start, count := bt.data, lengthBytes;
    while lengthBytes > 0
      invariant 0 <= lengthBytes <= count && |bt.data| <= |start|
      invariant |start| - |bt.data| == count - lengthBytes && bt.data == start[count - lengthBytes..]
      invariant FoldLength(bt.data, length, lengthBytes) == FoldLength(start, 0, count)
    {
      lengthBytes := lengthBytes - 1;
      if length >= OVERFLOW_GUARD {
        return false, length, true;
      }
      b := bt.Get();
      if b == None {
        return false, length, true;
      }
      length := length * 256 + b.value;
    }
    ok := true;
  }

  /** Folding the octets of n gives n: no shortest notation of a 64-bit length trips the overflow guard. */
  lemma {:induction false} FoldOctets(n: nat, rest: seq<byte>, more: nat)
    requires n < LWORD_LIMIT
    ensures FoldLength(Octets(n) + rest, 0, |Octets(n)| + more) == FoldLength(rest, n, more)
  {
    if n == 0 {
      assert [] + rest == rest;
    } else {
      FoldOctets(n / 256, [n % 256] + rest, more + 1);
      assert Octets(n) + rest == Octets(n / 256) + ([n % 256] + rest);
      assert ([n % 256] + rest)[1..] == rest;
    }
  }

  lemma OctetsNotEmpty(n: nat)
    requires n > 0
    ensures |Octets(n)| > 0
  {
  }

  lemma FoldDone(s: seq<byte>, n: nat)
    ensures FoldLength(s, n, 0) == Some(n)
  {
  }

  /** Every 64-bit length survives the round trip, whatever follows it. */
  lemma LengthRoundTrip(n: nat, rest: seq<byte>)
    requires n < LWORD_LIMIT
    ensures DecodeLength(EncodeLength(n) + rest) == Definite(n, |EncodeLength(n)|)
  {
    hide FoldLength, Octets;
    if n > 0x7f {
      LwordOctets(n);
      FoldOctets(n, rest, 0);
      FoldDone(rest, n);
      OctetsNotEmpty(n);
      assert (EncodeLength(n) + rest)[1..] == Octets(n) + rest;
    }
  }

  /** No definite length octets for n are shorter. */
  lemma EncodeLengthIsShortest(s: seq<byte>, n: nat)
    requires n < LWORD_LIMIT && DecodeLength(s).Definite? && DecodeLength(s).length == n
    ensures |EncodeLength(n)| <= DecodeLength(s).octets
  {
    if s[0] >= 0x80 {
      FoldValue(s[1..], 0, s[0] - 0x80);
      OctetsBounded(n, s[0] - 0x80);
    }
  }

  /** What was folded in is gone after as many shifts. */
  lemma {:induction false} FoldValue(s: seq<byte>, length: nat, count: nat)
    ensures FoldLength(s, length, count).Some? ==> ShrOctets(FoldLength(s, length, count).value, count) == length
  {
    if count > 0 && FoldLength(s, length, count).Some? {
      FoldValue(s[1..], length * 256 + s[0], count - 1);
    }
  }
}
