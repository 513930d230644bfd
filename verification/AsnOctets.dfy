/** The octets of lengths, arcs and numbers one by one, as ITU-T X.690 describes them. */
module AsnOctets {
  import opened Arithmetic
  import opened BitStrings
  import opened Sequences
  import opened AsnLengths
  import opened AsnValues
  import Bytes = Octets

  /** s writes n in base 256, most significant octet first. */
  ghost predicate Writes(s: seq<byte>, n: nat) {
    n < Bytes.Pow256(|s|) && forall i :: 0 <= i < |s| ==> s[i] == (n / Bytes.Pow256(|s| - 1 - i)) % 256
  }

  lemma OctetsAreBigEndian(n: nat)
    ensures Octets(n) == Bytes.BigEndian(n, |Octets(n)|) && n < Bytes.Pow256(|Octets(n)|)
    ensures n > 0 ==> |Octets(n)| > 0 && Octets(n)[0] > 0
  {
    if n > 0 {
      OctetsAreBigEndian(n / 256);
    }
  }

  lemma BigEndianWrites(n: nat, k: nat)
    requires n < Bytes.Pow256(k)
    ensures Writes(Bytes.BigEndian(n, k), n)
  {
    forall i | 0 <= i < k ensures Bytes.BigEndian(n, k)[i] == (n / Bytes.Pow256(k - 1 - i)) % 256 {
      Bytes.BigEndianAt(n, k, i);
    }
  }

  lemma OctetsWrite(n: nat)
    ensures Writes(Octets(n), n)
  {
    OctetsAreBigEndian(n);
    BigEndianWrites(n, |Octets(n)|);
  }

  /** Lengths up to 127 are written as they are; others after an octet that announces how many octets follow, without
      leading zeros. */
  lemma LengthOctets(n: nat)
    requires n < LWORD_LIMIT
    ensures var s := EncodeLength(n);
            if n < 128 then s == [n]
            else 1 < |s| <= 9 && s[0] as int == 128 + (|s| - 1) && Writes(s[1..], n) && s[1] > 0
  {
    hide Octets, Writes;
    LwordOctets(n);
    OctetsWrite(n);
    OctetsAreBigEndian(n);
    if n >= 128 {
      assert EncodeLength(n)[1..] == Octets(n);
    }
  }

  /** s writes v in base 128, most significant digit first; all but the last have the top bit set. */
  ghost predicate WritesArc(s: seq<byte>, v: nat) {
    && |s| > 0 && (|s| > 1 ==> s[0] > 128)
    && forall i :: 0 <= i < |s| ==>
         s[i] == (v / Pow2(7 * (|s| - 1 - i))) % 128 + (if i < |s| - 1 then 128 else 0)
  }

  lemma {:induction false} HeadDigits(v: nat, i: nat)
    requires i < |ArcHead(v)|
    ensures ArcHead(v)[i] == (v / Pow2(7 * (|ArcHead(v)| - 1 - i))) % 128 + 128
  {
    hide Pow2;
    var k := |ArcHead(v / 128)|;
    PowZero();
    if i < k {
      HeadDigits(v / 128, i);
      SevenMore(v, k - 1 - i);
    }
  }

  lemma PowZero()
    ensures Pow2(0) == 1
  {
  }

  lemma SevenMore(v: nat, k: nat)
    ensures v / 128 / Pow2(7 * k) == v / Pow2(7 * (k + 1))
  {
    hide Pow2;
    Pow2Add(7, 7 * k);
    SevenBits();
    Bytes.DivideTwice(v, 128, Pow2(7 * k));
  }

  lemma SevenBits()
    ensures Pow2(7) == 128
  {
    assert Pow2(3) == 8;
  }

  lemma {:induction false} HeadStarts(v: nat)
    ensures v > 0 ==> |ArcHead(v)| > 0 && ArcHead(v)[0] > 128
    ensures v == 0 ==> ArcHead(v) == []
  {
    if v >= 128 {
      HeadStarts(v / 128);
    }
  }

  lemma ArcOctets(v: nat)
    ensures WritesArc(EncodeArc(v), v)
  {
    hide ArcHead, Pow2;
    var s, m := EncodeArc(v), |EncodeArc(v)| - 1;
    HeadStarts(v / 128);
    PowZero();
    forall i | 0 <= i < m ensures s[i] == (v / Pow2(7 * (m - i))) % 128 + 128 {
      HeadDigits(v / 128, i);
      SevenMore(v, m - 1 - i);
    }
  }

  /** Identifier 6, length, an octet for the first two arcs, then the arcs in order. */
  lemma OidOctets(values: seq<nat>)
    requires |values| >= 2 && |OidContents(values)| < LWORD_LIMIT
    ensures var n := |EncodeLength(|OidContents(values)|)|;
            && |EncodeOid(values)| > 1 + n && EncodeOid(values)[0] == 6
            && EncodeOid(values)[1..1 + n] == EncodeLength(|OidContents(values)|)
            && EncodeOid(values)[1 + n] == (40 * values[0] + values[1]) % 256
            && EncodeOid(values)[2 + n..] == EncodeArcs(values[2..])
  {
    hide EncodeLength, EncodeArcs;
  }

  /** A number is written with its top bit clear: with a zero in front if need be. */
  lemma UnsignedOctets(w: nat)
    ensures UnsignedContents(w)[0] < 128 && Writes(UnsignedContents(w), w)
  {
    hide Octets;
    OctetsAreBigEndian(w);
    var k := |Octets(w)|;
    if w == 0 {
      NoOctetsOfZero();
      BigEndianWrites(0, 1);
      OneZero();
    } else if Octets(w)[0] >= 128 {
      LeadingZero(w, k);
      BigEndianWrites(w, k + 1);
    } else {
      BigEndianWrites(w, k);
    }
  }

  lemma NoOctetsOfZero()
    ensures Octets(0) == []
  {
  }

  lemma OneZero()
    ensures Bytes.BigEndian(0, 1) == [0] && 0 < Bytes.Pow256(1)
  {
    assert Bytes.BigEndian(0, 0) == [];
  }

  lemma {:induction false} LeadingZero(w: nat, k: nat)
    requires w < Bytes.Pow256(k)
    ensures w < Bytes.Pow256(k + 1) && Bytes.BigEndian(w, k + 1) == [0] + Bytes.BigEndian(w, k)
  {
    if k == 0 {
      OneZero();
    } else {
      LeadingZero(w / 256, k - 1);
    }
  }

  /** The number 300 under INTEGER, and the truth value true. */
  lemma KnownValues()
    ensures |Octets(300)| == 2 && EncodeUnsigned(300, 2) == [2, 2, 1, 44]
    ensures |Octets(1)| == 1 && EncodeUnsigned(1, 1) == [1, 1, 255]
  {
    assert Octets(300) == Octets(1) + [44] && Octets(1) == Octets(0) + [1];
  }

  /** 1.2.840.113549, the arc of RSA Data Security. */
  lemma KnownIdentifier()
    ensures |OidContents([1, 2, 840, 113549])| == 6
    ensures EncodeOid([1, 2, 840, 113549]) == [6, 6, 0x2a, 0x86, 0x48, 0x86, 0xf7, 0x0d]
  {
    hide EncodeArcs;
    var values := [1, 2, 840, 113549];
    assert values[2..] == [840, 113549];
    EncodeArcsHead([840, 113549]);
    assert [840, 113549][1..] == [113549];
    EncodeArcsHead([113549]);
    assert [113549][1..] == [];
    NoArcs();
    KnownArcs();
  }

  lemma NoArcs()
    ensures EncodeArcs([]) == []
  {
  }

  lemma KnownArcs()
    ensures EncodeArc(840) == [0x86, 0x48] && EncodeArc(113549) == [0x86, 0xf7, 0x0d]
  {
    assert ArcHead(6) == ArcHead(0) + [0x86];
    assert ArcHead(887) == ArcHead(6) + [0xf7];
  }

  /** The number that octets write, most significant octet first. */
  lemma {:induction false} FoldedValue(s: seq<byte>, start: nat, count: nat)
    requires start < LWORD_LIMIT
    ensures FoldLength(s, start, count).Some? <==>
              count <= |s| && start * Bytes.Pow256(count) + Bytes.Value(s[..count]) < LWORD_LIMIT
    ensures FoldLength(s, start, count).Some? ==>
              count <= |s| && FoldLength(s, start, count).value == start * Bytes.Pow256(count) + Bytes.Value(s[..count])
  {
    hide Bytes.Value;
    if count == 0 {
      assert s[..0] == [];
      Bytes.ValueOfNothing();
      assert start * 1 == start;
    } else if start >= OVERFLOW_GUARD || |s| == 0 {
      if |s| >= count {
        TooLarge(start, Bytes.Pow256(count - 1), Bytes.Value(s[..count]));
      }
    } else {
      FoldedValue(s[1..], start * 256 + s[0], count - 1);
      if count <= |s| {
        assert s[..count] == [s[0]] + s[1..][..count - 1];
        Bytes.ValuePrepend(s[0], s[1..][..count - 1]);
        JoinStart(start, s[0], Bytes.Pow256(count - 1));
      }
    }
  }

  lemma TooLarge(start: nat, p: nat, v: nat)
    requires start >= OVERFLOW_GUARD && p > 0
    ensures start * (256 * p) + v >= LWORD_LIMIT
  {
    MulStrict(OVERFLOW_GUARD * 256, start * 256, p);
    MulStrict(1, p, OVERFLOW_GUARD * 256);
    MulAssociates(start, 256, p);
  }

  lemma JoinStart(start: nat, b: nat, p: nat)
    ensures (start * 256 + b) * p == start * (256 * p) + b * p
  {
    MulDistributes(start * 256, b, p);
    MulAssociates(start, 256, p);
  }

  /** Which length octets are accepted: one below 128; 128, for an indefinite length; or 128 + k and k more, shortest
      or not, that write a number of at most 64 bits. */
  lemma LengthsAccepted(s: seq<byte>)
    ensures |s| == 0 ==> DecodeLength(s) == Malformed
    ensures |s| > 0 && s[0] < 128 ==> DecodeLength(s) == Definite(s[0], 1)
    ensures |s| > 0 && s[0] == 128 ==> DecodeLength(s) == Indefinite
    ensures |s| > 0 && s[0] > 128 ==>
              var k := s[0] as int - 128;
              DecodeLength(s) == if k < |s| && Bytes.Value(s[1..1 + k]) < LWORD_LIMIT
                                 then Definite(Bytes.Value(s[1..1 + k]), 1 + k) else Malformed
  {
    hide FoldLength, Bytes.Value;
    if |s| > 0 && s[0] > 128 {
      var k := s[0] as int - 128;
      FoldedValue(s[1..], 0, k);
      assert 0 * Bytes.Pow256(k) == 0;
      if k < |s| {
        assert s[1..][..k] == s[1..1 + k];
      }
    }
  }

  /** The number that digits in base 128 write, most significant first; top bits do not count. */
  function DigitsValue(s: seq<byte>): nat {
    if |s| == 0 then 0 else DigitsValue(s[..|s| - 1]) * 128 + s[|s| - 1] % 128
  }

  /** The place of the first octet without top bit. */
  function LastDigitOf(s: seq<byte>): (k: nat)
    ensures k <= |s| && (k < |s| ==> s[k] < 128) && forall i :: 0 <= i < k ==> s[i] >= 128
  {
    if |s| == 0 || s[0] < 128 then 0 else 1 + LastDigitOf(s[1..])
  }

  lemma {:induction false} FirstDigitOf(d: byte, s: seq<byte>)
    ensures (d % 128) * Pow2(7 * |s|) >= 0 && DigitsValue([d] + s) == (d % 128) * Pow2(7 * |s|) + DigitsValue(s)
  {
    hide DigitsValue, Pow2;
    if |s| == 0 {
      NoDigits(d);
      assert [d] + s == [d];
    } else {
      var m := |s| - 1;
      FirstDigitOf(d, s[..m]);
      assert [d] + s == ([d] + s[..m]) + [s[m]] && s == s[..m] + [s[m]];
      DigitAfter([d] + s[..m], s[m]);
      DigitAfter(s[..m], s[m]);
      PlaceOfDigit(d % 128, m);
    }
  }

  lemma NoDigits(d: byte)
    ensures DigitsValue([]) == 0 && DigitsValue([d]) == d % 128 && Pow2(7 * 0) == 1
  {
    assert [d][..0] == [];
  }

  lemma DigitAfter(s: seq<byte>, d: byte)
    ensures DigitsValue(s + [d]) == DigitsValue(s) * 128 + d % 128
  {
    assert (s + [d])[..|s|] == s;
  }

  lemma PlaceOfDigit(d: nat, m: nat)
    ensures d * Pow2(7 * m) * 128 == d * Pow2(7 * (m + 1))
  {
    hide Pow2;
    Pow2Add(7 * m, 7);
    SevenBits();
    MulAssociates(d, Pow2(7 * m), 128);
  }

  /** Digits are read up to the first without top bit, and accepted if there is one and what they write fits 32 bits. */
  lemma ArcsAccepted(s: seq<byte>)
    ensures var k := LastDigitOf(s);
            FoldArc(s, 0) == if k < |s| && DigitsValue(s[..k + 1]) < WORD32_LIMIT
                             then Some((DigitsValue(s[..k + 1]), s[k + 1..])) else None
  {
    hide DigitsValue, Pow2, FoldArc;
    var k := LastDigitOf(s);
    if k < |s| {
      assert 0 * Pow2(7 * (k + 1)) == 0;
      ArcRead(s, 0);
    } else {
      ArcUnfinished(s, 0);
    }
  }

  lemma {:induction false} ArcUnfinished(s: seq<byte>, u: nat)
    requires LastDigitOf(s) == |s|
    ensures FoldArc(s, u) == None
  {
    if |s| > 0 && u < 0x200_0000 {
      ArcUnfinished(s[1..], u * 128 + s[0] % 128);
    }
  }

  lemma {:induction false} ArcRead(s: seq<byte>, u: nat)
    requires u < WORD32_LIMIT && LastDigitOf(s) < |s|
    ensures var k := LastDigitOf(s);
            && u * Pow2(7 * (k + 1)) >= 0
            && FoldArc(s, u) == var v := u * Pow2(7 * (k + 1)) + DigitsValue(s[..k + 1]);
                                if v < WORD32_LIMIT then Some((v, s[k + 1..])) else None
  {
    hide DigitsValue, Pow2;
    var k, next: nat := LastDigitOf(s), u * 128 + s[0] % 128;
    assert s[..k + 1] == [s[0]] + s[1..k + 1];
    FirstDigitOf(s[0], s[1..k + 1]);
    JoinDigits(u, s[0] % 128, k);
    if u >= 0x200_0000 {
      ArcTooLarge(u, k);
    } else if k > 0 {
      ArcRead(s[1..], next);
      assert s[1..][..k] == s[1..k + 1] && s[1..][k..] == s[k + 1..];
    } else {
      NoDigits(s[0]);
      assert s[1..k + 1] == [];
    }
  }

  lemma JoinDigits(u: nat, d: nat, k: nat)
    ensures (u * 128 + d) * Pow2(7 * k) == u * Pow2(7 * (k + 1)) + d * Pow2(7 * k)
  {
    hide Pow2;
    MulDistributes(u * 128, d, Pow2(7 * k));
    Pow2Add(7, 7 * k);
    SevenBits();
    MulAssociates(u, 128, Pow2(7 * k));
  }

  lemma ArcTooLarge(u: nat, k: nat)
    requires u >= 0x200_0000
    ensures u * Pow2(7 * (k + 1)) >= WORD32_LIMIT
  {
    Pow2Increasing(7, 7 * (k + 1));
    SevenBits();
    MulStrict(0x200_0000, u, Pow2(7 * (k + 1)));
    MulStrict(128, Pow2(7 * (k + 1)), 0x200_0000);
  }
}
