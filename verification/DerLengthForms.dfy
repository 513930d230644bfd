/** Which lengths of a re-encoded object are definite, and which are shortest. */
module DerLengthForms {
  import opened BitStrings
  import opened Sequences
  import opened AsnLengths
  import opened DerReencoding

  // Length forms of everything in an object

  /** No object in the one that s starts with has an indefinite length, itself included. */
  predicate AllDefinite(s: seq<byte>)
    requires Parse(s).Parsed?
    decreases |s|, 0
  {
    match DecodeLength(s[1..])
    case Definite(length, octets) => IsConstructed(s[0]) ==> AllDefiniteIn(s[1 + octets..1 + octets + length])
    case Indefinite => false
  }

  predicate AllDefiniteIn(s: seq<byte>)
    requires ParseAll(s) != None
    decreases |s|, 1
  {
    |s| > 0 ==> AllDefinite(s) && AllDefiniteIn(s[Parse(s).consumed..])
  }

  /** Going down from the object through indefinite lengths only, no object of definite length that is met holds one of
      indefinite length. */
  predicate ChainIsClean(s: seq<byte>)
    requires Parse(s).Parsed?
    decreases |s|, 0
  {
    match DecodeLength(s[1..])
    case Definite(length, octets) => IsConstructed(s[0]) ==> AllDefiniteIn(s[1 + octets..1 + octets + length])
    case Indefinite => ContentsAreClean(s[2..])
  }

  predicate ContentsAreClean(s: seq<byte>)
    requires ParseContents(s).Parsed?
    decreases |s|, 1
  {
    !AtEndOfContents(s) ==> ChainIsClean(s) && ContentsAreClean(s[Parse(s).consumed..])
  }

  /** What is written with its definite length is definite throughout exactly if its contents are. */
  lemma DerObjectDefinite(tag: byte, content: seq<byte>, rest: seq<byte>)
    requires |content| < LWORD_LIMIT && (IsConstructed(tag) ==> ParseAll(content) != None)
    ensures Parse(DerObject(tag, content) + rest).Parsed?
    ensures AllDefinite(DerObject(tag, content) + rest) <==> (IsConstructed(tag) ==> AllDefiniteIn(content))
  {
    hide IsConstructed, Parse, ParseAll, ParseContents, EncodeLength, DecodeLength, AllDefiniteIn;
    var length, s := EncodeLength(|content|), DerObject(tag, content) + rest;
    ParseDerObject(tag, content, rest);
    LengthRoundTrip(|content|, content + rest);
    assert s[1..] == length + (content + rest);
    assert s[1 + |length|..1 + |length| + |content|] == content;
  }

  /** The output is definite throughout exactly if no object of definite length that is met along the indefinite chain
      of the input holds one of indefinite length. */
  lemma {:induction false} OutputAllDefinite(s: seq<byte>, rest: seq<byte>)
    requires |s| < MAX_QUEUE && Parse(s).Parsed?
    ensures Reencode(s).Done? && Parse(Reencode(s).out + rest).Parsed?
    ensures AllDefinite(Reencode(s).out + rest) <==> ChainIsClean(s)
    decreases |s|, 0
  {
    hide IsConstructed, ParseAll, ParseContents, ReencodeContents, DerObject, DecodeLength, AllDefinite, AllDefiniteIn,
         ContentsAreClean;
    ReencodeKeepsValue(s, rest);
    match DecodeLength(s[1..])
    case Definite(length, octets) =>
      DerObjectDefinite(s[0], s[1 + octets..1 + octets + length], rest);
    case Indefinite =>
      OutputContentsDefinite(s[2..]);
      DerObjectDefinite(s[0], ReencodeContents(s[2..]).out, rest);
  }

  lemma {:induction false} OutputContentsDefinite(s: seq<byte>)
    requires |s| < MAX_QUEUE && ParseContents(s).Parsed?
    ensures ReencodeContents(s).Done? && ParseAll(ReencodeContents(s).out) != None
    ensures AllDefiniteIn(ReencodeContents(s).out) <==> ContentsAreClean(s)
    decreases |s|, 1
  {
    hide Parse, Reencode, AtEndOfContents, AllDefinite, ChainIsClean;
    ReencodeContentsKeepsValues(s);
    if !AtEndOfContents(s) {
      var n := Parse(s).consumed;
      OutputContentsDefinite(s[n..]);
      var more := ReencodeContents(s[n..]).out;
      ReencodeKeepsValue(s, more);
      OutputAllDefinite(s, more);
      var out := Reencode(s).out;
      assert (out + more)[|out|..] == more;
    }
  }

  // What is written along the chain

  /** No other definite length octets for the same length are fewer. */
  ghost predicate IsShortest(l: seq<byte>) {
    && DecodeLength(l).Definite?
    && forall t: seq<byte> ::
         DecodeLength(t).Definite? && DecodeLength(t).length == DecodeLength(l).length ==>
           DecodeLength(l).octets <= DecodeLength(t).octets
  }

  /** The output has the tag of the object that s starts with and a shortest definite length. An object of definite
      length keeps its contents octet for octet; of one of indefinite length every object in it is written that way. */
  ghost predicate Rewritten(s: seq<byte>, out: seq<byte>)
    requires Parse(s).Parsed?
    decreases |s|, 0
  {
    && |out| > 0 && out[0] == s[0] && IsShortest(out[1..])
    && var d := DecodeLength(out[1..]);
       && |out| == 1 + d.octets + d.length
       && match DecodeLength(s[1..])
          case Definite(length, octets) => out[1 + d.octets..] == s[1 + octets..1 + octets + length]
          case Indefinite => ContentsRewritten(s[2..], out[1 + d.octets..])
  }

  ghost predicate ContentsRewritten(s: seq<byte>, out: seq<byte>)
    requires ParseContents(s).Parsed?
    decreases |s|, 1
  {
    if AtEndOfContents(s) then out == []
    else
      && Parse(out).Parsed?
      && Rewritten(s, out[..Parse(out).consumed])
      && ContentsRewritten(s[Parse(s).consumed..], out[Parse(out).consumed..])
  }

  lemma DerObjectIsShortest(tag: byte, content: seq<byte>)
    requires |content| < LWORD_LIMIT
    ensures var out := DerObject(tag, content);
            && |out| > 0 && out[0] == tag && IsShortest(out[1..])
            && var d := DecodeLength(out[1..]);
               |out| == 1 + d.octets + d.length && out[1 + d.octets..] == content
  {
    hide EncodeLength, DecodeLength;
    var out, length := DerObject(tag, content), EncodeLength(|content|);
    assert out[1..] == length + content;
    LengthRoundTrip(|content|, content);
    forall t: seq<byte> | DecodeLength(t).Definite? && DecodeLength(t).length == |content|
      ensures |length| <= DecodeLength(t).octets
    {
      EncodeLengthIsShortest(t, |content|);
    }
  }

  /** Every object that parses is re-encoded in that way: all lengths on the indefinite chain become definite and
      shortest, and everything in objects of definite length stays as it is. */
  lemma {:induction false} OutputIsRewritten(s: seq<byte>)
    requires |s| < MAX_QUEUE && Parse(s).Parsed?
    ensures Reencode(s).Done? && Rewritten(s, Reencode(s).out)
    decreases |s|, 0
  {
    hide IsConstructed, ParseAll, ParseContents, ReencodeContents, DerObject, DecodeLength, IsShortest,
         ContentsRewritten;
    ReencodeKeepsValue(s, []);
    match DecodeLength(s[1..])
    case Definite(length, octets) =>
      DerObjectIsShortest(s[0], s[1 + octets..1 + octets + length]);
    case Indefinite =>
      OutputContentsRewritten(s[2..]);
      DerObjectIsShortest(s[0], ReencodeContents(s[2..]).out);
  }

  lemma {:induction false} OutputContentsRewritten(s: seq<byte>)
    requires |s| < MAX_QUEUE && ParseContents(s).Parsed?
    ensures ReencodeContents(s).Done? && ContentsRewritten(s, ReencodeContents(s).out)
    decreases |s|, 1
  {
    hide Parse, Reencode, AtEndOfContents, Rewritten;
    ReencodeContentsKeepsValues(s);
    if !AtEndOfContents(s) {
      var n := Parse(s).consumed;
      OutputContentsRewritten(s[n..]);
      var more := ReencodeContents(s[n..]).out;
      ReencodeKeepsValue(s, more);
      OutputIsRewritten(s);
      var out := Reencode(s).out;
      assert (out + more)[..|out|] == out && (out + more)[|out|..] == more;
    }
  }

  /** An object of indefinite length in one of definite length, which re-encoding leaves as it is. */
  const HIDDEN: seq<byte> := [0x30, 4, 0x30, 0x80, 0, 0]

  lemma IndefiniteStays()
    ensures Parse(HIDDEN).Parsed? && Reencode(HIDDEN) == Done(HIDDEN, 6) && !AllDefinite(HIDDEN)
  {
    var inner: seq<byte> := [0x30, 0x80, 0, 0];
    assert HIDDEN[2..6] == inner && inner[2..] == [0, 0];
    assert DecodeLength(inner[1..]) == Indefinite;
    assert Parse(inner) == Parsed(Constructed(0x30, []), 4);
    assert inner[4..] == [] && ParseAll([]) == Some([]);
    assert [Constructed(0x30, [])] + [] == [Constructed(0x30, [])];
    assert ParseAll(inner) == Some([Constructed(0x30, [])]);
    assert DecodeLength(HIDDEN[1..]) == Definite(4, 1);
    assert DerObject(0x30, inner) == HIDDEN;
  }

  const CHAIN: seq<byte> := [0x30, 0x80, 2, 1, 5, 0, 0]

  /** An indefinite length on the chain goes: 30 80 02 01 05 00 00 becomes 30 03 02 01 05. */
  lemma IndefiniteGoes()
    ensures Reencode(CHAIN) == Done([0x30, 3, 2, 1, 5], 7)
  {
    hide DecodeLength;
    InnerObject();
    assert CHAIN[2..] == [2, 1, 5, 0, 0] && CHAIN[1..] == [0x80, 2, 1, 5, 0, 0];
    assert [2, 1, 5, 0, 0][3..] == [0, 0];
    KnownLengths();
    assert ReencodeContents([2, 1, 5, 0, 0]) == Done([2, 1, 5], 5);
    assert DerObject(0x30, [2, 1, 5]) == [0x30, 3, 2, 1, 5];
  }

  lemma InnerObject()
    ensures Reencode([2, 1, 5, 0, 0]) == Done([2, 1, 5], 3)
  {
    hide DecodeLength;
    KnownLengths();
    assert [2, 1, 5, 0, 0][1..] == [1, 5, 0, 0] && [2, 1, 5, 0, 0][2..3] == [5];
    assert DerObject(2, [5]) == [2, 1, 5];
  }

  lemma KnownLengths()
    ensures DecodeLength([0x80, 2, 1, 5, 0, 0]) == Indefinite && DecodeLength([1, 5, 0, 0]) == Definite(1, 1)
  {
  }

  /** Constructed are the identifiers whose third bit from the top is set. */
  lemma ConstructedIdentifiers(tag: byte)
    ensures IsConstructed(tag) <==> 32 <= tag < 64 || 96 <= tag < 128 || 160 <= tag < 192 || 224 <= tag
  {
  }
}
