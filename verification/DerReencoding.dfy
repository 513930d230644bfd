/** `DERReencode`: BER in, definite lengths out. */
module DerReencoding {
  import opened BitStrings
  import opened Sequences
  import opened AsnLengths

  /** No queue holds this many bytes; within this limit every length written fits 64 bits. */
  const MAX_QUEUE: nat := 0x1000_0000_0000_0000

  /** The identifier bit of constructed encodings. */
  predicate IsConstructed(tag: byte) {
    (tag / 0x20) % 2 == 1
  }

  // The specification of the re-encoder

  datatype Reencoded = Failed | Done(out: seq<byte>, consumed: nat)

  predicate AtEndOfContents(s: seq<byte>) {
    |s| >= 2 && s[0] == 0 && s[1] == 0
  }

  function DerObject(tag: byte, content: seq<byte>): (out: seq<byte>)
    requires |content| < LWORD_LIMIT
    ensures 0 < |out| <= |content| + 10
  {
    LwordOctets(|content|);
    [tag] + EncodeLength(|content|) + content
  }

  /** Re-encodes the object s starts with. */
  function Reencode(s: seq<byte>): (r: Reencoded)
    requires |s| < MAX_QUEUE
    ensures r.Done? ==> 2 <= r.consumed <= |s| && |r.out| <= 5 * r.consumed
    decreases |s|, 0
  {
    if |s| == 0 then Failed
    else
      match DecodeLength(s[1..])
      case Malformed => Failed
      case Definite(length, octets) =>
        if |s| < 1 + octets + length then Failed
        else Done(DerObject(s[0], s[1 + octets..1 + octets + length]), 1 + octets + length)
      case Indefinite =>
        if !IsConstructed(s[0]) then Failed
        else
          var contents := ReencodeContents(s[2..]);
          if contents.Failed? then Failed
          else Done(DerObject(s[0], contents.out), 2 + contents.consumed)
  }

  /** Re-encodes objects up to the end-of-contents octets. */
  function ReencodeContents(s: seq<byte>): (r: Reencoded)
    requires |s| < MAX_QUEUE
    ensures r.Done? ==> 2 <= r.consumed <= |s| && |r.out| <= 5 * r.consumed
    decreases |s|, 1
  {
    if AtEndOfContents(s) then Done([], 2)
    else
      var first := Reencode(s);
      if first.Failed? then Failed
      else
        var rest := ReencodeContents(s[first.consumed..]);
        if rest.Failed? then Failed
        else Done(first.out + rest.out, first.consumed + rest.consumed)
  }

  // The classes of the source

  /** Reads one object off a queue. Decoders of indefinite length pass reads through to their queue
      unchanged, so a nested decoder reads the innermost queue directly. */
  class BerGeneralDecoder {
    const inQueue: ByteQueue
    var definiteLength: bool
    var length: nat

    constructor (inQueue: ByteQueue)
      ensures this.inQueue == inQueue
    {
      this.inQueue := inQueue;
      definiteLength, length := true, 0;
    }

    /** Takes identifier and length octets off the queue. */
    method Init(asnTag: byte) returns (ok: bool)
      modifies this, inQueue
      ensures ok <==> (|old(inQueue.data)| > 0 && old(inQueue.data)[0] == asnTag
                       && !DecodeLength(old(inQueue.data)[1..]).Malformed?
                       && (DecodeLength(old(inQueue.data)[1..]).Indefinite? ==> IsConstructed(asnTag)))
      ensures ok ==> definiteLength == DecodeLength(old(inQueue.data)[1..]).Definite?
      ensures ok && definiteLength ==>
                && length == DecodeLength(old(inQueue.data)[1..]).length
                && 1 + DecodeLength(old(inQueue.data)[1..]).octets <= |old(inQueue.data)|
                && inQueue.data == old(inQueue.data)[1 + DecodeLength(old(inQueue.data)[1..]).octets..]
      ensures ok && !definiteLength ==> |old(inQueue.data)| >= 2 && inQueue.data == old(inQueue.data)[2..]
    {
      hide IsConstructed, DecodeLength;
      var b := inQueue.Get();
      if b == None || b.value != asnTag {
        return false;
      }
      IndefiniteNotEmpty(inQueue.data);
      ok, length, definiteLength := BerLengthDecode(inQueue);
      if !ok {
        return false;
      }
      if !definiteLength && !IsConstructed(asnTag) {
        return false;
      }
    }

    method EndReached() returns (end: bool)
      ensures end <==> if definiteLength then length == 0 else AtEndOfContents(inQueue.data)
    {
      end := if definiteLength then length == 0
             else |inQueue.data| >= 2 && inQueue.data[0] == 0 && inQueue.data[1] == 0;
    }

    /** Moves at most transferBytes to the target: no more than are left of a definite object, and no more than there
        are. The length that is left counts definite objects only. */
    method TransferTo(target: ByteQueue, transferBytes: nat) returns (moved: nat)
      requires target != inQueue
      modifies this, inQueue, target
      ensures definiteLength == old(definiteLength)
      ensures moved <= transferBytes && moved <= |old(inQueue.data)| && (definiteLength ==> moved <= old(length))
      ensures moved == transferBytes || moved == |old(inQueue.data)| || (definiteLength && moved == old(length))
      ensures target.data == old(target.data) + old(inQueue.data)[..moved] && inQueue.data == old(inQueue.data)[moved..]
      ensures length == old(length) - (if definiteLength then moved else 0)
    {
      moved := if definiteLength && transferBytes > length then length else transferBytes;
      if moved > |inQueue.data| {
        moved := |inQueue.data|;
      }
      target.data := target.data + inQueue.data[..moved];
      inQueue.data := inQueue.data[moved..];
      if definiteLength {
        length := length - moved;
      }
    }

    /** Checks that the object has been read to its end, end-of-contents octets included. */
    method MessageEnd() returns (ok: bool)
      modifies inQueue
      ensures definiteLength ==> (ok <==> length == 0) && inQueue.data == old(inQueue.data)
      ensures !definiteLength ==> (ok <==> AtEndOfContents(old(inQueue.data)))
      ensures ok && !definiteLength ==> |old(inQueue.data)| >= 2 && inQueue.data == old(inQueue.data)[2..]
    {
      if definiteLength {
        ok := length == 0;
      } else {
        var b0 := inQueue.Get();
        var b1 := inQueue.Get();
        ok := b0 == Some(0) && b1 == Some(0);
      }
    }
  }

  lemma IndefiniteNotEmpty(s: seq<byte>)
    ensures DecodeLength(s).Indefinite? ==> |s| > 0
  {
  }

  /** `DERGeneralEncoder`: collects contents, then writes them behind their tag and length. */
  class DerGeneralEncoder {
    const queue: ByteQueue
    const outQueue: ByteQueue
    const asnTag: byte

    constructor (outQueue: ByteQueue, asnTag: byte)
      ensures this.outQueue == outQueue && this.asnTag == asnTag && fresh(queue) && queue.data == []
    {
      queue := new ByteQueue();
      this.outQueue, this.asnTag := outQueue, asnTag;
    }

    method MessageEnd()
      requires |queue.data| < LWORD_LIMIT && queue != outQueue
      modifies queue, outQueue
      ensures outQueue.data == old(outQueue.data) + DerObject(asnTag, old(queue.data))
    {
      hide EncodeLength;
      outQueue.Put(asnTag);
      var _ := DerLengthEncode(outQueue, |queue.data|);
      outQueue.data := outQueue.data + queue.data;
      queue.data := [];
    }
  }

  /** Moves the object the source starts with to the end of dest, re-encoded. `ok` is false where the
      source throws; the queues are then left part of the way. */
  method DerReencode(source: ByteQueue, dest: ByteQueue) returns (ok: bool)
    requires source != dest && |source.data| < MAX_QUEUE
    modifies source, dest
    ensures ok <==> Reencode(old(source.data)).Done?
    ensures ok ==> source.data == old(source.data)[Reencode(old(source.data)).consumed..]
    ensures ok ==> dest.data == old(dest.data) + Reencode(old(source.data)).out
    decreases |source.data|, 0
  {
    hide DecodeLength, DerObject, IsConstructed, ReencodeContents;
    ghost var s := source.data;
    if |source.data| == 0 {
      return false;
    }
    var tag := source.data[0];
    var decoder := new BerGeneralDecoder(source);
    ok := decoder.Init(tag);
    if !ok {
      return;
    }
    var encoder := new DerGeneralEncoder(dest, tag);
    if decoder.definiteLength {
      ghost var from, n := |s| - |source.data|, decoder.length;
      var moved := decoder.TransferTo(encoder.queue, decoder.length);
      assert n <= |s| - from ==> encoder.queue.data == s[from..from + n];
    } else {
      ok := ReencodeUntilEnd(decoder, encoder);
      if !ok {
        return;
      }
    }
    ok := decoder.MessageEnd();
    if !ok {
      return;
    }
    encoder.MessageEnd();
  }

  /** The loop over the contents of an object of indefinite length. */
  method ReencodeUntilEnd(decoder: BerGeneralDecoder, encoder: DerGeneralEncoder) returns (ok: bool)
    requires !decoder.definiteLength && |decoder.inQueue.data| < MAX_QUEUE
    requires encoder.queue != decoder.inQueue && encoder.queue.data == []
    modifies decoder.inQueue, encoder.queue
    ensures ok <==> ReencodeContents(old(decoder.inQueue.data)).Done?
    ensures ok ==> encoder.queue.data == ReencodeContents(old(decoder.inQueue.data)).out
    ensures ok ==> AtEndOfContents(decoder.inQueue.data)
    ensures ok ==>
              decoder.inQueue.data[2..]
              == old(decoder.inQueue.data)[ReencodeContents(old(decoder.inQueue.data)).consumed..]
    decreases |decoder.inQueue.data|, 1
  {
    hide Reencode, ReencodeContents, Continue, AtEndOfContents;
    ghost var s := decoder.inQueue.data;
    ghost var done: nat := 0;
    assert s[0..] == s;
    ContinueNothing(ReencodeContents(s));
    var end := decoder.EndReached();
    while !end
      invariant end <==> AtEndOfContents(decoder.inQueue.data)
      invariant done <= |s| && decoder.inQueue.data == s[done..]
      invariant ReencodeContents(s) == Continue(encoder.queue.data, done, ReencodeContents(s[done..]))
      decreases |decoder.inQueue.data|
    {
      ContentsStep(s, done, encoder.queue.data);
      ok := DerReencode(decoder.inQueue, encoder.queue);
      if !ok {
        return;
      }
      done := done + Reencode(s[done..]).consumed;
      end := decoder.EndReached();
    }
    ContentsEnd(s, done, encoder.queue.data);
    ok := true;
  }

  /** Contents after a part that is already done. */
  function Continue(out: seq<byte>, consumed: nat, rest: Reencoded): Reencoded {
    if rest.Failed? then Failed else Done(out + rest.out, consumed + rest.consumed)
  }

  lemma ContinueNothing(rest: Reencoded)
    ensures Continue([], 0, rest) == rest
  {
    if rest.Done? {
      assert [] + rest.out == rest.out;
    }
  }

  lemma ContentsStep(s: seq<byte>, done: nat, out: seq<byte>)
    requires done <= |s| < MAX_QUEUE && !AtEndOfContents(s[done..])
    ensures Reencode(s[done..]).Failed? ==> Continue(out, done, ReencodeContents(s[done..])).Failed?
    ensures Reencode(s[done..]).Done? ==>
              var first := Reencode(s[done..]);
              && s[done..][first.consumed..] == s[done + first.consumed..]
              && Continue(out, done, ReencodeContents(s[done..]))
              == Continue(out + first.out, done + first.consumed, ReencodeContents(s[done + first.consumed..]))
  {
    hide Reencode;
    var first := Reencode(s[done..]);
    if first.Done? {
      var rest := ReencodeContents(s[done..][first.consumed..]);
      assert s[done..][first.consumed..] == s[done + first.consumed..];
      if rest.Done? {
        assert out + (first.out + rest.out) == (out + first.out) + rest.out;
      }
    }
  }

  lemma ContentsEnd(s: seq<byte>, done: nat, out: seq<byte>)
    requires done <= |s| < MAX_QUEUE && AtEndOfContents(s[done..])
    ensures |s[done..]| >= 2 && Continue(out, done, ReencodeContents(s[done..])) == Done(out, done + 2)
    ensures s[done..][2..] == s[done + 2..]
  {
    assert out + [] == out;
  }

  // What re-encoding keeps

  /** The value an encoding stands for, whatever form its lengths take. */
  datatype Node = Primitive(tag: byte, content: seq<byte>) | Constructed(tag: byte, children: seq<Node>)

  datatype Parsed<+T> = NoParse | Parsed(value: T, consumed: nat)

  /** Parses the object s starts with, down to its primitive parts. */
  function Parse(s: seq<byte>): (r: Parsed<Node>)
    ensures r.Parsed? ==> 2 <= r.consumed <= |s|
    decreases |s|, 0
  {
    if |s| == 0 then NoParse
    else
      match DecodeLength(s[1..])
      case Malformed => NoParse
      case Definite(length, octets) =>
        if |s| < 1 + octets + length then NoParse
        else
          var content := s[1 + octets..1 + octets + length];
          if !IsConstructed(s[0]) then Parsed(Primitive(s[0], content), 1 + octets + length)
          else
            var children := ParseAll(content);
            if children == None then NoParse else Parsed(Constructed(s[0], children.value), 1 + octets + length)
      case Indefinite =>
        if !IsConstructed(s[0]) then NoParse
        else
          var children := ParseContents(s[2..]);
          if children.NoParse? then NoParse else Parsed(Constructed(s[0], children.value), 2 + children.consumed)
  }

  /** Parses objects up to the end of s. */
  function ParseAll(s: seq<byte>): Option<seq<Node>>
    decreases |s|, 1
  {
    if |s| == 0 then Some([])
    else
      var first := Parse(s);
      if first.NoParse? then None
      else
        var rest := ParseAll(s[first.consumed..]);
        if rest == None then None else Some([first.value] + rest.value)
  }

  /** Parses objects up to the end-of-contents octets. */
  function ParseContents(s: seq<byte>): (r: Parsed<seq<Node>>)
    ensures r.Parsed? ==> 2 <= r.consumed <= |s|
    decreases |s|, 1
  {
    if AtEndOfContents(s) then Parsed([], 2)
    else
      var first := Parse(s);
      if first.NoParse? then NoParse
      else
        var rest := ParseContents(s[first.consumed..]);
        if rest.NoParse? then NoParse
        else Parsed([first.value] + rest.value, first.consumed + rest.consumed)
  }

  /** An object written with its definite length parses to its contents, whatever follows. */
  lemma ParseDerObject(tag: byte, content: seq<byte>, rest: seq<byte>)
    requires |content| < LWORD_LIMIT
    ensures Parse(DerObject(tag, content) + rest) ==
            if !IsConstructed(tag) then Parsed(Primitive(tag, content), |DerObject(tag, content)|)
            else if ParseAll(content) == None then NoParse
            else Parsed(Constructed(tag, ParseAll(content).value), |DerObject(tag, content)|)
  {
    hide IsConstructed, ParseAll, ParseContents, EncodeLength, DecodeLength;
    var length, s := EncodeLength(|content|), DerObject(tag, content) + rest;
    LengthRoundTrip(|content|, content + rest);
    assert s[1..] == length + (content + rest);
    assert s[1 + |length|..1 + |length| + |content|] == content;
  }

  /** Re-encoding keeps the value of every object that parses, consumes exactly that object, and what
      it writes parses to the same value whatever follows. */
  lemma {:induction false} ReencodeKeepsValue(s: seq<byte>, rest: seq<byte>)
    requires |s| < MAX_QUEUE && Parse(s).Parsed?
    ensures Reencode(s).Done? && Reencode(s).consumed == Parse(s).consumed
    ensures Parse(Reencode(s).out + rest) == Parsed(Parse(s).value, |Reencode(s).out|)
    decreases |s|, 0
  {
    hide IsConstructed, ParseAll, ParseContents, ReencodeContents, DerObject, DecodeLength;
    match DecodeLength(s[1..])
    case Definite(length, octets) =>
      ParseDerObject(s[0], s[1 + octets..1 + octets + length], rest);
    case Indefinite =>
      ReencodeContentsKeepsValues(s[2..]);
      ParseDerObject(s[0], ReencodeContents(s[2..]).out, rest);
  }

  lemma {:induction false} ReencodeContentsKeepsValues(s: seq<byte>)
    requires |s| < MAX_QUEUE && ParseContents(s).Parsed?
    ensures ReencodeContents(s).Done? && ReencodeContents(s).consumed == ParseContents(s).consumed
    ensures ParseAll(ReencodeContents(s).out) == Some(ParseContents(s).value)
    decreases |s|, 1
  {
    hide Parse, Reencode, AtEndOfContents;
    if !AtEndOfContents(s) {
      var n := Parse(s).consumed;
      ReencodeContentsKeepsValues(s[n..]);
      var more := ReencodeContents(s[n..]).out;
      ReencodeKeepsValue(s, more);
      var out := Reencode(s).out;
      assert (out + more)[|out|..] == more;
    }
  }

  /** The contents octets that re-encoding writes for the object s starts with. */
  function WrittenContents(s: seq<byte>): seq<byte>
    requires |s| < MAX_QUEUE && Reencode(s).Done?
  {
    match DecodeLength(s[1..])
    case Definite(length, octets) => s[1 + octets..1 + octets + length]
    case Indefinite => ReencodeContents(s[2..]).out
  }

  /** Re-encoding what re-encoding wrote changes nothing. */
  lemma ReencodeIdempotent(s: seq<byte>, rest: seq<byte>)
    requires |s| < MAX_QUEUE && Reencode(s).Done? && |Reencode(s).out + rest| < MAX_QUEUE
    ensures Reencode(Reencode(s).out + rest) == Done(Reencode(s).out, |Reencode(s).out|)
  {
    hide ReencodeContents, DerObject, IsConstructed, DecodeLength;
    ReencodeDerObject(s[0], WrittenContents(s), rest);
  }

  lemma ReencodeDerObject(tag: byte, content: seq<byte>, rest: seq<byte>)
    requires |content| < LWORD_LIMIT && |DerObject(tag, content) + rest| < MAX_QUEUE
    ensures Reencode(DerObject(tag, content) + rest) == Done(DerObject(tag, content), |DerObject(tag, content)|)
  {
    hide IsConstructed, ReencodeContents, EncodeLength, DecodeLength;
    var length, s := EncodeLength(|content|), DerObject(tag, content) + rest;
    LengthRoundTrip(|content|, content + rest);
    assert s[1..] == length + (content + rest);
    assert s[1 + |length|..1 + |length| + |content|] == content;
  }
}
