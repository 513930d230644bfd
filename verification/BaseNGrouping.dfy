/** `Grouper`, and encoding, grouping and decoding one after the other. */
module BaseNGrouping {
  import opened Arithmetic
  import opened BitStrings
  import opened BaseNDigits
  import opened BaseNEncoding
  import opened BaseNDecoding

  /** A separator before every g-th byte but the first. */
  function Group(g: nat, separator: seq<byte>, s: seq<byte>): seq<byte> {
    if g == 0 || |s| == 0 then s
    else
      var m := |s| - 1;
      Group(g, separator, s[..m]) + (if m > 0 && m % g == 0 then separator else []) + [s[m]]
  }

  /** The place in its group of the last of m bytes, counted from 1. */
  function Counter(g: nat, m: nat): nat
    requires g > 0
  {
    if m == 0 then 0 else (m - 1) % g + 1
  }

  class Grouper {
    const groupSize: nat
    const separator: seq<byte>
    const terminator: seq<byte>
    var counter: nat
    var output: seq<byte>

    ghost var before: seq<byte>
    ghost var message: seq<byte>

    ghost predicate Valid()
      reads this
    {
      && output == before + Group(groupSize, separator, message)
      && (groupSize > 0 ==> counter == Counter(groupSize, |message|))
    }

    constructor (groupSize: nat, separator: seq<byte>, terminator: seq<byte>)
      ensures Valid() && message == before == output == []
      ensures this.groupSize == groupSize && this.separator == separator && this.terminator == terminator
    {
      this.groupSize, this.separator, this.terminator := groupSize, separator, terminator;
      counter, output, before, message := 0, [], [], [];
    }

    /** Puts out a separator if a group is full, then what is left of the piece or of the group. */
    method PutGroup(begin: seq<byte>, inputPosition: nat) returns (next: nat)
      requires Valid() && groupSize > 0 && inputPosition < |begin|
      modifies this
      ensures Valid() && before == old(before) && Extends(output, old(output))
      ensures inputPosition < next <= |begin| && message == old(message) + begin[inputPosition..next]
    {
      hide Group;
      ghost var head: seq<byte> := [];
      if counter == groupSize {
        output := output + separator;
        head := separator;
        counter := 0;
      }
      var len := Min(|begin| - inputPosition, groupSize - counter);
      next := inputPosition + len;
      GroupPart(groupSize, separator, message, begin[inputPosition..next], head, counter);
      output := output + begin[inputPosition..next];
      message := message + begin[inputPosition..next];
      counter := counter + len;
    }

    /** Takes in a piece of a message, which may be its last. */
    method Put(begin: seq<byte>, messageEnd: bool)
      requires Valid()
      modifies this
      ensures Valid()
      ensures !messageEnd ==> before == old(before) && message == old(message) + begin
      ensures messageEnd ==> message == [] && output == before
      ensures messageEnd ==> output == old(before) + (Group(groupSize, separator, old(message) + begin) + terminator)
      ensures Extends(output, old(output))
    {
      hide Group;
      if groupSize > 0 {
        var inputPosition := 0;
        while inputPosition < |begin|
          invariant inputPosition <= |begin| && Valid() && before == old(before)
          invariant message == old(message) + begin[..inputPosition] && Extends(output, old(output))
        {
          ghost var start := inputPosition;
          inputPosition := PutGroup(begin, inputPosition);
          assert begin[..inputPosition] == begin[..start] + begin[start..inputPosition];
        }
        assert begin[..|begin|] == begin;
      } else {
        GroupNothing(separator, message);
        GroupNothing(separator, message + begin);
        output := output + begin;
        message := message + begin;
      }
      if messageEnd {
        assert output + terminator == before + (Group(groupSize, separator, message) + terminator);
        output := output + terminator;
        counter := 0;
        before, message := output, [];
        GroupEmpty(groupSize, separator);
      }
    }
  }

  lemma GroupNothing(separator: seq<byte>, s: seq<byte>)
    ensures Group(0, separator, s) == s
  {
  }

  lemma GroupEmpty(g: nat, separator: seq<byte>)
    ensures Group(g, separator, []) == []
  {
  }

  /** Bytes that stay within a group come out unchanged, after a separator if the group is not the first. */
  lemma {:induction false} GroupPart(g: nat, separator: seq<byte>, s: seq<byte>, part: seq<byte>, head: seq<byte>,
                                     counter: nat)
    requires g > 0 && 0 < |part| <= g - counter
    requires counter == (if Counter(g, |s|) == g then 0 else Counter(g, |s|))
    requires head == if Counter(g, |s|) == g then separator else []
    ensures Group(g, separator, s + part) == Group(g, separator, s) + head + part
    ensures Counter(g, |s + part|) == counter + |part|
  {
    hide Group;
    var m := |part| - 1;
    CounterStep(g, |s|, |part|, counter);
    GroupStep(g, separator, s + part[..m], part[m]);
    assert s + part == (s + part[..m]) + [part[m]];
    if m == 0 {
      assert s + part[..m] == s;
      CounterEnds(g, |s|);
      assert part == [part[m]];
    } else {
      GroupPart(g, separator, s, part[..m], head, counter);
      CounterStep(g, |s|, m, counter);
      CounterEnds(g, |s| + m);
      assert part == part[..m] + [part[m]];
    }
  }

  lemma GroupStep(g: nat, separator: seq<byte>, s: seq<byte>, c: byte)
    requires g > 0
    ensures Group(g, separator, s + [c])
            == Group(g, separator, s) + (if |s| > 0 && |s| % g == 0 then separator else []) + [c]
  {
    assert (s + [c])[..|s|] == s;
  }

  /** At most g bytes come out as they are; of more, g bytes, a separator, and the others grouped. */
  lemma {:induction false} GroupFromFront(g: nat, separator: seq<byte>, s: seq<byte>)
    ensures g == 0 || |s| <= g ==> Group(g, separator, s) == s
    ensures 0 < g < |s| ==> Group(g, separator, s) == s[..g] + separator + Group(g, separator, s[g..])
  {
    hide Group;
    if g == 0 {
      GroupNothing(separator, s);
    } else if |s| == 0 {
      GroupEmpty(g, separator);
    } else {
      var m := |s| - 1;
      GroupFromFront(g, separator, s[..m]);
      assert s == s[..m] + [s[m]];
      GroupStep(g, separator, s[..m], s[m]);
      if m < g {
        RemainderOfSmall(m, g);
      } else if m == g {
        assert s[g..] == [s[m]];
        GroupFromFront(g, separator, s[g..]);
      } else {
        assert s[..m][g..] + [s[m]] == s[g..];
        GroupStep(g, separator, s[..m][g..], s[m]);
        AddMultiple(m - g, 1, g);
        assert s[..m][..g] == s[..g];
      }
    }
  }

  lemma CounterEnds(g: nat, m: nat)
    requires g > 0
    ensures Counter(g, m) == g <==> m > 0 && m % g == 0
  {
    if m > 0 {
      var q, r := (m - 1) / g, (m - 1) % g;
      assert m - 1 == q * g + r;
      MulDistributes(q, 1, g);
      if r == g - 1 {
        DivModUnique(m, g, q + 1, 0);
      } else {
        DivModUnique(m, g, q, r + 1);
      }
    }
  }

  lemma CounterStep(g: nat, m: nat, k: nat, counter: nat)
    requires g > 0 && 0 < k <= g - counter
    requires counter == (if Counter(g, m) == g then 0 else Counter(g, m))
    ensures Counter(g, m + k) == counter + k
  {
    if m == 0 {
      DivModUnique(k - 1, g, 0, k - 1);
    } else {
      var q, r := (m - 1) / g, (m - 1) % g;
      assert m - 1 == q * g + r;
      MulDistributes(q, 1, g);
      if r == g - 1 {
        DivModUnique(m + k - 1, g, q + 1, k - 1);
      } else {
        DivModUnique(m + k - 1, g, q, r + k);
      }
    }
  }

  // Decoding what was encoded

  /** Separators have no value. */
  lemma {:induction false} ValuesOfGroups(lookup: seq<int>, g: nat, separator: seq<byte>, s: seq<byte>)
    requires |lookup| == 256 && Values(lookup, separator) == []
    ensures Values(lookup, Group(g, separator, s)) == Values(lookup, s)
  {
    if g > 0 && |s| > 0 {
      var m := |s| - 1;
      ValuesOfGroups(lookup, g, separator, s[..m]);
      GroupStep(g, separator, s[..m], s[m]);
      assert s == s[..m] + [s[m]];
      var head := if m > 0 && m % g == 0 then separator else [];
      ValuesAppend(lookup, Group(g, separator, s[..m]) + head, [s[m]]);
      ValuesAppend(lookup, Group(g, separator, s[..m]), head);
      ValuesAppend(lookup, s[..m], [s[m]]);
    }
  }

  /** Letters are read as the digits they stand for. */
  lemma {:induction false} ValuesOfLetters(lookup: seq<int>, alphabet: seq<byte>, caseInsensitive: bool,
                                           digits: seq<nat>)
    requires IsTable(lookup, alphabet, caseInsensitive) && Distinct(alphabet, caseInsensitive) && |alphabet| <= 128
    requires forall k :: 0 <= k < |digits| ==> digits[k] < |alphabet|
    ensures Values(lookup, Letters(alphabet, digits)) == digits
  {
    hide Distinct, ReadAs, Letters, Unsigned;
    if |digits| > 0 {
      var m := |digits| - 1;
      ValuesOfLetters(lookup, alphabet, caseInsensitive, digits[..m]);
      LetterFound(alphabet, caseInsensitive, digits[m]);
      ReadLetter(lookup, alphabet, caseInsensitive, digits[m]);
      LastLetter(alphabet, digits);
      NextValue(lookup, Letters(alphabet, digits[..m]), alphabet[digits[m]]);
    }
  }

  lemma ReadLetter(lookup: seq<int>, alphabet: seq<byte>, caseInsensitive: bool, k: nat)
    requires IsTable(lookup, alphabet, caseInsensitive) && k < |alphabet| <= 128
    requires LookupOf(alphabet, caseInsensitive, alphabet[k]) == k
    ensures Unsigned(lookup[alphabet[k]]) == k
  {
  }

  lemma LastLetter(alphabet: seq<byte>, digits: seq<nat>)
    requires |digits| > 0 && forall k :: 0 <= k < |digits| ==> digits[k] < |alphabet|
    ensures var m := |digits| - 1; digits == digits[..m] + [digits[m]]
    ensures var m := |digits| - 1; Letters(alphabet, digits) == Letters(alphabet, digits[..m]) + [alphabet[digits[m]]]
  {
  }

  lemma LetterFound(alphabet: seq<byte>, caseInsensitive: bool, k: nat)
    requires k < |alphabet| && Distinct(alphabet, caseInsensitive)
    ensures LookupOf(alphabet, caseInsensitive, alphabet[k]) == k
  {
    assert ReadAs(alphabet[k], alphabet[k], caseInsensitive);
  }

  /** Padding, separator and terminator are not read as letters. */
  ghost predicate Readable(alphabet: seq<byte>, caseInsensitive: bool, padding: int, separator: seq<byte>,
                           terminator: seq<byte>) {
    && Distinct(alphabet, caseInsensitive)
    && -1 <= padding < 256 && (padding != -1 ==> Outside([padding], alphabet, caseInsensitive))
    && Outside(separator, alphabet, caseInsensitive) && Outside(terminator, alphabet, caseInsensitive)
  }

  /** Decoding the grouped encoding of a message gives the message. */
  lemma DecodeGroupedEncoding(alphabet: seq<byte>, lookup: seq<int>, caseInsensitive: bool, padding: int, n: nat,
                              blockSize: nat,
                              g: nat, separator: seq<byte>, terminator: seq<byte>, message: seq<byte>)
    requires 1 <= n <= 7 && |alphabet| == Pow2(n) && blockSize > 0
    requires IsTable(lookup, alphabet, caseInsensitive)
    requires Readable(alphabet, caseInsensitive, padding, separator, terminator)
    ensures Decode(lookup, n, Group(g, separator, Encode(alphabet, padding, n, blockSize, message)) + terminator)
            == message
  {
    hide Encode, Group, Values, Digits, Concat, Padding, Letters, Decode, Pow2, AreDigits, Outside;
    var text := Encode(alphabet, padding, n, blockSize, message);
    ValuesOutside(lookup, alphabet, caseInsensitive, separator);
    ValuesOutside(lookup, alphabet, caseInsensitive, terminator);
    ValuesAppend(lookup, Group(g, separator, text), terminator);
    ValuesOfGroups(lookup, g, separator, text);
    ValuesOfEncoding(alphabet, lookup, caseInsensitive, padding, n, blockSize, message);
    var extra := DigitsCarry(Concat(message, 8), n);
    BitsOfDigits(Digits(Concat(message, 8), n), Concat(message, 8), n, extra);
    ScanDigits(Digits(Concat(message, 8), n), n);
    assert Values(lookup, text) + [] == Values(lookup, text);
    DecodeIs(lookup, n, Group(g, separator, text) + terminator, message, Zeros(extra));
  }

  lemma BitsOfDigits(s: seq<nat>, bits: seq<bool>, n: nat, extra: nat)
    requires AreDigits(s, bits, n, extra)
    ensures extra < n && Concat(s, n) == bits + Zeros(extra) && forall k :: 0 <= k < |s| ==> s[k] < Pow2(n)
  {
  }

  lemma ValuesOfEncoding(alphabet: seq<byte>, lookup: seq<int>, caseInsensitive: bool, padding: int, n: nat,
                         blockSize: nat,
                         message: seq<byte>)
    requires 1 <= n <= 7 && |alphabet| == Pow2(n) && blockSize > 0 && -1 <= padding < 256
    requires IsTable(lookup, alphabet, caseInsensitive) && Distinct(alphabet, caseInsensitive)
    requires padding != -1 ==> Outside([padding], alphabet, caseInsensitive)
    ensures Values(lookup, Encode(alphabet, padding, n, blockSize, message)) == Digits(Concat(message, 8), n)
  {
    hide Encode, Values, Digits, Concat, Padding, Letters, Pow2, Distinct;
    var digits := Digits(Concat(message, 8), n);
    DigitsInRange(Concat(message, 8), n);
    CellIsByte(n);
    EncodeUnfold(alphabet, padding, n, blockSize, message, digits);
    ValuesOfLetters(lookup, alphabet, caseInsensitive, digits);
    PaddingOutside(padding, |digits|, blockSize, alphabet, caseInsensitive);
    ValuesOutside(lookup, alphabet, caseInsensitive, Padding(padding, |digits|, blockSize));
    ValuesAppend(lookup, Letters(alphabet, digits), Padding(padding, |digits|, blockSize));
    assert digits + [] == digits;
  }

  lemma PaddingOutside(padding: int, count: nat, blockSize: nat, alphabet: seq<byte>, caseInsensitive: bool)
    requires -1 <= padding < 256 && blockSize > 0
    requires padding != -1 ==> Outside([padding], alphabet, caseInsensitive)
    ensures Outside(Padding(padding, count, blockSize), alphabet, caseInsensitive)
  {
    if padding != -1 {
      var b: byte := padding;
      forall j | 0 <= j < |alphabet| ensures !ReadAs(b, alphabet[j], caseInsensitive) {
        assert [b][0] == b;
      }
    }
  }

  /** A message that goes through encoder, grouper and decoder in pieces comes out as it went in. */
  method EncodeGroupDecode(encoder: BaseNEncoder, grouper: Grouper, decoder: BaseNDecoder, pieces: seq<seq<byte>>,
                           ghost caseInsensitive: bool)
    requires encoder.Valid() && grouper.Valid() && decoder.Valid() && encoder.outBuf != decoder.outBuf
    requires AtStart(encoder, grouper, decoder)
    requires encoder.bitsPerChar == decoder.bitsPerChar && IsTable(decoder.lookup, encoder.alphabet, caseInsensitive)
    requires Readable(encoder.alphabet, caseInsensitive, encoder.padding, grouper.separator, grouper.terminator)
    modifies encoder, encoder.outBuf, grouper, decoder, decoder.outBuf
    ensures encoder.Valid() && grouper.Valid() && decoder.Valid() && AtStart(encoder, grouper, decoder)
    ensures decoder.output == old(decoder.output) + Flatten(pieces)
  {
    hide Readable, IsTable;
    for i := 0 to |pieces|
      invariant encoder.Valid() && grouper.Valid() && decoder.Valid()
      invariant encoder.before == old(encoder.output) && grouper.before == old(grouper.output)
                && decoder.before == old(decoder.output)
      invariant encoder.Message() == Flatten(pieces[..i])
      invariant encoder.output == encoder.before + grouper.message && grouper.output == grouper.before + decoder.text
    {
      PutThrough(encoder, grouper, decoder, pieces[i], false);
      assert pieces[..i + 1][..i] == pieces[..i];
    }
    assert pieces[..|pieces|] == pieces;
    PutThrough(encoder, grouper, decoder, [], true);
    assert Flatten(pieces) + [] == Flatten(pieces);
    DecodeGroupedEncoding(encoder.alphabet, decoder.lookup, caseInsensitive, encoder.padding, encoder.bitsPerChar,
                          encoder.outputBlockSize, grouper.groupSize, grouper.separator, grouper.terminator,
                          Flatten(pieces));
  }

  /** Between messages. */
  ghost predicate AtStart(encoder: BaseNEncoder, grouper: Grouper, decoder: BaseNDecoder)
    reads encoder, grouper, decoder
  {
    && encoder.Message() == [] && encoder.output == encoder.before
    && grouper.message == [] && grouper.output == grouper.before
    && decoder.text == [] && decoder.output == decoder.before
  }

  /** What one stage puts out is what the next one takes in. */
  method PutThrough(encoder: BaseNEncoder, grouper: Grouper, decoder: BaseNDecoder, piece: seq<byte>, messageEnd: bool)
    requires encoder.Valid() && grouper.Valid() && decoder.Valid() && encoder.outBuf != decoder.outBuf
    requires encoder.output == encoder.before + grouper.message && grouper.output == grouper.before + decoder.text
    modifies encoder, encoder.outBuf, grouper, decoder, decoder.outBuf
    ensures encoder.Valid() && grouper.Valid() && decoder.Valid()
    ensures !messageEnd ==>
              && encoder.before == old(encoder.before) && grouper.before == old(grouper.before)
              && decoder.before == old(decoder.before)
              && encoder.Message() == old(encoder.Message()) + piece
              && encoder.output == encoder.before + grouper.message && grouper.output == grouper.before + decoder.text
    ensures messageEnd ==> AtStart(encoder, grouper, decoder)
    ensures messageEnd ==>
              var e := encoder;
              var text := Encode(e.alphabet, e.padding, e.bitsPerChar, e.outputBlockSize, old(e.Message()) + piece);
              decoder.output == old(decoder.before) +
                Decode(decoder.lookup, decoder.bitsPerChar,
                       Group(grouper.groupSize, grouper.separator, text) + grouper.terminator)
  {
    hide Encode, Group, Decode, BaseNEncoder.Valid, BaseNDecoder.Valid, Grouper.Valid;
    ghost var e, m := encoder.before, grouper.message;
    ghost var g, t := grouper.before, decoder.text;
    var sent, grouped := |encoder.output|, |grouper.output|;
    encoder.Put(piece, messageEnd);
    CutPrefix(encoder.output, e, m);
    grouper.Put(encoder.output[sent..], messageEnd);
    CutPrefix(grouper.output, g, t);
    decoder.Put(grouper.output[grouped..], messageEnd);
  }

  lemma CutPrefix(s: seq<byte>, a: seq<byte>, b: seq<byte>)
    requires Extends(s, a + b)
    ensures s == a + (b + s[|a + b|..])
    ensures forall c :: s == a + c ==> b + s[|a + b|..] == c
  {
    forall c | s == a + c ensures b + s[|a + b|..] == c {
      assert s[|a|..] == c;
    }
  }
}
