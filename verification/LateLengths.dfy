/** What CCM authenticates if the lengths are declared only after some of the header has been given. */
module LateLengths {
  import opened Arithmetic
  import opened BitStrings
  import opened Octets
  import opened BlockChaining
  import opened CcmFormat
  import opened CcmBuffer
  import opened Ccm

  /** B_0 and the blocks after it. */
  function Blocks(first: seq<byte>, t: nat, aad: nat, header: seq<byte>, message: seq<byte>): seq<seq<byte>>
    requires IsNonce(first) && IsTagSize(t)
  {
    [FirstBlock(first, aad, |message|, t)] + (HeaderBlocks(aad, header) + PaddedBlocks(16, message))
  }

  ghost predicate AllZero(s: seq<byte>) {
    forall i :: 0 <= i < |s| ==> s[i] == 0
  }

  /** The zeros that fill up the last block after n bytes. */
  function Spare(n: nat): (k: nat)
    ensures k < 16
  {
    if n % 16 == 0 then 0 else 16 - n % 16
  }

  /** A header that padding hides: it is zero and disappears in the padding of the rest, which is zero too, and where it
      has been written over the nonce, the nonce is zero as well. */
  ghost predicate IsHidden(nonce: seq<byte>, early: seq<byte>, later: seq<byte>) {
    && 0 < |early| <= Spare(|AadPrefix(|early + later|) + later|)
    && AllZero(early + later) && AllZero(nonce[..Min(|nonce|, |early| - 1)])
  }

  // Padding

  /** Two strings are padded to the same blocks if and only if one is the other with some of its padding. */
  lemma {:induction false} PaddedSame(s: seq<byte>, u: seq<byte>)
    requires |s| <= |u|
    ensures PaddedBlocks(16, s) == PaddedBlocks(16, u) <==> |u| - |s| <= Spare(|s|) && u == s + ZeroBytes(|u| - |s|)
  {
    hide PaddedBlocks, Spare;
    if |s| > 16 {
      PaddedLong(16, s);
      PaddedLong(16, u);
      PaddedSame(s[16..], u[16..]);
      SpareRepeats(|s| - 16);
      assert PaddedBlocks(16, s)[1..] == PaddedBlocks(16, s[16..])
             && PaddedBlocks(16, u)[1..] == PaddedBlocks(16, u[16..]);
      SameInParts(s, u);
    } else if |u| > 16 {
      MoreBlocks(s, u);
    } else {
      OneBlock(s);
      OneBlock(u);
      SameInOneBlock(s, u);
    }
  }

  lemma SpareRepeats(n: nat)
    ensures Spare(n + 16) == Spare(n)
  {
    SameRemainder(n);
  }

  lemma SameInParts(s: seq<byte>, u: seq<byte>)
    requires 16 < |s| <= |u|
    ensures u == s + ZeroBytes(|u| - |s|) <==> u[..16] == s[..16] && u[16..] == s[16..] + ZeroBytes(|u| - |s|)
  {
    var z := ZeroBytes(|u| - |s|);
    assert u == u[..16] + u[16..] && s == s[..16] + s[16..];
    assert (s + z)[..16] == s[..16] && (s + z)[16..] == s[16..] + z;
  }

  lemma MoreBlocks(s: seq<byte>, u: seq<byte>)
    requires |s| <= 16 < |u|
    ensures PaddedBlocks(16, s) != PaddedBlocks(16, u) && |u| - |s| > Spare(|s|)
  {
    hide Spare;
    SpareBelow(|s|);
    assert |PaddedBlocks(16, u[16..])| > 0;
  }

  lemma OneBlock(s: seq<byte>)
    requires |s| <= 16
    ensures PaddedBlocks(16, s) == if |s| == 0 then [] else [s + ZeroBytes(16 - |s|)]
    ensures Spare(|s|) == if |s| == 0 then 0 else 16 - |s|
  {
    hide ZeroBytes;
    SpareBelow(|s|);
  }

  lemma SpareBelow(n: nat)
    requires n <= 16
    ensures Spare(n) == if n == 0 then 0 else 16 - n
  {
  }

  lemma SameInOneBlock(s: seq<byte>, u: seq<byte>)
    requires |s| <= |u| <= 16
    ensures s + ZeroBytes(16 - |s|) == u + ZeroBytes(16 - |u|) <==> u == s + ZeroBytes(|u| - |s|)
  {
    var a, b, z := s + ZeroBytes(16 - |s|), u + ZeroBytes(16 - |u|), ZeroBytes(|u| - |s|);
    assert a == s + z + ZeroBytes(16 - |u|);
    if a == b {
      assert u == b[..|u|] == a[..|u|] == s + z;
    }
  }

  /** Only zeros can be moved from the front of a string to its end. */
  lemma ZerosMove(e: seq<byte>, s: seq<byte>)
    requires |e| > 0
    ensures e + s == s + ZeroBytes(|e|) <==> AllZero(e + s)
  {
    if e + s == s + ZeroBytes(|e|) {
      ZeroFromEnd(e, s, 0);
    }
    if AllZero(e + s) {
      assert forall i :: 0 <= i < |s| ==> s[i] == (e + s)[|e| + i] == 0;
      assert e + s == s + ZeroBytes(|e|);
    }
  }

  lemma {:induction false} ZeroFromEnd(e: seq<byte>, s: seq<byte>, from: nat)
    requires |e| > 0 && e + s == s + ZeroBytes(|e|) && from <= |s|
    ensures forall i :: from <= i < |e + s| ==> (e + s)[i] == 0
    decreases |s| - from
  {
    var x := s + ZeroBytes(|e|);
    if from < |s| {
      ZeroFromEnd(e, s, from + 1);
      assert x[from] == s[from] == (e + s)[from + |e|];
    }
  }

  // The buffer

  lemma {:induction false} ShortPieces(b: seq<byte>, pieces: seq<seq<byte>>)
    requires |b| == 16 && |Flatten(pieces)| < 16
    ensures TakePieces(b, pieces) == Flatten(pieces) + b[|Flatten(pieces)|..]
  {
    hide TakePiece;
    if |pieces| > 0 {
      var k := |pieces| - 1;
      FlattenNext(pieces, k);
      TakeNext(b, pieces, k);
      assert pieces[..k + 1] == pieces;
      ShortPieces(b, pieces[..k]);
      TakeShort(b, Flatten(pieces[..k]), pieces[k]);
    }
  }

  lemma TakeShort(b: seq<byte>, s: seq<byte>, piece: seq<byte>)
    requires |b| == 16 && |s| + |piece| < 16
    ensures TakePiece(s + b[|s|..], |s|, piece) == s + piece + b[|s + piece|..]
  {
    WholeShort(16, s + piece);
    assert (s + b[|s|..])[..|s|] == s;
  }

  /** Whole blocks leave the buffer alone. */
  lemma {:induction false} WholePieces(b: seq<byte>, pieces: seq<seq<byte>>)
    requires |b| == 16 && forall i :: 0 <= i < |pieces| ==> |pieces[i]| % 16 == 0
    ensures TakePieces(b, pieces) == b && |Flatten(pieces)| % 16 == 0
  {
    hide TakePiece;
    if |pieces| > 0 {
      var k := |pieces| - 1;
      FlattenNext(pieces, k);
      TakeNext(b, pieces, k);
      assert pieces[..k + 1] == pieces;
      WholePieces(b, pieces[..k]);
      TakeWhole(b, pieces[k]);
    }
  }

  lemma TakeWhole(b: seq<byte>, piece: seq<byte>)
    requires |b| == 16 && |piece| % 16 == 0
    ensures TakePiece(b, 0, piece) == b
  {
    hide Rest;
    assert b[..0] + piece == piece;
    RestSize(piece);
    assert [] + b[0..] == b;
  }

  lemma NonceAfterBlocks(nonce: seq<byte>, pieces: seq<seq<byte>>)
    requires IsNonce(nonce) && forall i :: 0 <= i < |pieces| ==> |pieces[i]| % 16 == 0
    ensures FirstNonce(nonce, pieces) == nonce && |Flatten(pieces)| % 16 == 0
  {
    hide TakePieces;
    WholePieces([LengthSize(nonce) - 1] + nonce + ZeroBytes(LengthSize(nonce)), pieces);
  }

  /** A few zeros written over a nonce leave it alone if and only if it starts with zeros. */
  lemma NonceAfterZeros(nonce: seq<byte>, pieces: seq<seq<byte>>)
    requires IsNonce(nonce) && 0 < |Flatten(pieces)| < 16 && AllZero(Flatten(pieces))
    ensures FirstNonce(nonce, pieces) == nonce <==> AllZero(nonce[..Min(|nonce|, |Flatten(pieces)| - 1)])
  {
    hide TakePieces, Flatten;
    var b, e := [LengthSize(nonce) - 1] + nonce + ZeroBytes(LengthSize(nonce)), Flatten(pieces);
    ShortPieces(b, pieces);
    assert FirstNonce(nonce, pieces) == (e + b[|e|..])[1..1 + |nonce|];
    OverwriteWithZeros(b, nonce, e);
  }

  lemma OverwriteWithZeros(b: seq<byte>, nonce: seq<byte>, e: seq<byte>)
    requires |b| == 16 && IsNonce(nonce) && b[1..1 + |nonce|] == nonce && 0 < |e| < 16 && AllZero(e)
    ensures (e + b[|e|..])[1..1 + |nonce|] == nonce <==> AllZero(nonce[..Min(|nonce|, |e| - 1)])
  {
    var c, m := (e + b[|e|..])[1..1 + |nonce|], Min(|nonce|, |e| - 1);
    assert forall i :: 0 <= i < |nonce| ==> nonce[i] == b[i + 1];
    assert forall i :: 0 <= i < |nonce| ==> c[i] == if i < m then 0 else nonce[i];
    if c == nonce {
      assert forall i :: 0 <= i < m ==> nonce[..m][i] == c[i] == 0;
    } else if AllZero(nonce[..m]) {
      assert forall i :: 0 <= i < m ==> nonce[i] == nonce[..m][i] == 0;
    }
  }

  lemma NonceAfterNothing(nonce: seq<byte>, pieces: seq<seq<byte>>)
    requires IsNonce(nonce) && |Flatten(pieces)| == 0
    ensures FirstNonce(nonce, pieces) == nonce
  {
    hide TakePieces, Flatten;
    ShortPieces([LengthSize(nonce) - 1] + nonce + ZeroBytes(LengthSize(nonce)), pieces);
  }

  // What is authenticated

  lemma PartsSame<T>(x: T, y: T, a: seq<T>, b: seq<T>, c: seq<T>)
    ensures [x] + (a + c) == [y] + (b + c) <==> x == y && a == b
  {
    if [x] + (a + c) == [y] + (b + c) {
      assert x == ([x] + (a + c))[0] && y == ([y] + (b + c))[0];
      assert a + c == ([x] + (a + c))[1..] == ([y] + (b + c))[1..] == b + c;
      assert a == (a + c)[..|a|] && b == (b + c)[..|a|];
    }
  }

  lemma FirstBlocksSame(first: seq<byte>, nonce: seq<byte>, aad: nat, message: nat, t: nat)
    requires IsNonce(first) && IsNonce(nonce) && |first| == |nonce| && IsTagSize(t)
    ensures FirstBlock(first, aad, message, t) == FirstBlock(nonce, aad, message, t) <==> first == nonce
  {
    hide BigEndian;
    assert FirstBlock(first, aad, message, t)[1..1 + |first|] == first;
    assert FirstBlock(nonce, aad, message, t)[1..1 + |nonce|] == nonce;
  }

  lemma PrefixCancels(p: seq<byte>, early: seq<byte>, later: seq<byte>)
    ensures p + (early + later) == p + later + ZeroBytes(|early|) <==> early + later == later + ZeroBytes(|early|)
  {
    assert p + later + ZeroBytes(|early|) == p + (later + ZeroBytes(|early|));
    assert (p + (early + later))[|p|..] == early + later;
    assert (p + (later + ZeroBytes(|early|)))[|p|..] == later + ZeroBytes(|early|);
  }

  lemma HeaderSame(early: seq<byte>, later: seq<byte>)
    ensures HeaderBlocks(|early + later|, later) == HeaderBlocks(|early + later|, early + later)
            <==> early == []
                 || (|early| <= Spare(|AadPrefix(|early + later|) + later|) && AllZero(early + later))
  {
    hide PaddedBlocks, AadPrefix, Spare, AllZero;
    var p := AadPrefix(|early + later|);
    PaddedSame(p + later, p + (early + later));
    PrefixCancels(p, early, later);
    if early == [] {
      assert early + later == later;
    } else {
      ZerosMove(early, later);
    }
  }

  /** The blocks chained are the standard's for the whole header if and only if nothing came early, or padding hides
      it. */
  lemma LateIsStandard(nonce: seq<byte>, earlyPieces: seq<seq<byte>>, later: seq<byte>, message: seq<byte>, t: nat)
    requires IsNonce(nonce) && IsTagSize(t)
    ensures var early := Flatten(earlyPieces); var aad := |early + later|;
            Blocks(FirstNonce(nonce, earlyPieces), t, aad, later, message)
              == Blocks(nonce, t, aad, early + later, message)
            <==> early == [] || IsHidden(nonce, early, later)
  {
    hide FirstBlock, HeaderBlocks, PaddedBlocks, AadPrefix, Spare, AllZero, Flatten, FirstNonce;
    var early, first := Flatten(earlyPieces), FirstNonce(nonce, earlyPieces);
    var aad := |early + later|;
    PartsSame(FirstBlock(first, aad, |message|, t), FirstBlock(nonce, aad, |message|, t),
              HeaderBlocks(aad, later), HeaderBlocks(aad, early + later), PaddedBlocks(16, message));
    FirstBlocksSame(first, nonce, aad, |message|, t);
    HeaderSame(early, later);
    if early == [] {
      NonceAfterNothing(nonce, earlyPieces);
    } else if |early| <= Spare(|AadPrefix(aad) + later|) && AllZero(early + later) {
      FrontIsZero(early, later);
      NonceAfterZeros(nonce, earlyPieces);
    }
  }

  lemma FrontIsZero(early: seq<byte>, later: seq<byte>)
    requires AllZero(early + later)
    ensures AllZero(early)
  {
    assert forall i :: 0 <= i < |early| ==> early[i] == (early + later)[i];
  }

  /** Sixteen bytes or more are never hidden. */
  lemma BlocksAreNotHidden(nonce: seq<byte>, early: seq<byte>, later: seq<byte>)
    requires |early| % 16 == 0
    ensures !IsHidden(nonce, early, later)
  {
  }

  /** The tag is made from these blocks. */
  lemma TagOfBlocks(c: BlockCipher, first: seq<byte>, t: nat, aad: nat, header: seq<byte>, message: seq<byte>)
    requires IsCcmCipher(c) && IsNonce(first) && IsTagSize(t)
    ensures var blocks := Blocks(first, t, aad, header, message);
            MacFrom(c, first, t, aad, header, message) == Chain(c, c.encrypt(blocks[0]), blocks[1..])
  {
    hide Chain, FirstBlock;
    assert Blocks(first, t, aad, header, message)[1..] == HeaderBlocks(aad, header) + PaddedBlocks(16, message);
  }

  ghost predicate InBlocks(pieces: seq<seq<byte>>) {
    forall i :: 0 <= i < |pieces| ==> |pieces[i]| % 16 == 0
  }

  /** Two headers that differ in whole blocks given before the lengths get the same tag. */
  method TwoHeadersOneTag(o: CcmMode, iv: seq<byte>, earlyPieces: seq<seq<byte>>, otherPieces: seq<seq<byte>>,
                          headerPieces: seq<seq<byte>>, pieces: seq<seq<byte>>, macSize: nat)
    returns (outcome: Outcome, mac: seq<byte>, otherMac: seq<byte>)
    requires o.Valid() && macSize <= 16 && |Flatten(pieces)| < 0x1_0000_0000_0000_0000
    requires InBlocks(earlyPieces) && InBlocks(otherPieces) && |Flatten(otherPieces)| == |Flatten(earlyPieces)|
    requires |Flatten(earlyPieces)| + |Flatten(headerPieces)| < 0x1_0000_0000_0000_0000
    modifies o, o.auth, o.auth.buffer
    ensures o.Valid() && outcome == old(o.RunOutcome(iv, |Flatten(pieces)|))
    ensures outcome == Done ==> |mac| == macSize && mac == otherMac
  {
    hide CcmMode.Valid, Flatten, Crypt, FirstNonce, TagFrom, MacFrom, Pow256;
    otherMac := [];
    var output;
    outcome, output, mac := o.RunFrom(iv, earlyPieces, headerPieces, pieces, macSize);
    if outcome == Done {
      NonceAfterBlocks(iv, earlyPieces);
      NonceAfterBlocks(iv, otherPieces);
      outcome, output, otherMac := o.RunFrom(iv, otherPieces, headerPieces, pieces, macSize);
    }
  }

  /** A block of ones is lost: it leaves the blocks of a block of zeros. */
  lemma LostBlock(nonce: seq<byte>, t: nat)
    requires IsNonce(nonce) && IsTagSize(t)
    ensures var ones, zeros := seq(16, _ => 1), ZeroBytes(16);
            && Blocks(FirstNonce(nonce, [ones]), t, 16, [], []) == Blocks(FirstNonce(nonce, [zeros]), t, 16, [], [])
            && Blocks(FirstNonce(nonce, [ones]), t, 16, [], []) != Blocks(nonce, t, 16, ones, [])
  {
    hide Blocks, FirstNonce, IsHidden;
    var ones: seq<byte>, zeros := seq(16, _ => 1), ZeroBytes(16);
    NonceAfterBlocks(nonce, [ones]);
    NonceAfterBlocks(nonce, [zeros]);
    FlattenOne(ones);
    LateIsStandard(nonce, [ones], [], [], t);
    BlocksAreNotHidden(nonce, ones, []);
    assert ones + [] == ones;
  }

  /** One zero byte is hidden. */
  lemma HiddenByte(nonce: seq<byte>, t: nat)
    requires IsNonce(nonce) && IsTagSize(t)
    ensures Blocks(FirstNonce(nonce, [[0]]), t, 1, [], []) == Blocks(nonce, t, 1, [0], [])
  {
    hide Blocks, FirstNonce, BigEndian;
    FlattenOne([0]);
    LateIsStandard(nonce, [[0]], [], [], t);
    assert [0] + [] == [0] && AadPrefix(1) + [] == AadPrefix(1);
  }

  /** Less than a block is written over the nonce. */
  lemma WrongNonce(nonce: seq<byte>)
    requires IsNonce(nonce)
    ensures FirstNonce(nonce, [[1, 2]]) == [2] + nonce[1..]
  {
    hide TakePieces, Flatten;
    var b := [LengthSize(nonce) - 1] + nonce + ZeroBytes(LengthSize(nonce));
    FlattenOne([1, 2]);
    ShortPieces(b, [[1, 2]]);
    assert FirstNonce(nonce, [[1, 2]]) == ([1, 2] + b[2..])[1..1 + |nonce|];
    assert b[2..1 + |nonce|] == nonce[1..];
  }
}
