/** The buffer in which `AuthenticatedSymmetricCipherBase` and `CCM_Base` chain the data they authenticate. */
module CcmBuffer {
  import opened BitStrings
  import opened Sequences
  import opened Octets
  import opened BlockChaining
  import opened CcmFormat

  // What the buffer holds

  /** A buffer whose first n bytes and last 16 bytes are the state of chaining s, from x on. */
  ghost predicate Absorbed(c: BlockCipher, x: seq<byte>, s: seq<byte>, buf: seq<byte>, n: nat)
    requires IsCcmCipher(c) && |x| == 16
  {
    && |buf| == 32 && n <= 16
    && buf[..n] == Rest(16, s)
    && buf[16..] == Chain(c, x, Whole(16, s))
  }

  lemma AbsorbMore(c: BlockCipher, x: seq<byte>, s: seq<byte>, t: seq<byte>, buf: seq<byte>, n: nat, buf': seq<byte>,
                   n': nat)
    requires IsCcmCipher(c) && |x| == 16 && Absorbed(c, x, s, buf, n)
    requires |buf'| == 32 && n' <= 16 && buf'[..n'] == Rest(16, buf[..n] + t)
    requires buf'[16..] == Chain(c, buf[16..], Whole(16, buf[..n] + t))
    ensures Absorbed(c, x, s + t, buf', n')
  {
    hide Whole, Rest, Chain;
    WholeAppend(16, s, t);
    ChainAppend(c, x, Whole(16, s), Whole(16, Rest(16, s) + t));
  }

  /** After the padded last block. */
  lemma AbsorbPadding(c: BlockCipher, x: seq<byte>, s: seq<byte>, buf: seq<byte>, n: nat, buf': seq<byte>)
    requires IsCcmCipher(c) && |x| == 16 && Absorbed(c, x, s, buf, n)
    requires |buf'| == 32 && n < 16 && buf'[16..] == Chain(c, buf[16..], PaddedRest(16, buf[..n]))
    ensures buf'[16..] == Chain(c, x, PaddedBlocks(16, s))
  {
    hide Whole, Rest, Chain, PaddedBlocks;
    PaddingOfRest(16, s);
    ChainAppend(c, x, Whole(16, s), PaddedRest(16, Rest(16, s)));
  }

  lemma AbsorbNothing(c: BlockCipher, buf: seq<byte>)
    requires IsCcmCipher(c) && |buf| == 32
    ensures Absorbed(c, buf[16..], [], buf, 0)
  {
  }

  lemma AbsorbShort(c: BlockCipher, s: seq<byte>, buf: seq<byte>)
    requires IsCcmCipher(c) && |buf| == 32 && |s| < 16 && buf[..|s|] == s
    ensures Absorbed(c, buf[16..], s, buf, |s|)
  {
  }

  // What is written over

  /** The first 16 bytes of a buffer that holds n of them, after a piece of data: a block that is completed is written
      there, and so is what is left over, but whole blocks are taken from the input. */
  function TakePiece(b: seq<byte>, n: nat, piece: seq<byte>): (b': seq<byte>)
    requires |b| == 16 && n < 16
    ensures |b'| == 16
  {
    var data := b[..n] + piece;
    var rest := Rest(16, data);
    rest + (if n > 0 && |data| >= 16 then data[..16] else b)[|rest|..]
  }

  /** The first 16 bytes of a buffer that held none of them, after pieces of data. */
  function TakePieces(b: seq<byte>, pieces: seq<seq<byte>>): (b': seq<byte>)
    requires |b| == 16
    ensures |b'| == 16
  {
    if |pieces| == 0 then b
    else
      var before := pieces[..|pieces| - 1];
      TakePiece(TakePieces(b, before), |Flatten(before)| % 16, pieces[|pieces| - 1])
  }

  /** The nonce that the first block is made with, if the lengths are declared after pieces of data: it is read back
      from the buffer. */
  function FirstNonce(nonce: seq<byte>, pieces: seq<seq<byte>>): (first: seq<byte>)
    requires IsNonce(nonce)
    ensures |first| == |nonce|
  {
    TakePieces([LengthSize(nonce) - 1] + nonce + ZeroBytes(LengthSize(nonce)), pieces)[1..1 + |nonce|]
  }

  lemma OwnNonce(nonce: seq<byte>)
    requires IsNonce(nonce)
    ensures FirstNonce(nonce, []) == nonce
  {
  }

  lemma TakeNext(b: seq<byte>, pieces: seq<seq<byte>>, i: nat)
    requires |b| == 16 && i < |pieces|
    ensures TakePieces(b, pieces[..i + 1])
            == TakePiece(TakePieces(b, pieces[..i]), |Flatten(pieces[..i])| % 16, pieces[i])
  {
    hide TakePiece, Flatten;
    assert pieces[..i + 1][..i] == pieces[..i];
  }

  lemma TakeNothing(b: seq<byte>, n: nat, piece: seq<byte>)
    requires |b| == 16 && n < 16 && piece == []
    ensures TakePiece(b, n, piece) == b
  {
    assert b[..n] + piece == b[..n];
  }

  lemma {:induction false} RestSize(s: seq<byte>)
    ensures |Rest(16, s)| == |s| % 16
  {
    if |s| >= 16 {
      RestSize(s[16..]);
      SameRemainder(|s| - 16);
    }
  }

  lemma SameRemainder(n: nat)
    ensures (n + 16) % 16 == n % 16
  {
  }

  /** The buffering part of `AuthenticatedSymmetricCipherBase` and of `CCM_Base`. */
  class Authenticator {
    const buffer: array<byte>
    var cipher: BlockCipher
    var bufferedDataLength: nat

    constructor (cipher: BlockCipher)
      ensures buffer.Length == 32 && fresh(buffer) && bufferedDataLength == 0 && this.cipher == cipher
    {
      buffer := new byte[32];
      bufferedDataLength := 0;
      this.cipher := cipher;
    }

    ghost predicate Ready()
      reads this
    {
      buffer.Length == 32 && IsCcmCipher(cipher) && bufferedDataLength <= 16
    }

    /** Writes into the part of the buffer that holds an incomplete block. */
    method Store(position: nat, s: seq<byte>)
      requires Ready() && position + |s| <= 16
      modifies buffer
      ensures buffer[..position + |s|] == old(buffer[..position]) + s
      ensures buffer[position + |s|..] == old(buffer[position + |s|..])
      ensures buffer[16..] == old(buffer[16..])
    {
      forall i | 0 <= i < |s| {
        buffer[position + i] := s[i];
      }
    }

    /** Writes at the start of the buffer. */
    method StoreFirst(s: seq<byte>)
      requires Ready() && |s| <= 16
      modifies buffer
      ensures buffer[..|s|] == s && buffer[16..] == old(buffer[16..])
      ensures buffer[..16] == s + old(buffer[..16])[|s|..]
    {
      Store(0, s);
      assert buffer[..0 + |s|] == buffer[..|s|];
      assert buffer[..16] == buffer[..|s|] + buffer[|s|..][..16 - |s|];
    }

    /** Writes the chaining value, `CBC_Buffer()`. */
    method SetChaining(s: seq<byte>)
      requires Ready() && |s| == 16
      modifies buffer
      ensures buffer[16..] == s && buffer[..16] == old(buffer[..16])
    {
      forall i | 0 <= i < 16 {
        buffer[16 + i] := s[i];
      }
    }

    /** Chains one block. */
    method AuthenticateBlock(block: seq<byte>)
      requires Ready() && |block| == 16
      modifies buffer
      ensures buffer[..16] == old(buffer[..16])
      ensures buffer[16..] == cipher.encrypt(Xor(block, old(buffer[16..])))
    {
      SetChaining(cipher.encrypt(Xor(block, buffer[16..])));
    }

    /** `AdvancedProcessBlocks` with the chaining buffer as input and output. */
    method AuthenticateBlocks(data: seq<byte>) returns (leftOver: nat)
      requires Ready()
      modifies buffer
      ensures leftOver == |Rest(16, data)|
      ensures buffer[..16] == old(buffer[..16])
      ensures buffer[16..] == Chain(cipher, old(buffer[16..]), Whole(16, data))
    {
      hide Chain, Whole, Rest;
      var position := 0;
      ghost var done: seq<seq<byte>> := [];
      leftOver := |data|;
      assert data[0..] == data;
      assert done + Whole(16, data) == Whole(16, data);
      ChainNone(cipher, buffer[16..]);
      while leftOver >= 16
        invariant leftOver == |data| - position && position <= |data|
        invariant buffer[..16] == old(buffer[..16])
        invariant forall k :: 0 <= k < |done| ==> |done[k]| == 16
        invariant Whole(16, data) == done + Whole(16, data[position..])
        invariant Rest(16, data) == Rest(16, data[position..])
        invariant buffer[16..] == Chain(cipher, old(buffer[16..]), done)
        decreases leftOver
      {
        ghost var block := data[position..position + 16];
        NextBlock(data, position, done);
        ChainNext(cipher, old(buffer[16..]), done, block);
        AuthenticateBlock(data[position..position + 16]);
        done := done + [block];
        position := position + 16;
        leftOver := leftOver - 16;
      }
      WholeShort(16, data[position..]);
      assert done + [] == done;
    }

    /** Takes in whole blocks and saves what is left. */
    method SaveLeftOver(data: seq<byte>)
      requires Ready()
      modifies buffer, `bufferedDataLength
      ensures Ready() && bufferedDataLength < 16 && buffer[..bufferedDataLength] == Rest(16, data)
      ensures bufferedDataLength == |Rest(16, data)|
      ensures buffer[..16] == Rest(16, data) + old(buffer[..16])[|Rest(16, data)|..]
      ensures buffer[16..] == Chain(cipher, old(buffer[16..]), Whole(16, data))
    {
      hide Chain, Whole, Rest;
      var input := data;
      if |data| >= 16 {
        var leftOver := AuthenticateBlocks(data);
        input := data[|data| - leftOver..];
      } else {
        WholeShort(16, data);
        ChainNone(cipher, buffer[16..]);
      }
      assert input == Rest(16, data);
      StoreFirst(input);
      bufferedDataLength := |input|;
    }

    /** Fills up the block that is held, and chains it; the rest of the input is still to come. */
    method CompleteBlock(input: seq<byte>) returns (rest: seq<byte>)
      requires Ready() && bufferedDataLength < 16 && bufferedDataLength + |input| >= 16
      modifies buffer, `bufferedDataLength
      ensures Ready() && bufferedDataLength == 0
      ensures buffer[..16] == (old(buffer[..bufferedDataLength]) + input)[..16]
      ensures var data := old(buffer[..bufferedDataLength]) + input;
              && Chain(cipher, old(buffer[16..]), Whole(16, data)) == Chain(cipher, buffer[16..], Whole(16, rest))
              && Rest(16, data) == Rest(16, rest)
    {
      hide Xor, Chain, Whole, Rest;
      var n := bufferedDataLength;
      rest := input[16 - n..];
      ghost var block, data := buffer[..n] + input[..16 - n], buffer[..n] + input;
      assert data == block + rest;
      FillBlock(cipher, buffer[16..], data, block, rest);
      Store(n, input[..16 - n]);
      assert buffer[..16] == block == data[..16];
      AuthenticateBlock(buffer[..16]);
      bufferedDataLength := 0;
    }

    /** Takes in data, block by block; what does not fill a block stays in the buffer. */
    method AuthenticateData(input: seq<byte>)
      requires Ready() && bufferedDataLength < 16
      modifies buffer, `bufferedDataLength
      ensures Ready() && bufferedDataLength < 16
      ensures buffer[..16] == TakePiece(old(buffer[..16]), old(bufferedDataLength), input)
      ensures var data := old(buffer[..bufferedDataLength]) + input;
              && bufferedDataLength == |Rest(16, data)| && buffer[..bufferedDataLength] == Rest(16, data)
              && buffer[16..] == Chain(cipher, old(buffer[16..]), Whole(16, data))
    {
      hide Chain, Whole, Rest;
      var data, n, len := input, bufferedDataLength, |input|;
      ghost var held, cbc, first := buffer[..n], buffer[16..], buffer[..16];
      assert first[..n] == held;
      if n != 0 {
        if n + len >= 16 {
          data := CompleteBlock(input);
        } else {
          Store(n, input);
          assert buffer[..16] == buffer[..n + len] + first[n + len..];
          WholeShort(16, held + input);
          ChainNone(cipher, cbc);
          bufferedDataLength := n + len;
          return;
        }
      } else {
        assert held + input == input;
      }
      SaveLeftOver(data);
    }

    /** Takes in what is left in the buffer. */
    method AuthenticateRest()
      requires Ready() && bufferedDataLength < 16
      modifies buffer, `bufferedDataLength
      ensures Ready() && bufferedDataLength == 0
      ensures buffer[16..] == Chain(cipher, old(buffer[16..]), PaddedRest(16, old(buffer[..bufferedDataLength])))
    {
      hide Chain, Xor;
      ghost var rest, cbc := buffer[..bufferedDataLength], buffer[16..];
      ChainNone(cipher, cbc);
      if bufferedDataLength > 0 {
        XorPart(rest, cbc);
        ChainOne(cipher, cbc, rest + ZeroBytes(16 - |rest|));
        var n := bufferedDataLength;
        assert buffer[16..16 + n] == cbc[..n];
        SetChaining(Xor(buffer[..n], buffer[16..16 + n]) + buffer[16 + n..]);
        SetChaining(cipher.encrypt(buffer[16..]));
        bufferedDataLength := 0;
      }
    }
  }

  lemma NextBlock(data: seq<byte>, position: nat, done: seq<seq<byte>>)
    requires position + 16 <= |data|
    ensures var block := data[position..position + 16];
            && done + Whole(16, data[position..]) == done + [block] + Whole(16, data[position + 16..])
            && Rest(16, data[position..]) == Rest(16, data[position + 16..])
  {
    hide Whole, Rest;
    var block := data[position..position + 16];
    WholeStep(16, block, data[position + 16..]);
    assert data[position..] == block + data[position + 16..];
    AppendAssociates(done, [block], Whole(16, data[position + 16..]));
  }

  /** The first part of the input completes the block that is held. */
  lemma FillBlock(c: BlockCipher, cbc: seq<byte>, data: seq<byte>, block: seq<byte>, rest: seq<byte>)
    requires IsCcmCipher(c) && |cbc| == 16 == |block| && data == block + rest
    ensures |c.encrypt(Xor(block, cbc))| == 16
    ensures Chain(c, cbc, Whole(16, data)) == Chain(c, c.encrypt(Xor(block, cbc)), Whole(16, rest))
    ensures Rest(16, data) == Rest(16, rest)
  {
    hide Chain, Whole, Rest, Xor;
    WholeStep(16, block, rest);
    ChainFirst(c, cbc, block, Whole(16, rest));
  }

  /** Exclusive or with part of a block is exclusive or with the block filled up with zeros. */
  lemma XorPart(rest: seq<byte>, cbc: seq<byte>)
    requires |rest| <= 16 == |cbc|
    ensures Xor(rest, cbc[..|rest|]) + cbc[|rest|..] == Xor(rest + ZeroBytes(16 - |rest|), cbc)
  {
    hide XorByte;
    var a, b := Xor(rest, cbc[..|rest|]) + cbc[|rest|..], Xor(rest + ZeroBytes(16 - |rest|), cbc);
    forall i | |rest| <= i < 16 ensures a[i] == b[i] {
      XorZeroByte(cbc[i]);
    }
  }

  lemma XorZeroByte(b: byte)
    ensures XorByte(0, b) == b == XorByte(b, 0)
  {
    XorZero(b);
  }
}
