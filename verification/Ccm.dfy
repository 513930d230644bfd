/** `AuthenticatedSymmetricCipherBase` and `CCM_Base`. */
module Ccm {
  import opened Arithmetic
  import opened BitStrings
  import opened Octets
  import opened BlockChaining
  import opened CcmFormat
  import opened CcmBuffer

  datatype State = Start | KeySet | IvSet | AuthUntransformed | AuthTransformed | AuthFooter

  /** How a call ends: normally or with an exception. */
  datatype Outcome = Done | BadState | InvalidArgument

  predicate HasIv(s: State) {
    s != Start && s != KeySet
  }

  // Counter mode

  function CtrByte(c: BlockCipher, start: seq<byte>, p: nat): byte
    requires IsCcmCipher(c) && |start| == 16
  {
    c.encrypt(Counter(start, p / 16))[p % 16]
  }

  function CtrStream(c: BlockCipher, start: seq<byte>, from: nat, n: nat): (s: seq<byte>)
    requires IsCcmCipher(c) && |start| == 16
    ensures |s| == n
  {
    if n == 0 then [] else CtrStream(c, start, from, n - 1) + [CtrByte(c, start, from + n - 1)]
  }

  ghost predicate IsCtrStart(nonce: seq<byte>, start: seq<byte>)
    requires IsNonce(nonce)
  {
    start == [LengthSize(nonce) - 1] + nonce + ZeroBytes(LengthSize(nonce))
  }

  lemma CtrByteIs(c: BlockCipher, nonce: seq<byte>, start: seq<byte>, p: nat)
    requires IsCcmCipher(c) && IsNonce(nonce) && IsCtrStart(nonce, start) && |start| == 16
    requires p < 16 + Pow256(LengthSize(nonce))
    ensures CtrByte(c, start, p) == KeyByte(c, nonce, p)
  {
    EnoughCounters(LengthSize(nonce), p);
    CounterIsBlock(nonce, start, p / 16);
  }

  lemma EnoughCounters(l: nat, p: nat)
    requires 2 <= l && p < 16 + Pow256(l)
    ensures p / 16 < Pow256(l)
  {
    assert Pow256(l) == 256 * Pow256(l - 1);
  }

  lemma {:induction false} CtrStreamIs(c: BlockCipher, nonce: seq<byte>, start: seq<byte>, from: nat, n: nat)
    requires IsCcmCipher(c) && IsNonce(nonce) && IsCtrStart(nonce, start) && |start| == 16
    requires from + n <= 16 + Pow256(LengthSize(nonce))
    ensures CtrStream(c, start, from, n) == KeyStream(c, nonce, from, n)
  {
    hide KeyByte, CtrByte, IsCtrStart;
    if n > 0 {
      CtrStreamIs(c, nonce, start, from, n - 1);
      CtrByteIs(c, nonce, start, from + n - 1);
    }
  }


  /** The chaining value after the first block. */
  function Begin(c: BlockCipher, nonce: seq<byte>, aad: nat, message: nat, t: nat): (x: seq<byte>)
    requires IsCcmCipher(c) && IsTagSize(t) && IsNonce(nonce)
    ensures |x| == 16
  {
    c.encrypt(FirstBlock(nonce, aad, message, t))
  }

  class CcmMode {
    const forward: bool
    const auth: Authenticator
    var state: State
    var digestSize: int
    var l: nat
    var totalHeaderLength: nat
    var totalMessageLength: nat
    var totalFooterLength: nat
    var aadLength: nat
    var messageLength: nat
    var ctrStart: seq<byte>
    var ctrPosition: nat

    // The nonce; the nonce that the first block was made with; the header before the lengths were declared, and since;
    // the message; whether the object is as the nonce left it; and whether the lengths have been declared, and no call
    // has failed since.
    ghost var nonce: seq<byte>
    ghost var first: seq<byte>
    ghost var early: seq<byte>
    ghost var header: seq<byte>
    ghost var message: seq<byte>
    ghost var pristine: bool
    ghost var declared: bool

    ghost predicate Valid()
      reads this, auth, auth.buffer
    {
      && auth.buffer.Length == 32 && auth.bufferedDataLength < 16
      && (state != Start ==> IsCcmCipher(auth.cipher) && IsTagSize(digestSize))
      && (HasIv(state) ==> IsNonce(nonce) && l == LengthSize(nonce) && |ctrStart| == 16 && IsCtrStart(nonce, ctrStart))
      && (state == AuthUntransformed ==> forward) && (state == AuthTransformed ==> !forward)
      && (HasIv(state) ==> (state == AuthFooter <==> totalFooterLength > 0))
      && (state == IvSet ==> totalHeaderLength == |early + header| && message == [] && ctrPosition == 16)
      && (pristine ==> state == IvSet && !declared && Pristine())
      && (declared ==> HasIv(state) && |first| == |nonce| && messageLength < Pow256(l) && InStep())
    }

    ghost predicate Pristine()
      requires auth.buffer.Length == 32 && HasIv(state) && IsNonce(nonce) && l == LengthSize(nonce)
      reads this, auth, auth.buffer
    {
      && early == header == [] && totalMessageLength == aadLength == messageLength == 0
      && auth.bufferedDataLength == 0 && auth.buffer[..16] == [l - 1] + nonce + ZeroBytes(l)
    }

    /** The chaining value after the first block. */
    ghost function Begun(): (x: seq<byte>)
      requires IsCcmCipher(auth.cipher) && IsTagSize(digestSize) && IsNonce(first)
      reads this, auth
      ensures |x| == 16
    {
      Begin(auth.cipher, first, aadLength, messageLength, digestSize)
    }

    /** The chaining value after the header. */
    ghost function HeaderChained(): (x: seq<byte>)
      requires IsCcmCipher(auth.cipher) && IsTagSize(digestSize) && IsNonce(first)
      reads this, auth
      ensures |x| == 16
    {
      Chain(auth.cipher, Begun(), HeaderBlocks(aadLength, header))
    }

    /** The data given since the lengths were declared has been chained after the first block. */
    ghost predicate InStep()
      requires auth.buffer.Length == 32 && HasIv(state) && IsNonce(first)
      requires IsCcmCipher(auth.cipher) && IsTagSize(digestSize)
      reads this, auth, auth.buffer
    {
      var buf, n := auth.buffer[..], auth.bufferedDataLength;
      if state == IvSet then
        && totalMessageLength == 0
        && Absorbed(auth.cipher, Begun(), AadPrefix(aadLength) + header, buf, n)
      else state != AuthFooter ==>
        && aadLength == totalHeaderLength == |early + header|
        && totalMessageLength == |message| < Pow256(l) && ctrPosition == 16 + |message|
        && Absorbed(auth.cipher, HeaderChained(), message, buf, n)
    }

    /** The chaining value once the block that is held is filled up with zeros. */
    ghost function Closed(): (x: seq<byte>)
      requires Valid() && HasIv(state)
      reads this, auth, auth.buffer
      ensures |x| == 16
    {
      Chain(auth.cipher, auth.buffer[16..], PaddedRest(16, auth.buffer[..auth.bufferedDataLength]))
    }

    constructor (forward: bool, blank: BlockCipher)
      ensures Valid() && fresh(auth) && fresh(auth.buffer) && state == Start && this.forward == forward
    {
      this.forward := forward;
      auth := new Authenticator(blank);
      state, digestSize, l := Start, 0, 0;
      totalHeaderLength, totalMessageLength, totalFooterLength := 0, 0, 0;
      aadLength, messageLength := 0, 0;
      ctrStart, ctrPosition := [], 0;
      nonce, first, early, header, message, pristine, declared := [], [], [], [], [], false, false;
    }

    /** Sets the key, that is, the keyed cipher. */
    method SetKey(cipher: BlockCipher, digestSize: int) returns (outcome: Outcome)
      requires Valid() && IsBlockCipher(cipher)
      modifies this, auth
      ensures Valid() && !pristine && !declared
      ensures outcome == if cipher.size == 16 && IsTagSize(digestSize) then Done else InvalidArgument
      ensures outcome == Done ==> state == KeySet && auth.cipher == cipher && this.digestSize == digestSize && l == 8
      ensures outcome != Done ==> state == Start
    {
      pristine, declared := false, false;
      auth.bufferedDataLength := 0;
      state := Start;
      auth.cipher := cipher;
      if cipher.size != 16 {
        return InvalidArgument;
      }
      this.digestSize := digestSize;
      // the remainder is compared with 0 only after truncation, as for negative sizes
      if digestSize % 2 > 0 || digestSize < 4 || digestSize > 16 {
        return InvalidArgument;
      }
      l := 8;
      state := KeySet;
      return Done;
    }

    method Restart()
      requires Valid()
      modifies this
      ensures Valid() && !pristine && !declared
      ensures state == if old(state) == Start then Start else KeySet
      ensures digestSize == old(digestSize) && totalFooterLength == old(totalFooterLength)
    {
      pristine, declared := false, false;
      if HasIv(state) {
        state := KeySet;
      }
    }

    /** Sets the nonce. */
    method Resynchronize(iv: seq<byte>) returns (outcome: Outcome)
      requires Valid()
      modifies this, auth, auth.buffer
      ensures Valid() && auth.cipher == old(auth.cipher) && digestSize == old(digestSize)
      ensures outcome == if old(state) == Start then BadState else if 7 <= |iv| <= 13 then Done else InvalidArgument
      ensures outcome == Done ==> pristine && nonce == iv && early == header == message == [] && l == 15 - |iv|
      ensures outcome == Done ==> state == IvSet && Closed() == old(auth.buffer[16..])
      ensures outcome == Done ==> totalHeaderLength == totalMessageLength == aadLength == messageLength == 0
      ensures outcome != Done ==> !pristine && !declared && state == if old(state) == Start then Start else KeySet
    {
      if !HasIv(state) && state != KeySet {
        pristine, declared := false, false;
        return BadState;
      }
      Reset();
      if |iv| < 7 || |iv| > 13 {
        return InvalidArgument;
      }
      SetIv(iv);
      return Done;
    }

    method Reset()
      requires Valid() && state != Start
      modifies this, auth
      ensures Valid() && auth.cipher == old(auth.cipher) && digestSize == old(digestSize)
      ensures !pristine && !declared && state == KeySet && auth.bufferedDataLength == 0
      ensures totalHeaderLength == totalMessageLength == totalFooterLength == 0
    {
      pristine, declared := false, false;
      auth.bufferedDataLength := 0;
      totalHeaderLength, totalMessageLength, totalFooterLength := 0, 0, 0;
      state := KeySet;
    }

    method SetIv(iv: seq<byte>)
      requires Valid() && state == KeySet && 7 <= |iv| <= 13 && !declared && auth.bufferedDataLength == 0
      requires totalHeaderLength == totalMessageLength == totalFooterLength == 0
      modifies this, auth.buffer
      ensures Valid() && auth.cipher == old(auth.cipher) && digestSize == old(digestSize)
      ensures pristine && nonce == iv && early == header == message == [] && l == 15 - |iv|
      ensures state == IvSet && Closed() == old(auth.buffer[16..])
      ensures totalHeaderLength == totalMessageLength == aadLength == messageLength == 0
    {
      hide IsCtrStart, Begin, InStep, Chain;
      Resync(iv);
      state := IvSet;
      nonce, early, header, message, pristine := iv, [], [], [], true;
      ChainNone(auth.cipher, auth.buffer[16..]);
    }

    method Resync(iv: seq<byte>)
      requires auth.Ready() && 7 <= |iv| <= 13
      modifies `l, `ctrStart, `ctrPosition, `aadLength, `messageLength, auth.buffer
      ensures l == 15 - |iv| && IsCtrStart(iv, ctrStart) && |ctrStart| == 16 && ctrPosition == 16
      ensures aadLength == messageLength == 0 && auth.buffer[..16] == [l - 1] + iv + ZeroBytes(l)
      ensures auth.buffer[16..] == old(auth.buffer[16..])
    {
      l := Min(16 - 1 - |iv|, 8);
      var block := [l - 1] + iv + ZeroBytes(16 - 1 - |iv|);
      auth.Store(0, block);
      ctrStart := auth.buffer[..16];
      assert ctrStart == block;
      ctrPosition := 0;
      ctrPosition := 16;
      aadLength, messageLength := 0, 0;
    }

    /** Declares the lengths of the data to come. */
    method SpecifyDataLengths(headerLength: nat, messageLength: nat, footerLength: nat) returns (outcome: Outcome)
      requires Valid() && headerLength < 0x1_0000_0000_0000_0000 && messageLength < 0x1_0000_0000_0000_0000
      modifies this, auth, auth.buffer
      ensures Valid() && Keyed(old(state), old(auth.cipher), old(digestSize)) && nonce == old(nonce) && l == old(l)
      ensures outcome == if messageLength >= Pow256(l) || footerLength > 0 then InvalidArgument
                         else if old(state) != IvSet then BadState else Done
      ensures outcome == Done ==> aadLength == headerLength && this.messageLength == messageLength
      ensures outcome == Done ==> Redeclared() && Started()
      ensures outcome == Done ==>
                StartsFrom(auth.cipher, auth.buffer[16..], first, headerLength, messageLength, digestSize)
      ensures outcome != Done ==> unchanged(this) && unchanged(auth) && unchanged(auth.buffer)
    {
      if messageLength >= Pow256(l) || footerLength > 0 {
        return InvalidArgument;
      }
      if state != IvSet {
        return BadState;
      }
      Declare(headerLength, messageLength);
      FirstBlockFields(first, headerLength, messageLength, digestSize);
      return Done;
    }

    /** Same key, and same state. */
    ghost predicate Keyed(s: State, c: BlockCipher, t: int)
      reads this, auth
    {
      state == s && auth.cipher == c && digestSize == t
    }

    /** The header so far is not part of what is chained from now on, and the first block takes its nonce from the
        buffer. Everything else is in order if no message has been counted, and no part of a block is held where there
        is to be no header. */
    twostate predicate Redeclared()
      requires old(auth.buffer.Length == 32 && 2 <= l <= 8)
      reads this, auth
    {
      && early == old(early + header) && header == message == [] && first == old(auth.buffer[1..16 - l])
      && totalHeaderLength == old(totalHeaderLength) && totalMessageLength == old(totalMessageLength)
      && (declared <==> totalMessageLength == 0 && (aadLength > 0 || old(auth.bufferedDataLength) == 0))
    }

    /** The first block has been chained; the encoded length of the header is held, if there is to be one. */
    twostate predicate Started()
      requires old(auth.buffer.Length == 32 && auth.bufferedDataLength < 16) && auth.buffer.Length == 32
      requires IsCcmCipher(auth.cipher) && IsTagSize(digestSize) && IsNonce(first)
      reads this, auth, auth.buffer
    {
      var prefix := AadPrefix(aadLength);
      && auth.buffer[16..] == Begun() && |prefix| <= 10
      && auth.buffer[..16] == prefix + old(auth.buffer[..16])[|prefix|..]
      && auth.bufferedDataLength == if aadLength > 0 then |prefix| else old(auth.bufferedDataLength)
    }

    /** `UncheckedSpecifyDataLengths` */
    method Declare(headerLength: nat, messageLength: nat)
      requires Valid() && state == IvSet && messageLength < Pow256(l) && headerLength < 0x1_0000_0000_0000_0000
      modifies this, auth, auth.buffer
      ensures Valid() && Keyed(old(state), old(auth.cipher), old(digestSize)) && nonce == old(nonce) && l == old(l)
      ensures aadLength == headerLength && this.messageLength == messageLength
      ensures Redeclared() && Started()
    {
      hide IsCtrStart, FirstBlock, AadPrefix, Begin, Absorbed, Pow256, IsBlockCipher, InStep, Pristine, Begun;
      NoteLengths(headerLength, messageLength);
      StartChaining();
      if declared {
        NothingYet();
      }
    }

    method NoteLengths(headerLength: nat, messageLength: nat)
      requires auth.buffer.Length == 32 && 2 <= l <= 8
      modifies `aadLength, `messageLength, `first, `early, `header, `declared, `pristine
      ensures aadLength == headerLength && this.messageLength == messageLength && !pristine
      ensures first == auth.buffer[1..16 - l] && early == old(early + header) && header == [] && early + header == early
      ensures declared <==> totalMessageLength == 0 && (aadLength > 0 || auth.bufferedDataLength == 0)
    {
      aadLength, this.messageLength := headerLength, messageLength;
      first, early, header := auth.buffer[1..16 - l], early + header, [];
      declared, pristine := totalMessageLength == 0 && (headerLength > 0 || auth.bufferedDataLength == 0), false;
      assert early + header == early;
    }

    lemma NothingYet()
      requires auth.buffer.Length == 32 && state == IvSet && totalMessageLength == 0
      requires IsCcmCipher(auth.cipher) && IsTagSize(digestSize) && IsNonce(first)
      requires Absorbed(auth.cipher, Begun(), AadPrefix(aadLength) + header, auth.buffer[..], auth.bufferedDataLength)
      ensures InStep()
    {
      hide Absorbed;
    }

    /** The first block, and the length of the header. */
    method StartChaining()
      requires auth.Ready() && auth.bufferedDataLength < 16 && IsTagSize(digestSize) && 2 <= l <= 8
      requires |first| == 15 - l && auth.buffer[1..16 - l] == first && header == []
      modifies auth, auth.buffer
      ensures auth.cipher == old(auth.cipher) && auth.bufferedDataLength < 16 && Started()
      ensures aadLength > 0 || old(auth.bufferedDataLength) == 0 ==>
                Absorbed(auth.cipher, Begun(), AadPrefix(aadLength) + header, auth.buffer[..], auth.bufferedDataLength)
    {
      hide FirstBlock, AadPrefix, Begin, Absorbed;
      ghost var was := auth.buffer[..16];
      NoPrefix();
      WriteFirstBlock();
      PutAadLength(aadLength);
      if aadLength > 0 || auth.bufferedDataLength == 0 {
        PrefixAbsorbed(was[|AadPrefix(aadLength)|..]);
      }
    }

    lemma NoPrefix()
      ensures AadPrefix(0) == []
    {
    }

    lemma PrefixAbsorbed(rest: seq<byte>)
      requires auth.Ready() && IsTagSize(digestSize) && IsNonce(first) && header == []
      requires auth.buffer[16..] == Begun() && auth.buffer[..16] == AadPrefix(aadLength) + rest
      requires auth.bufferedDataLength == |AadPrefix(aadLength)| < 16
      ensures Absorbed(auth.cipher, Begun(), AadPrefix(aadLength) + header, auth.buffer[..], auth.bufferedDataLength)
    {
      hide Absorbed, AadPrefix, Begin;
      var prefix := AadPrefix(aadLength);
      assert auth.buffer[..][..|prefix|] == auth.buffer[..16][..|prefix|] == prefix
             && auth.buffer[..][16..] == auth.buffer[16..];
      AbsorbShort(auth.cipher, prefix, auth.buffer[..]);
      assert prefix + [] == prefix;
    }

    method WriteFirstBlock()
      requires auth.Ready() && IsTagSize(digestSize) && 2 <= l <= 8 && |first| == 15 - l
               && auth.buffer[1..16 - l] == first
      modifies auth.buffer
      ensures auth.buffer[..16] == old(auth.buffer[..16])
      ensures auth.buffer[16..] == Begun()
    {
      var block := [Flags(aadLength, digestSize, l)] + auth.buffer[17..24] + BigEndian(messageLength, 8);
      block := block[..1] + auth.buffer[1..16 - l] + block[16 - l..];
      Overlay(first, auth.buffer[17..24], aadLength, messageLength, digestSize);
      auth.SetChaining(block);
      auth.SetChaining(auth.cipher.encrypt(auth.buffer[16..]));
    }

    /** The encoding of the length of the header is the first data to be authenticated. */
    method PutAadLength(headerLength: nat)
      requires auth.Ready() && auth.bufferedDataLength < 16
      modifies auth, auth.buffer
      ensures auth.cipher == old(auth.cipher) && auth.Ready() && auth.bufferedDataLength < 16
      ensures auth.buffer[16..] == old(auth.buffer[16..])
      ensures var prefix := AadPrefix(headerLength);
              && |prefix| <= 10 && auth.buffer[..16] == prefix + old(auth.buffer[..16])[|prefix|..]
              && auth.bufferedDataLength == if headerLength > 0 then |prefix| else old(auth.bufferedDataLength)
    {
      hide BigEndian;
      if headerLength > 0 {
        if headerLength < 0x1_0000 - 0x100 {
          auth.StoreFirst(BigEndian(headerLength, 2));
          auth.bufferedDataLength := 2;
        } else if headerLength < 0x1_0000_0000 {
          PutLong(0xfe, headerLength, 4);
          auth.bufferedDataLength := 6;
        } else {
          PutLong(0xff, headerLength, 8);
          auth.bufferedDataLength := 10;
        }
      }
    }

    method PutLong(mark: byte, headerLength: nat, size: nat)
      requires auth.Ready() && size <= 8
      modifies auth.buffer
      ensures auth.buffer[16..] == old(auth.buffer[16..])
      ensures auth.buffer[..16] == [0xff, mark] + BigEndian(headerLength, size) + old(auth.buffer[..16])[2 + size..]
    {
      hide BigEndian;
      ghost var was := auth.buffer[..16];
      auth.StoreFirst([0xff, mark]);
      assert auth.buffer[..2] == auth.buffer[..16][..2];
      auth.Store(2, BigEndian(headerLength, size));
      assert auth.buffer[..16] == auth.buffer[..2 + size] + auth.buffer[2 + size..][..14 - size];
      assert was[2..][size..] == was[2 + size..];
    }

    /** Closes the header: its last block is filled up with zeros. */
    method StartMessage() returns (outcome: Outcome)
      requires Valid() && state == IvSet
      modifies this, auth, auth.buffer
      ensures Valid() && Kept() && header == old(header) && message == old(message)
      ensures totalMessageLength == old(totalMessageLength)
      ensures ctrStart == old(ctrStart) && ctrPosition == old(ctrPosition)
      ensures outcome == if aadLength == old(totalHeaderLength) then Done else InvalidArgument
      ensures outcome == Done ==> state == MessageState() && declared == old(declared) && !pristine
      ensures outcome == Done ==> totalHeaderLength == old(totalHeaderLength) && Closed() == old(Closed())
      ensures outcome != Done ==> state == IvSet && !declared && !pristine
    {
      hide Absorbed, IsCtrStart, Begin, Chain, PaddedBlocks, IsBlockCipher, Pow256, AadPrefix;
      pristine := false;
      if aadLength != totalHeaderLength {
        declared := false;
        return InvalidArgument;
      }
      ghost var buf, n := auth.buffer[..], auth.bufferedDataLength;
      assert auth.buffer[..n] == buf[..n] && auth.buffer[16..] == buf[16..];
      auth.AuthenticateRest();
      if declared {
        HeaderClosed(buf, n);
      }
      state := MessageState();
      ChainNone(auth.cipher, auth.buffer[16..]);
      return Done;
    }

    function MessageState(): State
      reads this
    {
      if forward then AuthUntransformed else AuthTransformed
    }

    /** Same key, nonce, and lengths. */
    twostate predicate Kept()
      reads this, auth
    {
      && auth.cipher == old(auth.cipher) && digestSize == old(digestSize) && nonce == old(nonce) && l == old(l)
      && first == old(first) && early == old(early)
      && aadLength == old(aadLength) && messageLength == old(messageLength)
    }

    lemma HeaderClosed(buf: seq<byte>, n: nat)
      requires auth.Ready() && IsNonce(first) && IsTagSize(digestSize) && n < 16
      requires Absorbed(auth.cipher, Begun(), AadPrefix(aadLength) + header, buf, n)
      requires auth.buffer[16..] == Chain(auth.cipher, buf[16..], PaddedRest(16, buf[..n]))
               && auth.bufferedDataLength == 0
      ensures Absorbed(auth.cipher, HeaderChained(), [], auth.buffer[..], 0)
    {
      hide Absorbed, Chain, Begin;
      assert auth.buffer[..][16..] == auth.buffer[16..];
      AbsorbPadding(auth.cipher, Begun(), AadPrefix(aadLength) + header, buf, n, auth.buffer[..]);
      AbsorbNothing(auth.cipher, auth.buffer[..]);
    }

    /** Counter mode, from the current position on. */
    method CtrProcess(input: seq<byte>) returns (output: seq<byte>)
      requires IsCcmCipher(auth.cipher) && |ctrStart| == 16
      modifies `ctrPosition
      ensures ctrPosition == old(ctrPosition) + |input|
      ensures output == Xor(input, CtrStream(auth.cipher, ctrStart, old(ctrPosition), |input|))
    {
      hide XorByte, CtrByte;
      output := [];
      for i := 0 to |input|
        invariant ctrPosition == old(ctrPosition) + i
        invariant output == Xor(input[..i], CtrStream(auth.cipher, ctrStart, old(ctrPosition), i))
      {
        output := output + [XorByte(input[i], CtrByte(auth.cipher, ctrStart, ctrPosition))];
        ctrPosition := ctrPosition + 1;
      }
      assert input[..|input|] == input;
    }

    method TransformAndAuthenticate(input: seq<byte>) returns (output: seq<byte>, ghost plain: seq<byte>)
      requires auth.Ready() && auth.bufferedDataLength < 16 && |ctrStart| == 16 && state == MessageState()
      modifies `ctrPosition, auth`bufferedDataLength, auth.buffer
      ensures auth.Ready() && auth.bufferedDataLength < 16 && ctrPosition == old(ctrPosition) + |input|
      ensures output == Xor(input, CtrStream(auth.cipher, ctrStart, old(ctrPosition), |input|))
      ensures plain == if forward then input else output
      ensures var data := old(auth.buffer[..auth.bufferedDataLength]) + plain;
              && auth.buffer[..auth.bufferedDataLength] == Rest(16, data)
              && auth.buffer[16..] == Chain(auth.cipher, old(auth.buffer[16..]), Whole(16, data))
      ensures |input| == 0 ==>
                && auth.bufferedDataLength == old(auth.bufferedDataLength)
                && auth.buffer[16..] == old(auth.buffer[16..])
                && auth.buffer[..auth.bufferedDataLength] == old(auth.buffer[..auth.bufferedDataLength])
    {
      hide Chain, Whole, Rest, CtrStream;
      ghost var buf, n := auth.buffer[..], auth.bufferedDataLength;
      assert auth.buffer[..n] == buf[..n] && auth.buffer[16..] == buf[16..];
      if state == AuthUntransformed {
        plain := input;
        auth.AuthenticateData(input);
        output := CtrProcess(input);
      } else {
        output := CtrProcess(input);
        plain := output;
        auth.AuthenticateData(output);
      }
      if |input| == 0 {
        TookNothing(buf, n, plain);
      }
    }

    /** Encrypts or decrypts a piece of the message, and authenticates the plaintext. */
    method ProcessMessage(input: seq<byte>) returns (output: seq<byte>)
      requires Valid() && state == MessageState() && totalMessageLength + |input| < Pow256(l)
      modifies this, auth, auth.buffer
      ensures Valid() && |output| == |input| && state == MessageState() && declared == old(declared) && !pristine
      ensures Kept() && header == old(header)
      ensures totalMessageLength == old(totalMessageLength) + |input| && totalHeaderLength == old(totalHeaderLength)
      ensures |input| == 0 ==> Closed() == old(Closed())
      ensures ctrStart == old(ctrStart) && ctrPosition == old(ctrPosition) + |input|
      ensures IsCcmCipher(auth.cipher) && |ctrStart| == 16
              && output == Xor(input, CtrStream(auth.cipher, ctrStart, old(ctrPosition), |input|))
      ensures declared ==>
                output == Xor(input, KeyStream(auth.cipher, nonce, 16 + |old(message)|, |input|))
                && message == old(message) + if forward then input else output
    {
      hide Absorbed, Begin, Chain, Whole, Rest, CtrStream, IsCtrStart, FirstBlock, KeyStream, Pow256, PaddedBlocks,
           IsBlockCipher, HeaderBlocks, InStep, Xor, Pristine, PaddedRest, BigEndian, ZeroBytes;
      ghost var x := [];
      if declared {
        x := InMessage();
      }
      totalMessageLength := totalMessageLength + |input|;
      ghost var buf, n, from := auth.buffer[..], auth.bufferedDataLength, ctrPosition;
      assert auth.buffer[..n] == buf[..n] && auth.buffer[16..] == buf[16..];
      ghost var plain;
      output, plain := TransformAndAuthenticate(input);
      message := message + plain;
      if declared {
        CtrStreamIs(auth.cipher, nonce, ctrStart, from, |input|);
        StillInMessage(x, old(message), plain, buf, n);
      }
    }

    lemma TookNothing(buf: seq<byte>, n: nat, nothing: seq<byte>)
      requires auth.Ready() && |buf| == 32 && n < 16 && nothing == []
      requires auth.buffer[..auth.bufferedDataLength] == Rest(16, buf[..n] + nothing)
      requires auth.buffer[16..] == Chain(auth.cipher, buf[16..], Whole(16, buf[..n] + nothing))
      ensures auth.bufferedDataLength == n && auth.buffer[..n] == buf[..n] && auth.buffer[16..] == buf[16..]
    {
      hide Whole, Rest, Chain;
      assert buf[..n] + nothing == buf[..n];
      WholeShort(16, buf[..n]);
      ChainNone(auth.cipher, buf[16..]);
    }

    /** What is known within a message. */
    lemma InMessage() returns (x: seq<byte>)
      requires auth.buffer.Length == 32 && state == MessageState() && IsNonce(first)
      requires IsCcmCipher(auth.cipher) && IsTagSize(digestSize) && InStep()
      ensures |x| == 16 && Absorbed(auth.cipher, x, message, auth.buffer[..], auth.bufferedDataLength)
      ensures x == HeaderChained()
      ensures aadLength == totalHeaderLength == |early + header| && totalMessageLength == |message|
              && ctrPosition == 16 + |message|
    {
      hide Absorbed, Begin, Chain, HeaderBlocks;
      x := HeaderChained();
    }

    lemma StillInMessage(x: seq<byte>, s: seq<byte>, t: seq<byte>, buf: seq<byte>, n: nat)
      requires auth.Ready() && state == MessageState() && IsNonce(first) && IsTagSize(digestSize) && |x| == 16 && n < 16
      requires x == HeaderChained() && Absorbed(auth.cipher, x, s, buf, n) && message == s + t
      requires auth.buffer[..auth.bufferedDataLength] == Rest(16, buf[..n] + t)
      requires auth.buffer[16..] == Chain(auth.cipher, buf[16..], Whole(16, buf[..n] + t))
      requires aadLength == totalHeaderLength == |early + header| && totalMessageLength == |message| < Pow256(l)
      requires ctrPosition == 16 + |message|
      ensures InStep()
    {
      hide Absorbed, Begin, Chain, HeaderBlocks, Whole, Rest;
      MessageTaken(x, s, t, buf, n);
    }

    lemma MessageTaken(x: seq<byte>, s: seq<byte>, t: seq<byte>, buf: seq<byte>, n: nat)
      requires auth.Ready() && |x| == 16 && n < 16 && Absorbed(auth.cipher, x, s, buf, n)
      requires auth.buffer[..auth.bufferedDataLength] == Rest(16, buf[..n] + t)
      requires auth.buffer[16..] == Chain(auth.cipher, buf[16..], Whole(16, buf[..n] + t))
      ensures Absorbed(auth.cipher, x, s + t, auth.buffer[..], auth.bufferedDataLength)
    {
      hide Absorbed, Chain, Whole, Rest;
      assert auth.buffer[..][16..] == auth.buffer[16..];
      assert auth.buffer[..][..auth.bufferedDataLength] == auth.buffer[..auth.bufferedDataLength];
      AbsorbMore(auth.cipher, x, s, t, buf, n, auth.buffer[..], auth.bufferedDataLength);
    }

    /** Whether a piece of the message of that length is accepted. */
    function ProcessOutcome(length: nat): Outcome
      reads this
    {
      if HasIv(state) && totalMessageLength + length >= Pow256(l) then InvalidArgument
      else if state == Start || state == KeySet || state == AuthFooter then BadState
      else if state == IvSet && aadLength != totalHeaderLength then InvalidArgument
      else Done
    }

    /** Takes in a piece of the message. */
    method ProcessData(input: seq<byte>) returns (outcome: Outcome, output: seq<byte>)
      requires Valid()
      modifies this, auth, auth.buffer
      ensures Valid() && Kept() && header == old(header)
      ensures outcome == old(ProcessOutcome(|input|)) && totalMessageLength == old(totalMessageLength) + |input|
      ensures outcome != Done ==> state == old(state) && !declared && output == []
      ensures totalHeaderLength == old(totalHeaderLength)
      ensures outcome == Done ==> state == MessageState() && declared == old(declared) && |output| == |input|
      ensures outcome == Done && |input| == 0 ==> Closed() == old(Closed())
      ensures outcome == Done ==>
                && ctrStart == old(ctrStart) && ctrPosition == old(ctrPosition) + |input|
                && IsCcmCipher(auth.cipher) && |ctrStart| == 16
                && output == Xor(input, CtrStream(auth.cipher, ctrStart, old(ctrPosition), |input|))
      ensures outcome == Done && declared ==>
                output == Xor(input, KeyStream(auth.cipher, nonce, 16 + |old(message)|, |input|))
                && message == old(message) + if forward then input else output
    {
      hide Absorbed, InStep, Pow256, KeyStream, CtrStream, Xor, IsCtrStart, IsBlockCipher, Pristine;
      outcome, output := ProcessOutcome(|input|), [];
      if outcome != Done {
        totalMessageLength := totalMessageLength + |input|;
        declared, pristine := false, false;
        return;
      }
      if state == IvSet {
        outcome := StartMessage();
      }
      output := ProcessMessage(input);
    }

    /** Takes in a piece of the header; after the message has begun, a footer. */
    method Update(input: seq<byte>) returns (outcome: Outcome)
      requires Valid()
      modifies this, auth, auth.buffer
      ensures Valid() && Kept() && message == old(message)
      ensures totalMessageLength == old(totalMessageLength)
      ensures outcome == if |input| == 0 then Done
                         else if old(state) == Start || old(state) == KeySet then BadState
                         else if old(state) == MessageState() && messageLength != totalMessageLength
                         then InvalidArgument
                         else Done
      ensures outcome != Done || |input| == 0 ==> unchanged(this) && unchanged(auth) && unchanged(auth.buffer)
      ensures old(state) == IvSet ==>
                state == IvSet && header == old(header) + input && totalHeaderLength == old(totalHeaderLength) + |input|
                && declared == old(declared) && Buffered(input)
      ensures outcome == Done && |input| > 0 && old(state) != IvSet ==>
                state == AuthFooter && totalFooterLength == old(totalFooterLength) + |input|
    {
      if |input| == 0 {
        assert header + input == header;
        TakeNothing(auth.buffer[..16], auth.bufferedDataLength, input);
        return Done;
      }
      if state == Start || state == KeySet {
        return BadState;
      }
      if state == IvSet {
        TakeHeader(input);
        return Done;
      }
      if state != AuthFooter && messageLength != totalMessageLength {
        return InvalidArgument;
      }
      TakeFooter(input);
      return Done;
    }

    /** What a piece of data leaves in the first half of the buffer. */
    twostate predicate Buffered(input: seq<byte>)
      requires old(auth.buffer.Length == 32 && auth.bufferedDataLength < 16) && auth.buffer.Length == 32
      reads auth, auth.buffer
    {
      && auth.buffer[..16] == TakePiece(old(auth.buffer[..16]), old(auth.bufferedDataLength), input)
      && auth.bufferedDataLength == (old(auth.bufferedDataLength) + |input|) % 16
    }

    method TakeHeader(input: seq<byte>)
      requires Valid() && state == IvSet && |input| > 0
      modifies this, auth, auth.buffer
      ensures Valid() && Kept() && header == old(header) + input && message == old(message)
      ensures totalMessageLength == old(totalMessageLength)
      ensures state == IvSet && totalHeaderLength == old(totalHeaderLength) + |input| && declared == old(declared)
      ensures Buffered(input)
    {
      hide Absorbed, IsCtrStart, Begin, Chain, Whole, Rest, IsBlockCipher, Pow256, AadPrefix, TakePiece;
      RestSize(auth.buffer[..auth.bufferedDataLength] + input);
      pristine := false;
      ghost var buf, n := auth.buffer[..], auth.bufferedDataLength;
      assert auth.buffer[..n] == buf[..n] && auth.buffer[16..] == buf[16..];
      auth.AuthenticateData(input);
      if declared {
        MessageTaken(Begun(), AadPrefix(aadLength) + header, input, buf, n);
        assert (AadPrefix(aadLength) + header) + input == AadPrefix(aadLength) + (header + input);
      }
      assert (early + header) + input == early + (header + input);
      totalHeaderLength := totalHeaderLength + |input|;
      header := header + input;
    }

    /** A footer is taken in, but CCM has none, and the tag will not be given out. */
    method TakeFooter(input: seq<byte>)
      requires Valid() && HasIv(state) && state != IvSet && |input| > 0
      modifies this, auth, auth.buffer
      ensures Valid() && Kept() && header == old(header) && message == old(message)
      ensures totalMessageLength == old(totalMessageLength)
      ensures state == AuthFooter && totalFooterLength == old(totalFooterLength) + |input|
    {
      hide Absorbed, IsCtrStart, Begin, Chain, Whole, Rest, IsBlockCipher, Pow256, Pristine, TakePiece, HeaderChained,
           Begun;
      pristine := false;
      if state != AuthFooter {
        auth.AuthenticateRest();
        state := AuthFooter;
      }
      auth.AuthenticateData(input);
      totalFooterLength := totalFooterLength + |input|;
    }

    /** Whether the tag is given out. */
    function FinalOutcome(): Outcome
      reads this
    {
      if totalHeaderLength > 0xffff_ffff_ffff_ffff || totalFooterLength > 0 then InvalidArgument
      else if state == Start || state == KeySet then BadState
      else if state == IvSet && aadLength != totalHeaderLength then InvalidArgument
      else if messageLength != totalMessageLength then InvalidArgument
      else Done
    }

    /** Gives out the first bytes of the tag. */
    method TruncatedFinal(macSize: nat) returns (outcome: Outcome, mac: seq<byte>)
      requires Valid() && macSize <= 16
      modifies this, auth, auth.buffer
      ensures Valid() && Kept() && header == old(header) && message == old(message)
      ensures outcome == old(FinalOutcome()) && !declared && !pristine
      ensures outcome != Done ==> state == old(state) && mac == []
      ensures outcome == Done ==> state == KeySet && |mac| == macSize
      ensures outcome == Done && old(declared) ==> IsResult(mac) && aadLength == |early + header|
      ensures outcome == Done ==>
                IsCcmCipher(auth.cipher) && IsNonce(nonce)
                && mac == Xor(old(Closed())[..macSize], KeyStream(auth.cipher, nonce, 0, macSize))
    {
      hide Absorbed, InStep, Pow256, IsCtrStart, IsBlockCipher, Pristine, Closed, Xor, KeyStream, TagFrom, MacFrom,
           HeaderChained, Begun;
      outcome, mac := FinalOutcome(), [];
      if outcome == Done {
        if state == IvSet {
          outcome := StartMessage();
        }
        mac := FinishMac(macSize);
        state := KeySet;
      } else if state == IvSet && totalFooterLength == 0 && totalHeaderLength <= 0xffff_ffff_ffff_ffff {
        outcome := StartMessage();
        outcome := InvalidArgument;
        state := IvSet;
      }
      declared, pristine := false, false;
    }

    /** The tag, and the chaining value it was made from, under the lengths and the first block declared. */
    ghost predicate IsResult(mac: seq<byte>)
      requires auth.buffer.Length == 32
      reads this, auth, auth.buffer
    {
      && IsCcmCipher(auth.cipher) && IsTagSize(digestSize) && IsNonce(nonce) && IsNonce(first) && |mac| <= 16
      && mac == TagFrom(auth.cipher, first, nonce, digestSize, aadLength, header, message)[..|mac|]
      && auth.buffer[16..] == MacFrom(auth.cipher, first, digestSize, aadLength, header, message)
    }

    method FinishMac(macSize: nat) returns (mac: seq<byte>)
      requires Valid() && state == MessageState() && messageLength == totalMessageLength && macSize <= 16
      modifies `ctrPosition, auth, auth.buffer
      ensures |mac| == macSize && auth.cipher == old(auth.cipher) && auth.buffer.Length == 32
              && auth.bufferedDataLength < 16
      ensures declared ==> IsResult(mac) && aadLength == |early + header|
      ensures IsCcmCipher(auth.cipher)
              && mac == Xor(old(Closed())[..macSize], KeyStream(auth.cipher, nonce, 0, macSize))
    {
      hide Absorbed, Begin, Chain, IsCtrStart, IsBlockCipher, Pow256, PaddedBlocks, HeaderBlocks, CtrStream;
      ghost var buf, n := auth.buffer[..], auth.bufferedDataLength;
      assert auth.buffer[..n] == buf[..n] && auth.buffer[16..] == buf[16..];
      auth.AuthenticateRest();
      ctrPosition := 0;
      mac := CtrProcess(auth.buffer[16..16 + macSize]);
      EnoughForTag(l);
      CtrStreamIs(auth.cipher, nonce, ctrStart, 0, macSize);
      assert auth.buffer[16..][..macSize] == auth.buffer[16..16 + macSize];
      if declared {
        MacDone(auth.cipher, first, nonce, digestSize, aadLength, header, message, buf, n, auth.buffer[..], macSize);
        assert auth.buffer[..][16..] == auth.buffer[16..];
      }
    }

    /** The outcome of a whole run. */
    function RunOutcome(iv: seq<byte>, length: nat): Outcome
      reads this
    {
      if state == Start then BadState
      else if |iv| < 7 || |iv| > 13 || length >= Pow256(15 - |iv|) then InvalidArgument
      else Done
    }

    /** Sets the nonce and declares the lengths, after some of the header has been given. */
    method BeginRun(iv: seq<byte>, earlyPieces: seq<seq<byte>>, headerLength: nat, messageLength: nat)
      returns (outcome: Outcome)
      requires Valid() && headerLength < 0x1_0000_0000_0000_0000 && messageLength < 0x1_0000_0000_0000_0000
      requires |Flatten(earlyPieces)| <= headerLength
      modifies this, auth, auth.buffer
      ensures Valid() && auth.cipher == old(auth.cipher) && digestSize == old(digestSize)
      ensures outcome == old(RunOutcome(iv, messageLength))
      ensures outcome == Done ==>
                && state == IvSet && declared && header == message == [] && early == Flatten(earlyPieces)
                && nonce == iv && first == FirstNonce(iv, earlyPieces)
                && aadLength == headerLength && this.messageLength == messageLength
    {
      hide InStep, IsCtrStart, Pow256, IsBlockCipher, Flatten, TakePieces, StartsFrom, Started;
      outcome := Resynchronize(iv);
      if outcome == Done {
        assert auth.buffer[..16] == [LengthSize(iv) - 1] + iv + ZeroBytes(LengthSize(iv));
        GiveEarly(earlyPieces);
        EnoughForTag(l);
        assert auth.buffer[..][..16] == auth.buffer[..16] && auth.buffer[..][1..16 - l] == auth.buffer[1..16 - l];
        ReadBack(auth.buffer[..], iv, earlyPieces);
        outcome := SpecifyDataLengths(headerLength, messageLength, 0);
      }
    }

    /** Pieces of the header before the lengths are declared. */
    method GiveEarly(pieces: seq<seq<byte>>)
      requires Valid() && pristine
      modifies this, auth, auth.buffer
      ensures Valid() && Kept() && state == IvSet && header == Flatten(pieces)
      ensures totalHeaderLength == |Flatten(pieces)| && totalMessageLength == 0
      ensures auth.bufferedDataLength == |Flatten(pieces)| % 16
      ensures auth.buffer[..16] == TakePieces(old(auth.buffer[..16]), pieces)
      ensures |Flatten(pieces)| == 0 ==> Closed() == old(Closed())
    {
      hide InStep, IsCtrStart, Pow256, IsBlockCipher, Flatten, Closed, TakePiece, TakePieces;
      FlattenNothing();
      TakenNothing(auth.buffer[..16]);
      assert pieces[..0] == [];
      for i := 0 to |pieces|
        invariant Valid() && Kept() && state == IvSet && header == Flatten(pieces[..i])
        invariant totalHeaderLength == |Flatten(pieces[..i])| && totalMessageLength == 0
        invariant auth.bufferedDataLength == |Flatten(pieces[..i])| % 16
        invariant auth.buffer[..16] == TakePieces(old(auth.buffer[..16]), pieces[..i])
        invariant |Flatten(pieces[..i])| == 0 ==> Closed() == old(Closed())
      {
        FlattenNext(pieces, i);
        TakeNext(old(auth.buffer[..16]), pieces, i);
        TakeNothing(auth.buffer[..16], auth.bufferedDataLength, []);
        var outcome := Update(pieces[i]);
      }
      assert pieces[..|pieces|] == pieces;
    }

    /** Any pieces of the header. */
    method FeedHeader(pieces: seq<seq<byte>>)
      requires Valid() && state == IvSet && declared && header == []
      modifies this, auth, auth.buffer
      ensures Valid() && Kept() && header == Flatten(pieces) && state == IvSet && declared && message == []
    {
      hide InStep, IsCtrStart, Pow256, IsBlockCipher, Pristine, Flatten;
      FlattenNothing();
      assert pieces[..0] == [];
      for i := 0 to |pieces|
        invariant Valid() && Kept() && header == Flatten(pieces[..i]) && state == IvSet && declared
      {
        FlattenNext(pieces, i);
        var outcome := Update(pieces[i]);
      }
      assert pieces[..|pieces|] == pieces;
    }

    /** Declared lengths that are kept to are accepted. */
    lemma Accepts(length: nat)
      requires Valid() && declared && aadLength == |early + header| && (state == IvSet || state == MessageState())
      requires |message| + length <= messageLength
      ensures ProcessOutcome(length) == Done
    {
      hide Absorbed, Pow256, IsBlockCipher, IsCtrStart;
    }

    lemma GivesTag()
      requires Valid() && declared && (state == IvSet || state == MessageState())
      requires aadLength == |early + header| < 0x1_0000_0000_0000_0000 && |message| == messageLength
      ensures FinalOutcome() == Done
    {
      hide Absorbed, Pow256, IsBlockCipher, IsCtrStart;
    }

    /** Any pieces of the message. */
    method FeedMessage(pieces: seq<seq<byte>>) returns (output: seq<byte>)
      requires Valid() && state == IvSet && declared && message == []
               && aadLength == |early + header| < 0x1_0000_0000_0000_0000
      requires messageLength == |Flatten(pieces)|
      modifies this, auth, auth.buffer
      ensures Valid() && Kept() && header == old(header)
      ensures declared && FinalOutcome() == Done
      ensures IsCcmCipher(auth.cipher) && IsNonce(nonce) && output == Crypt(auth.cipher, nonce, Flatten(pieces))
      ensures message == if forward then Flatten(pieces) else output
    {
      hide IsCtrStart, Pow256, IsBlockCipher, Pristine, Flatten, Absorbed, Crypt, KeyStream, CtrStream, InStep;
      FlattenNothing();
      assert pieces[..0] == [];
      output := [];
      CryptNothing(auth.cipher, nonce);
      for i := 0 to |pieces|
        invariant Valid() && Kept() && header == old(header)
        invariant declared && (state == IvSet || state == MessageState())
        invariant output == Crypt(auth.cipher, nonce, Flatten(pieces[..i]))
        invariant message == if forward then Flatten(pieces[..i]) else output
      {
        FlattenNext(pieces, i);
        FlattenPrefix(pieces, i + 1);
        CryptJoins(auth.cipher, nonce, Flatten(pieces[..i]), pieces[i]);
        var outcome, more;
        Accepts(|pieces[i]|);
        outcome, more := ProcessData(pieces[i]);
        output := output + more;
      }
      assert pieces[..|pieces|] == pieces;
      GivesTag();
    }

    /** A run in which the lengths are declared after some of the header, all in any pieces. It gives out the message's
        encryption or decryption, and as the tag that of the rest of the header, behind a first block that is made from
        the lengths declared and from what the buffer holds of the nonce. */
    method RunFrom(iv: seq<byte>, earlyPieces: seq<seq<byte>>, headerPieces: seq<seq<byte>>, pieces: seq<seq<byte>>,
                   macSize: nat)
      returns (outcome: Outcome, output: seq<byte>, mac: seq<byte>)
      requires Valid() && macSize <= 16 && |Flatten(pieces)| < 0x1_0000_0000_0000_0000
      requires |Flatten(earlyPieces)| + |Flatten(headerPieces)| < 0x1_0000_0000_0000_0000
      modifies this, auth, auth.buffer
      ensures Valid() && auth.cipher == old(auth.cipher) && digestSize == old(digestSize)
      ensures outcome == old(RunOutcome(iv, |Flatten(pieces)|))
      ensures outcome == Done ==>
                && state == KeySet && nonce == iv && first == FirstNonce(iv, earlyPieces)
                && aadLength == |Flatten(earlyPieces)| + |Flatten(headerPieces)| && header == Flatten(headerPieces)
                && IsCcmCipher(auth.cipher) && IsNonce(iv) && output == Crypt(auth.cipher, iv, Flatten(pieces))
                && message == (if forward then Flatten(pieces) else output)
                && |mac| == macSize && IsResult(mac)
    {
      hide IsCtrStart, Pow256, IsBlockCipher, Pristine, InStep, Flatten, Crypt, Closed, FirstNonce, TagFrom, MacFrom;
      output, mac := [], [];
      outcome := BeginRun(iv, earlyPieces, |Flatten(earlyPieces)| + |Flatten(headerPieces)|, |Flatten(pieces)|);
      if outcome == Done {
        FeedHeader(headerPieces);
        output := FeedMessage(pieces);
        outcome, mac := TruncatedFinal(macSize);
      }
    }

    /** A run over a message and a header in any pieces gives the message's encryption or decryption and the tag. */
    method Run(iv: seq<byte>, headerPieces: seq<seq<byte>>, pieces: seq<seq<byte>>, macSize: nat)
      returns (outcome: Outcome, output: seq<byte>, mac: seq<byte>)
      requires Valid() && macSize <= 16
      requires |Flatten(headerPieces)| < 0x1_0000_0000_0000_0000 && |Flatten(pieces)| < 0x1_0000_0000_0000_0000
      modifies this, auth, auth.buffer
      ensures Valid() && auth.cipher == old(auth.cipher) && digestSize == old(digestSize)
      ensures outcome == old(RunOutcome(iv, |Flatten(pieces)|))
      ensures outcome == Done ==>
                && IsCcmCipher(auth.cipher) && IsTagSize(digestSize) && IsNonce(iv)
                && output == Crypt(auth.cipher, iv, Flatten(pieces))
                && mac == Tag(auth.cipher, iv, digestSize, Flatten(headerPieces),
                              if forward then Flatten(pieces) else output)[..macSize]
                && auth.buffer[16..] == Mac(auth.cipher, iv, digestSize, Flatten(headerPieces),
                                            if forward then Flatten(pieces) else output)
      ensures outcome == Done ==> state == KeySet
    {
      hide IsCtrStart, Pow256, IsBlockCipher, Pristine, InStep, Flatten, Crypt, Tag, Mac, Closed, FirstNonce, TagFrom,
           MacFrom;
      FlattenNothing();
      outcome, output, mac := RunFrom(iv, [], headerPieces, pieces, macSize);
      if outcome == Done {
        OwnNonce(iv);
        TagFromItself(auth.cipher, iv, digestSize, header, message);
      }
    }

    // Without SpecifyDataLengths

    /** No lengths have been declared; x is the chaining value that an earlier message left behind. */
    ghost predicate Undeclared(iv: seq<byte>, x: seq<byte>)
      requires Valid()
      reads this, auth, auth.buffer
    {
      && (state == IvSet || state == MessageState()) && nonce == iv && aadLength == messageLength == 0
      && (state != IvSet ==> totalHeaderLength == 0)
      && (totalHeaderLength == totalMessageLength == 0 ==> Closed() == x)
    }

    method FeedUndeclaredMessage(pieces: seq<seq<byte>>, ghost x: seq<byte>) returns (outcome: Outcome)
      requires Valid() && Undeclared(nonce, x) && state == IvSet && totalMessageLength == 0
      modifies this, auth, auth.buffer
      ensures Valid() && auth.cipher == old(auth.cipher) && digestSize == old(digestSize)
      ensures outcome == Done || (outcome == InvalidArgument && (totalHeaderLength > 0 || |Flatten(pieces)| > 0))
      ensures outcome == Done ==> Undeclared(old(nonce), x) && totalMessageLength == |Flatten(pieces)|
      ensures totalHeaderLength == old(totalHeaderLength)
    {
      hide InStep, IsCtrStart, IsBlockCipher, Pristine, Flatten, Closed, Pow256, Xor, KeyStream, CtrStream;
      FlattenNothing();
      assert pieces[..0] == [];
      EnoughForTag(l);
      for i := 0 to |pieces|
        invariant Valid() && Undeclared(old(nonce), x) && auth.cipher == old(auth.cipher)
                  && digestSize == old(digestSize)
        invariant l == old(l) && totalHeaderLength == old(totalHeaderLength)
                  && totalMessageLength == |Flatten(pieces[..i])|
      {
        FlattenNext(pieces, i);
        FlattenPrefix(pieces, i + 1);
        var more;
        outcome, more := ProcessData(pieces[i]);
        if outcome != Done {
          return;
        }
      }
      assert pieces[..|pieces|] == pieces;
      outcome := Done;
    }

    /** A run that never declares the lengths gives out a tag if and only if there is no header and no message, and
        that tag is made from the chaining value of an earlier message. */
    method RunUndeclared(iv: seq<byte>, headerPieces: seq<seq<byte>>, pieces: seq<seq<byte>>, macSize: nat)
      returns (outcome: Outcome, mac: seq<byte>)
      requires Valid() && macSize <= 16
      modifies this, auth, auth.buffer
      ensures Valid() && auth.cipher == old(auth.cipher) && digestSize == old(digestSize)
      ensures outcome == if old(state) == Start then BadState
                         else if 7 <= |iv| <= 13 && |Flatten(headerPieces)| == 0 && |Flatten(pieces)| == 0 then Done
                         else InvalidArgument
      ensures outcome == Done ==>
                IsCcmCipher(auth.cipher) && IsNonce(iv)
                && mac == Xor(old(auth.buffer[16..])[..macSize], KeyStream(auth.cipher, iv, 0, macSize))
    {
      hide IsCtrStart, Pow256, IsBlockCipher, InStep, Flatten, Closed, Xor, KeyStream, Pristine, TakePieces, IsResult;
      mac := [];
      outcome := Resynchronize(iv);
      if outcome == Done {
        ghost var x := Closed();
        GiveEarly(headerPieces);
        outcome := FeedUndeclaredMessage(pieces, x);
        if outcome == Done {
          outcome, mac := TruncatedFinal(macSize);
        }
      }
    }

    /** After any message, such a run with the same nonce gives out the tag of that message again. */
    method TagAgain(iv: seq<byte>, headerPieces: seq<seq<byte>>, pieces: seq<seq<byte>>, macSize: nat)
      returns (outcome: Outcome, output: seq<byte>, mac: seq<byte>, again: seq<byte>)
      requires Valid() && macSize <= 16
      requires |Flatten(headerPieces)| < 0x1_0000_0000_0000_0000 && |Flatten(pieces)| < 0x1_0000_0000_0000_0000
      modifies this, auth, auth.buffer
      ensures Valid() && outcome == old(RunOutcome(iv, |Flatten(pieces)|))
      ensures outcome == Done ==>
                && IsCcmCipher(auth.cipher) && IsTagSize(digestSize) && IsNonce(iv)
                && mac == Tag(auth.cipher, iv, digestSize, Flatten(headerPieces),
                              if forward then Flatten(pieces) else output)[..macSize]
                && again == mac
    {
      hide IsCtrStart, Pow256, IsBlockCipher, Pristine, InStep, Flatten, Crypt, Closed, Mac, KeyStream;
      again := [];
      outcome, output, mac := Run(iv, headerPieces, pieces, macSize);
      if outcome == Done {
        FlattenNothing();
        ghost var m := auth.buffer[16..];
        outcome, again := RunUndeclared(iv, [], [], macSize);
        KeyStreamJoins(auth.cipher, iv, 0, macSize, 16 - macSize);
        TakeXor(m, KeyStream(auth.cipher, iv, 0, macSize), KeyStream(auth.cipher, iv, macSize, 16 - macSize));
      }
    }

    /** Encrypts and authenticates at one go. */
    method EncryptAndAuthenticate(iv: seq<byte>, header: seq<byte>, message: seq<byte>, macSize: nat)
      returns (outcome: Outcome, ciphertext: seq<byte>, mac: seq<byte>)
      requires Valid() && forward && macSize <= 16
      requires |header| < 0x1_0000_0000_0000_0000 && |message| < 0x1_0000_0000_0000_0000
      modifies this, auth, auth.buffer
      ensures Valid() && outcome == old(RunOutcome(iv, |message|))
      ensures outcome == Done ==>
                && IsCcmCipher(auth.cipher) && IsTagSize(digestSize) && IsNonce(iv)
                && ciphertext == Crypt(auth.cipher, iv, message)
                && mac == Tag(auth.cipher, iv, digestSize, header, message)[..macSize]
    {
      hide IsCtrStart, Pow256, IsBlockCipher, Pristine, InStep, Flatten, Crypt, Tag;
      FlattenOne(header);
      FlattenOne(message);
      outcome, ciphertext, mac := Run(iv, [header], [message], macSize);
    }

    /** Decrypts at one go, and tells whether the tag is right. */
    method DecryptAndVerify(iv: seq<byte>, header: seq<byte>, ciphertext: seq<byte>, mac: seq<byte>)
      returns (outcome: Outcome, message: seq<byte>, verified: bool)
      requires Valid() && !forward
      requires |header| < 0x1_0000_0000_0000_0000 && |ciphertext| < 0x1_0000_0000_0000_0000
      modifies this, auth, auth.buffer
      ensures Valid() && (outcome == Done ==> old(RunOutcome(iv, |ciphertext|)) == Done && |mac| <= digestSize)
      ensures old(RunOutcome(iv, |ciphertext|)) == Done && |mac| <= digestSize ==> outcome == Done
      ensures outcome == Done ==>
                && IsCcmCipher(auth.cipher) && IsTagSize(digestSize) && IsNonce(iv)
                && message == Crypt(auth.cipher, iv, ciphertext)
                && (verified <==> mac == Tag(auth.cipher, iv, digestSize, header, message)[..|mac|])
    {
      hide IsCtrStart, Pow256, IsBlockCipher, Pristine, InStep, Flatten, Crypt, Tag, Mac, Closed, Xor, KeyStream,
           FirstNonce, TagFrom, MacFrom, FinalOutcome;
      message, verified := [], false;
      FlattenOne(header);
      FlattenOne(ciphertext);
      FlattenNothing();
      outcome := BeginRun(iv, [], |header|, |ciphertext|);
      if outcome == Done {
        OwnNonce(iv);
        FeedHeader([header]);
        message := FeedMessage([ciphertext]);
        TagFromItself(auth.cipher, iv, digestSize, header, message);
        if |mac| > digestSize {
          declared, pristine := false, false;
          return InvalidArgument, message, false;
        }
        var digest;
        outcome, digest := TruncatedFinal(|mac|);
        verified := digest == mac;
      }
    }
  }

  /** What one object encrypts, another with the same key and nonce decrypts, whatever the pieces, and both make
      the same tag. */
  method RoundTrip(sender: CcmMode, receiver: CcmMode, iv: seq<byte>, headerPieces: seq<seq<byte>>,
                   pieces: seq<seq<byte>>,
                   otherHeaderPieces: seq<seq<byte>>, cut: nat, macSize: nat)
    returns (outcome: Outcome, message: seq<byte>, tags: (seq<byte>, seq<byte>))
    requires sender.Valid() && receiver.Valid() && sender.forward && !receiver.forward && macSize <= 16
    requires sender != receiver && sender.auth != receiver.auth && sender.auth.buffer != receiver.auth.buffer
    requires receiver.auth.cipher == sender.auth.cipher && receiver.digestSize == sender.digestSize
    requires (receiver.state == Start <==> sender.state == Start) && cut <= |Flatten(pieces)|
    requires |Flatten(headerPieces)| < 0x1_0000_0000_0000_0000 && |Flatten(pieces)| < 0x1_0000_0000_0000_0000
    requires Flatten(otherHeaderPieces) == Flatten(headerPieces)
    modifies sender, sender.auth, sender.auth.buffer, receiver, receiver.auth, receiver.auth.buffer
    ensures sender.Valid() && receiver.Valid() && outcome == old(sender.RunOutcome(iv, |Flatten(pieces)|))
    ensures outcome == Done ==> message == Flatten(pieces) && tags.0 == tags.1
  {
    hide CcmMode.Valid, Flatten, Crypt, Tag, Pow256;
    var ciphertext, mac, mac';
    message, tags := [], ([], []);
    outcome, ciphertext, mac := sender.Run(iv, headerPieces, pieces, macSize);
    if outcome == Done {
      TwoPieces(ciphertext[..cut], ciphertext[cut..]);
      CryptTwice(sender.auth.cipher, iv, Flatten(pieces));
      assert ciphertext[..cut] + ciphertext[cut..] == ciphertext;
      outcome, message, mac' := receiver.Run(iv, otherHeaderPieces, [ciphertext[..cut], ciphertext[cut..]], macSize);
      tags := (mac, mac');
    }
  }

  lemma TwoPieces(s: seq<byte>, t: seq<byte>)
    ensures Flatten([s, t]) == s + t
  {
    FlattenOne(s);
    FlattenNext([s, t], 1);
    assert [s, t][..1] == [s] && [s, t][..2] == [s, t];
  }

  lemma ReadBack(buf: seq<byte>, nonce: seq<byte>, pieces: seq<seq<byte>>)
    requires IsNonce(nonce) && |buf| == 32
    requires buf[..16] == TakePieces([LengthSize(nonce) - 1] + nonce + ZeroBytes(LengthSize(nonce)), pieces)
    ensures buf[1..1 + |nonce|] == FirstNonce(nonce, pieces)
  {
    hide TakePieces;
  }

  lemma TakenNothing(b: seq<byte>)
    requires |b| == 16
    ensures TakePieces(b, []) == b
  {
  }

  lemma FlattenNothing()
    ensures Flatten([]) == []
  {
  }

  lemma CryptNothing(c: BlockCipher, nonce: seq<byte>)
    requires IsCcmCipher(c) && IsNonce(nonce)
    ensures Crypt(c, nonce, []) == []
  {
  }

  lemma MacDone(c: BlockCipher, first: seq<byte>, nonce: seq<byte>, t: nat, aad: nat, header: seq<byte>,
                message: seq<byte>,
                buf: seq<byte>, n: nat, buf': seq<byte>, macSize: nat)
    requires IsCcmCipher(c) && IsNonce(first) && IsNonce(nonce) && IsTagSize(t) && n < 16 && macSize <= 16
    requires Absorbed(c, Chain(c, Begin(c, first, aad, |message|, t), HeaderBlocks(aad, header)), message, buf, n)
    requires |buf'| == 32 && buf'[16..] == Chain(c, buf[16..], PaddedRest(16, buf[..n]))
    ensures buf'[16..] == MacFrom(c, first, t, aad, header, message)
    ensures Xor(buf'[16..][..macSize], KeyStream(c, nonce, 0, macSize))
            == TagFrom(c, first, nonce, t, aad, header, message)[..macSize]
  {
    hide Absorbed, Chain, KeyStream, FirstBlock, PaddedBlocks, HeaderBlocks;
    var x := Begin(c, first, aad, |message|, t);
    AbsorbPadding(c, Chain(c, x, HeaderBlocks(aad, header)), message, buf, n, buf');
    ChainAppend(c, x, HeaderBlocks(aad, header), PaddedBlocks(16, message));
    assert buf'[16..] == MacFrom(c, first, t, aad, header, message);
    KeyStreamJoins(c, nonce, 0, macSize, 16 - macSize);
    TakeXor(buf'[16..], KeyStream(c, nonce, 0, macSize), KeyStream(c, nonce, macSize, 16 - macSize));
  }

  lemma EnoughForTag(l: nat)
    ensures Pow256(l) > 0
  {
  }

  lemma TakeXor(a: seq<byte>, j: seq<byte>, k: seq<byte>)
    requires |a| == |j + k|
    ensures Xor(a, j + k)[..|j|] == Xor(a[..|j|], j)
  {
    hide XorByte;
  }

  /** The nonce overwrites the bytes of the 8-byte length that the length field has no room for. */
  lemma Overlay(nonce: seq<byte>, fill: seq<byte>, aad: nat, message: nat, t: nat)
    requires IsNonce(nonce) && IsTagSize(t) && |fill| == 7
    ensures var l := LengthSize(nonce); var first := [Flags(aad, t, l)] + fill + BigEndian(message, 8);
            first[..1] + nonce + first[16 - l..] == FirstBlock(nonce, aad, message, t)
  {
    hide BigEndian;
    var l := LengthSize(nonce);
    var first := [Flags(aad, t, l)] + fill + BigEndian(message, 8);
    BigEndianSuffix(message, 8, l);
    assert first[16 - l..] == BigEndian(message, 8)[8 - l..];
  }
}
