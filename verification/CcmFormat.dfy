/** CCM as sections 2.2 to 2.4 of RFC 3610 define it. */
module CcmFormat {
  import opened Arithmetic
  import opened BitStrings
  import opened Octets
  import opened BlockChaining

  ghost predicate IsNonce(nonce: seq<byte>) {
    7 <= |nonce| <= 13
  }

  /** The number of bytes of the length field. */
  function LengthSize(nonce: seq<byte>): (l: nat)
    requires IsNonce(nonce)
    ensures 2 <= l <= 8
  {
    15 - |nonce|
  }

  predicate IsTagSize(t: int) {
    4 <= t <= 16 && t % 2 == 0
  }

  lemma TagSizes(t: int)
    ensures IsTagSize(t) <==> t in {4, 6, 8, 10, 12, 14, 16}
  {
  }

  function Flags(aad: nat, t: nat, l: nat): byte
    requires IsTagSize(t) && 2 <= l <= 8
  {
    (if aad > 0 then 64 else 0) + 8 * ((t - 2) / 2) + (l - 1)
  }

  /** B_0 */
  function FirstBlock(nonce: seq<byte>, aad: nat, message: nat, t: nat): (b: seq<byte>)
    requires IsNonce(nonce) && IsTagSize(t)
    ensures |b| == 16
  {
    [Flags(aad, t, LengthSize(nonce))] + nonce + BigEndian(message, LengthSize(nonce))
  }

  /** B_0 field by field, as figure 1 of RFC 3610 and the bits of its flags have it. */
  ghost predicate IsFirstBlock(b: seq<byte>, nonce: seq<byte>, aad: nat, message: nat, t: nat) {
    && |b| == 16 && 7 <= |nonce| <= 13
    && b[0] % 8 == 14 - |nonce| && 2 * ((b[0] / 8) % 8) + 2 == t && b[0] / 64 == (if aad > 0 then 1 else 0)
    && b[1..1 + |nonce|] == nonce
    && forall i :: 0 <= i < 15 - |nonce| ==> b[15 - i] == (message / Pow256(i)) % 256
  }

  lemma FlagsFields(a: nat, t: nat, l: nat)
    requires IsTagSize(t) && 2 <= l <= 8
    ensures var f := Flags(a, t, l); f % 8 == l - 1 && 2 * ((f / 8) % 8) + 2 == t && f / 64 == (if a > 0 then 1 else 0)
  {
    var k := (t - 2) / 2;
    assert t == 2 * k + 2 && 1 <= k <= 7;
    assert Flags(a, t, l) / 8 == (if a > 0 then 8 else 0) + k;
  }

  lemma FirstBlockFields(nonce: seq<byte>, aad: nat, message: nat, t: nat)
    requires IsNonce(nonce) && IsTagSize(t)
    ensures IsFirstBlock(FirstBlock(nonce, aad, message, t), nonce, aad, message, t)
  {
    hide BigEndian, Pow256, Flags;
    var b, l := FirstBlock(nonce, aad, message, t), LengthSize(nonce);
    FlagsFields(aad, t, l);
    forall i | 0 <= i < l ensures b[15 - i] == (message / Pow256(i)) % 256 {
      BigEndianAt(message, l, l - 1 - i);
    }
  }

  /** x is what enciphering such a block gives. */
  ghost predicate StartsFrom(c: BlockCipher, x: seq<byte>, nonce: seq<byte>, aad: nat, message: nat, t: nat) {
    exists b: seq<byte> :: IsFirstBlock(b, nonce, aad, message, t) && x == c.encrypt(b)
  }

  /** The encoding of the length of the additional data. */
  function AadPrefix(a: nat): (s: seq<byte>) {
    if a == 0 then []
    else if a < 0xff00 then BigEndian(a, 2)
    else if a < 0x1_0000_0000 then [0xff, 0xfe] + BigEndian(a, 4)
    else [0xff, 0xff] + BigEndian(a, 8)
  }

  /** Section 2.2 of RFC 3610: two, six or ten octets, or none. */
  lemma AadPrefixFields(a: nat)
    requires a < 0x1_0000_0000_0000_0000
    ensures var p := AadPrefix(a);
            if a == 0 then |p| == 0
            else if a < 0xff00 then p == [a / 256, a % 256]
            else
              && p[0] == 255 && p[1] == (if a < 0x1_0000_0000 then 254 else 255)
              && |p| == (if a < 0x1_0000_0000 then 6 else 10)
              && forall i :: 2 <= i < |p| ==> p[i] == (a / Pow256(|p| - 1 - i)) % 256
  {
    hide BigEndian, Pow256;
    if 0 < a < 0xff00 {
      TwoBytes(a);
    } else if a > 0 {
      var n := if a < 0x1_0000_0000 then 4 else 8;
      forall i | 0 <= i < n ensures BigEndian(a, n)[i] == (a / Pow256(n - 1 - i)) % 256 {
        BigEndianAt(a, n, i);
      }
    }
  }

  function HeaderInput(header: seq<byte>): seq<byte> {
    AadPrefix(|header|) + header
  }

  /** B_1, B_2, ... */
  function AuthBlocks(header: seq<byte>, message: seq<byte>): (blocks: seq<seq<byte>>)
    ensures forall k :: 0 <= k < |blocks| ==> |blocks[k]| == 16
  {
    PaddedBlocks(16, HeaderInput(header)) + PaddedBlocks(16, message)
  }

  /** A_j */
  function CounterBlock(nonce: seq<byte>, j: nat): (b: seq<byte>)
    requires IsNonce(nonce)
    ensures |b| == 16
  {
    [LengthSize(nonce) - 1] + nonce + BigEndian(j, LengthSize(nonce))
  }

  /** A_j field by field. */
  ghost predicate IsCounterBlock(b: seq<byte>, nonce: seq<byte>, j: nat) {
    && |b| == 16 && 7 <= |nonce| <= 13 && b[0] == 14 - |nonce| && b[1..1 + |nonce|] == nonce
    && forall i :: 0 <= i < 15 - |nonce| ==> b[15 - i] == (j / Pow256(i)) % 256
  }

  lemma CounterBlockFields(nonce: seq<byte>, j: nat)
    requires IsNonce(nonce)
    ensures IsCounterBlock(CounterBlock(nonce, j), nonce, j)
  {
    hide BigEndian, Pow256;
    var l := LengthSize(nonce);
    forall i | 0 <= i < l ensures CounterBlock(nonce, j)[15 - i] == (j / Pow256(i)) % 256 {
      BigEndianAt(j, l, l - 1 - i);
    }
  }

  ghost predicate IsCcmCipher(c: BlockCipher) {
    IsBlockCipher(c) && c.size == 16
  }

  /** Byte p of S_0 S_1 S_2 ... */
  function KeyByte(c: BlockCipher, nonce: seq<byte>, p: nat): byte
    requires IsCcmCipher(c) && IsNonce(nonce)
  {
    c.encrypt(CounterBlock(nonce, p / 16))[p % 16]
  }

  function KeyStream(c: BlockCipher, nonce: seq<byte>, from: nat, n: nat): (s: seq<byte>)
    requires IsCcmCipher(c) && IsNonce(nonce)
    ensures |s| == n
  {
    if n == 0 then [] else KeyStream(c, nonce, from, n - 1) + [KeyByte(c, nonce, from + n - 1)]
  }

  /** Encryption of a message, and decryption: S_0 is kept for the tag. */
  function Crypt(c: BlockCipher, nonce: seq<byte>, s: seq<byte>): (r: seq<byte>)
    requires IsCcmCipher(c) && IsNonce(nonce)
    ensures |r| == |s|
  {
    Xor(s, KeyStream(c, nonce, 16, |s|))
  }

  /** T */
  function Mac(c: BlockCipher, nonce: seq<byte>, t: nat, header: seq<byte>, message: seq<byte>): (mac: seq<byte>)
    requires IsCcmCipher(c) && IsNonce(nonce) && IsTagSize(t)
    ensures |mac| == 16
  {
    Chain(c, c.encrypt(FirstBlock(nonce, |header|, |message|, t)), AuthBlocks(header, message))
  }

  /** U, before truncation. */
  function Tag(c: BlockCipher, nonce: seq<byte>, t: nat, header: seq<byte>, message: seq<byte>): (mac: seq<byte>)
    requires IsCcmCipher(c) && IsNonce(nonce) && IsTagSize(t)
    ensures |mac| == 16
  {
    Xor(Mac(c, nonce, t, header, message), KeyStream(c, nonce, 0, 16))
  }

  /** T with the nonce and the length of the additional data in B_0, and that length in front of the header, set apart
      from what they should be. */
  function MacFrom(c: BlockCipher, first: seq<byte>, t: nat, aad: nat, header: seq<byte>, message: seq<byte>):
      (mac: seq<byte>)
    requires IsCcmCipher(c) && IsNonce(first) && IsTagSize(t)
    ensures |mac| == 16
  {
    Chain(c, c.encrypt(FirstBlock(first, aad, |message|, t)), HeaderBlocks(aad, header) + PaddedBlocks(16, message))
  }

  function HeaderBlocks(aad: nat, header: seq<byte>): (blocks: seq<seq<byte>>)
    ensures forall k :: 0 <= k < |blocks| ==> |blocks[k]| == 16
  {
    PaddedBlocks(16, AadPrefix(aad) + header)
  }

  function TagFrom(c: BlockCipher, first: seq<byte>, nonce: seq<byte>, t: nat, aad: nat, header: seq<byte>,
                   message: seq<byte>): (mac: seq<byte>)
    requires IsCcmCipher(c) && IsNonce(first) && IsNonce(nonce) && IsTagSize(t)
    ensures |mac| == 16
  {
    Xor(MacFrom(c, first, t, aad, header, message), KeyStream(c, nonce, 0, 16))
  }

  lemma TagFromItself(c: BlockCipher, nonce: seq<byte>, t: nat, header: seq<byte>, message: seq<byte>)
    requires IsCcmCipher(c) && IsNonce(nonce) && IsTagSize(t)
    ensures MacFrom(c, nonce, t, |header|, header, message) == Mac(c, nonce, t, header, message)
    ensures TagFrom(c, nonce, nonce, t, |header|, header, message) == Tag(c, nonce, t, header, message)
  {
    hide Chain, PaddedBlocks, Xor, KeyStream, FirstBlock, AadPrefix;
  }

  lemma {:induction false} KeyStreamAt(c: BlockCipher, nonce: seq<byte>, from: nat, n: nat, i: nat)
    requires IsCcmCipher(c) && IsNonce(nonce) && i < n
    ensures KeyStream(c, nonce, from, n)[i] == KeyByte(c, nonce, from + i)
  {
    hide KeyByte;
    if i < n - 1 {
      KeyStreamAt(c, nonce, from, n - 1, i);
    }
  }

  /** Byte i of a message is mixed with byte i % 16 of the block that enciphering A_(i / 16 + 1) gives. */
  lemma CryptAt(c: BlockCipher, nonce: seq<byte>, s: seq<byte>, i: nat) returns (b: seq<byte>)
    requires IsCcmCipher(c) && IsNonce(nonce) && i < |s|
    ensures IsCounterBlock(b, nonce, i / 16 + 1) && |c.encrypt(b)| == 16
    ensures Crypt(c, nonce, s)[i] == XorByte(s[i], c.encrypt(b)[i % 16])
  {
    hide XorByte, CounterBlock;
    b := CounterBlock(nonce, i / 16 + 1);
    CounterBlockFields(nonce, i / 16 + 1);
    KeyStreamAt(c, nonce, 16, |s|, i);
  }

  /** Byte i of the tag is that of the chaining value, mixed with that of the block that enciphering A_0 gives. */
  lemma TagAt(c: BlockCipher, nonce: seq<byte>, t: nat, header: seq<byte>, message: seq<byte>, i: nat)
      returns (b: seq<byte>)
    requires IsCcmCipher(c) && IsNonce(nonce) && IsTagSize(t) && i < 16
    ensures IsCounterBlock(b, nonce, 0) && |c.encrypt(b)| == 16
    ensures Tag(c, nonce, t, header, message)[i] == XorByte(Mac(c, nonce, t, header, message)[i], c.encrypt(b)[i])
  {
    hide XorByte, CounterBlock, Mac;
    b := CounterBlock(nonce, 0);
    CounterBlockFields(nonce, 0);
    KeyStreamAt(c, nonce, 0, 16, i);
  }

  /** The chaining value of a header and a message of at most 16 bytes each, prefix included: three blocks are
      enciphered. */
  lemma MacOfShort(c: BlockCipher, nonce: seq<byte>, t: nat, header: seq<byte>, message: seq<byte>)
    returns (b: seq<byte>)
    requires IsCcmCipher(c) && IsNonce(nonce) && IsTagSize(t)
    requires 0 < |header| <= 14 && 0 < |message| <= 16
    ensures IsFirstBlock(b, nonce, |header|, |message|, t) && |c.encrypt(b)| == 16
    ensures var h := [0, |header|] + header + ZeroBytes(14 - |header|);
            var x := c.encrypt(Xor(h, c.encrypt(b)));
            |x| == 16 && Mac(c, nonce, t, header, message) == c.encrypt(Xor(message + ZeroBytes(16 - |message|), x))
  {
    hide Xor, Chain, PaddedBlocks, FirstBlock, ZeroBytes;
    b := FirstBlock(nonce, |header|, |message|, t);
    FirstBlockFields(nonce, |header|, |message|, t);
    AadPrefixFields(|header|);
    var input := HeaderInput(header);
    assert input == [0, |header|] + header;
    PaddedAtMost(16, input);
    PaddedAtMost(16, message);
    var h, m := input + ZeroBytes(16 - |input|), message + ZeroBytes(16 - |message|);
    ChainOne(c, c.encrypt(b), h);
    ChainNext(c, c.encrypt(b), [h], m);
  }

  /** Decryption is encryption again. */
  lemma CryptTwice(c: BlockCipher, nonce: seq<byte>, s: seq<byte>)
    requires IsCcmCipher(c) && IsNonce(nonce)
    ensures Crypt(c, nonce, Crypt(c, nonce, s)) == s
  {
    XorTwice(s, KeyStream(c, nonce, 16, |s|));
  }

  lemma {:induction false} KeyStreamJoins(c: BlockCipher, nonce: seq<byte>, from: nat, a: nat, b: nat)
    requires IsCcmCipher(c) && IsNonce(nonce)
    ensures KeyStream(c, nonce, from, a + b) == KeyStream(c, nonce, from, a) + KeyStream(c, nonce, from + a, b)
  {
    hide KeyByte;
    if b == 0 {
      assert KeyStream(c, nonce, from, a) + [] == KeyStream(c, nonce, from, a);
    } else {
      KeyStreamJoins(c, nonce, from, a, b - 1);
    }
  }

  /** A message may be encrypted piece by piece. */
  lemma CryptJoins(c: BlockCipher, nonce: seq<byte>, s: seq<byte>, t: seq<byte>)
    requires IsCcmCipher(c) && IsNonce(nonce)
    ensures Crypt(c, nonce, s + t) == Crypt(c, nonce, s) + Xor(t, KeyStream(c, nonce, 16 + |s|, |t|))
  {
    hide KeyStream;
    KeyStreamJoins(c, nonce, 16, |s|, |t|);
    XorJoins(s, t, KeyStream(c, nonce, 16, |s|), KeyStream(c, nonce, 16 + |s|, |t|));
  }

  // The counter mode object counts in blocks of 16 bytes

  /** Counter mode counts up the whole block. */
  function Counter(start: seq<byte>, j: nat): seq<byte> {
    BigEndian(Value(start) + j, |start|)
  }

  /** Adding to the zeros at the end of a block leaves the start of the block alone. */
  lemma {:induction false} AddToZeros(p: seq<byte>, l: nat, j: nat)
    requires j < Pow256(l)
    ensures BigEndian(Value(p + ZeroBytes(l)) + j, |p| + l) == p + BigEndian(j, l)
  {
    if l == 0 {
      assert p + ZeroBytes(0) == p;
      BigEndianOfValue(p);
      assert p + BigEndian(j, 0) == p;
    } else {
      AddToZeros(p, l - 1, j / 256);
      assert p + ZeroBytes(l) == (p + ZeroBytes(l - 1)) + [0];
      ValueAppend(p + ZeroBytes(l - 1), 0);
      SplitSum(Value(p + ZeroBytes(l - 1)), j);
      assert p + (BigEndian(j / 256, l - 1) + [LowByte(j)]) == (p + BigEndian(j / 256, l - 1)) + [LowByte(j)];
    }
  }

  lemma SplitSum(v: nat, j: nat)
    ensures (v * 256 + j) / 256 == v + j / 256 && LowByte(v * 256 + j) == LowByte(j)
  {
    AddMultiple(j, v, 256);
  }

  /** The blocks that counter mode encrypts are A_0, A_1, ... */
  lemma CounterIsBlock(nonce: seq<byte>, start: seq<byte>, j: nat)
    requires IsNonce(nonce) && j < Pow256(LengthSize(nonce))
    requires start == [LengthSize(nonce) - 1] + nonce + ZeroBytes(LengthSize(nonce))
    ensures Counter(start, j) == CounterBlock(nonce, j)
  {
    AddToZeros([LengthSize(nonce) - 1] + nonce, LengthSize(nonce), j);
  }

  // The blocks determine nonce, header and message

  lemma {:induction false} PaddedPrefix(size: nat, s: seq<byte>, t: seq<byte>)
    requires size > 0 && PaddedBlocks(size, s) == PaddedBlocks(size, t) && |s| <= |t|
    ensures s == t[..|s|]
  {
    if |s| > 0 {
      hide PaddedBlocks;
      FirstPadded(size, s);
      FirstPadded(size, t);
      if |s| <= size {
        var p := PaddedBlocks(size, s)[0];
        assert p[..Min(|t|, size)][..|s|] == t[..Min(|t|, size)][..|s|];
        assert t[..Min(|t|, size)][..|s|] == t[..|s|] && p[..Min(|t|, size)][..|s|] == p[..|s|];
      } else {
        PaddedLong(size, s);
        PaddedLong(size, t);
        assert PaddedBlocks(size, s)[1..] == PaddedBlocks(size, s[size..]);
        assert PaddedBlocks(size, t)[1..] == PaddedBlocks(size, t[size..]);
        PaddedPrefix(size, s[size..], t[size..]);
        CutTwice(s, size, |s|);
        CutTwice(t, size, |s|);
        assert s[size..][..|s| - size] == s[size..];
      }
    }
  }

  lemma CutTwice(s: seq<byte>, a: nat, b: nat)
    requires a <= b <= |s|
    ensures s[..b] == s[..a] + s[a..][..b - a]
  {
  }

  lemma FirstPadded(size: nat, s: seq<byte>)
    requires size > 0 && |s| > 0
    ensures |PaddedBlocks(size, s)| > 0
    ensures PaddedBlocks(size, s)[0][..Min(|s|, size)] == s[..Min(|s|, size)]
  {
  }

  lemma {:induction false} PaddedCount(size: nat, s: seq<byte>, t: seq<byte>)
    requires size > 0 && |s| == |t|
    ensures |PaddedBlocks(size, s)| == |PaddedBlocks(size, t)|
  {
    if |s| > size {
      PaddedCount(size, s[size..], t[size..]);
    }
  }

  lemma Pow256Values()
    ensures Pow256(2) == 0x1_0000 && Pow256(4) == 0x1_0000_0000 && Pow256(8) == 0x1_0000_0000_0000_0000
  {
    assert Pow256(4) == 256 * (256 * (256 * 256));
    assert Pow256(8) == 256 * (256 * (256 * (256 * Pow256(4))));
  }

  lemma TwoBytes(a: nat)
    requires a < 0xff00
    ensures BigEndian(a, 2) == [a / 256, a % 256] && a / 256 < 0xff
  {
    assert BigEndian(a / 256, 1) == BigEndian(a / 256 / 256, 0) + [LowByte(a / 256)];
  }

  /** The start of the additional data tells its length. */
  lemma AadPrefixDecodes(a: nat, b: nat, s: seq<byte>, t: seq<byte>)
    requires 0 < a <= b < 0x1_0000_0000_0000_0000 && a <= |s| && |s| <= |t|
    requires AadPrefix(a) + s == (AadPrefix(b) + t)[..|AadPrefix(a) + s|]
    requires |AadPrefix(a)| <= |AadPrefix(b)|
    ensures a == b
  {
    hide BigEndian;
    Pow256Values();
    var u, v := AadPrefix(a) + s, AadPrefix(b) + t;
    assert u[0] == v[0] && u[1] == v[1];
    if a < 0xff00 {
      TwoBytes(a);
      if b < 0xff00 {
        TwoBytes(b);
      }
    } else if a < 0x1_0000_0000 {
      assert b < 0x1_0000_0000;
      assert BigEndian(a, 4) == u[2..6] == v[2..6] == BigEndian(b, 4);
      BigEndianInjective(a, b, 4);
    } else {
      assert BigEndian(a, 8) == u[2..10] == v[2..10] == BigEndian(b, 8);
      BigEndianInjective(a, b, 8);
    }
  }

  lemma HeaderDecodes(g: seq<byte>, h: seq<byte>)
    requires |g| <= |h| < 0x1_0000_0000_0000_0000 && (|g| > 0 <==> |h| > 0)
    requires PaddedBlocks(16, HeaderInput(g)) == PaddedBlocks(16, HeaderInput(h))
    ensures g == h
  {
    if |g| > 0 {
      PaddedPrefix(16, HeaderInput(g), HeaderInput(h));
      AadPrefixDecodes(|g|, |h|, g, h);
      var p := |AadPrefix(|g|)|;
      assert g == HeaderInput(g)[p..] && h == HeaderInput(h)[p..];
    }
  }

  lemma FirstBlockDecodes(n: seq<byte>, a: nat, m: nat, t: nat, n': seq<byte>, a': nat, m': nat, t': nat)
    requires IsNonce(n) && IsNonce(n') && IsTagSize(t) && IsTagSize(t')
             && FirstBlock(n, a, m, t) == FirstBlock(n', a', m', t')
    requires m < Pow256(LengthSize(n)) && m' < Pow256(LengthSize(n'))
    ensures n == n' && (a > 0 <==> a' > 0) && m == m' && t == t'
  {
    hide BigEndian;
    var b, b', l := FirstBlock(n, a, m, t), FirstBlock(n', a', m', t'), LengthSize(n);
    FlagsDecode(a, t, l, a', t', LengthSize(n'));
    assert b[0] == Flags(a, t, l) && b'[0] == Flags(a', t', LengthSize(n'));
    assert n == b[1..1 + |n|] && n' == b'[1..1 + |n|];
    assert BigEndian(m, l) == b[1 + |n|..] && BigEndian(m', l) == b'[1 + |n|..];
    BigEndianInjective(m, m', l);
  }

  lemma FlagsDecode(a: nat, t: nat, l: nat, a': nat, t': nat, l': nat)
    requires IsTagSize(t) && IsTagSize(t') && 2 <= l <= 8 && 2 <= l' <= 8
    ensures Flags(a, t, l) == Flags(a', t', l') ==> l == l' && t == t' && (a > 0 <==> a' > 0)
  {
    hide Flags;
    FlagsFields(a, t, l);
    FlagsFields(a', t', l');
  }

  /** Two messages are authenticated by the same blocks only if they agree in nonce, header, message and tag size. */
  lemma BlocksDetermineInput(n: seq<byte>, h: seq<byte>, m: seq<byte>, t: nat,
                             n': seq<byte>, h': seq<byte>, m': seq<byte>, t': nat)
    requires IsNonce(n) && IsNonce(n') && IsTagSize(t) && IsTagSize(t')
    requires |m| < Pow256(LengthSize(n)) && |m'| < Pow256(LengthSize(n'))
    requires |h| < 0x1_0000_0000_0000_0000 && |h'| < 0x1_0000_0000_0000_0000
    requires FirstBlock(n, |h|, |m|, t) == FirstBlock(n', |h'|, |m'|, t') && AuthBlocks(h, m) == AuthBlocks(h', m')
    ensures n == n' && h == h' && m == m' && t == t'
  {
    hide FirstBlock, HeaderInput, PaddedBlocks, Pow256;
    FirstBlockDecodes(n, |h|, |m|, t, n', |h'|, |m'|, t');
    PaddedCount(16, m, m');
    var p, p' := PaddedBlocks(16, HeaderInput(h)), PaddedBlocks(16, HeaderInput(h'));
    var q, q' := PaddedBlocks(16, m), PaddedBlocks(16, m');
    assert |p| == |p'|;
    assert p == (p + q)[..|p|] && p' == (p' + q')[..|p|] && q == (p + q)[|p|..] && q' == (p' + q')[|p|..];
    PaddedPrefix(16, m, m');
    if |h| <= |h'| {
      HeaderDecodes(h, h');
    } else {
      HeaderDecodes(h', h);
    }
  }
}
