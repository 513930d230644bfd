/** `CMAC_Base`. */
module Cmac {
  import opened Arithmetic
  import opened BitStrings
  import opened Octets
  import opened BlockChaining
  import opened GaloisDoubling

  // The algorithm of section 6 of NIST SP 800-38B

  /** The product with x; of an odd number of bytes, which the standard does not know, the first stays as it is. */
  function DoubleOf(s: seq<byte>): (r: seq<byte>)
    ensures |r| == |s|
  {
    var n := |s| - |s| % 2;
    s[..|s| % 2] + BigEndian(TimesX(Value(Paired(s)), n), n)
  }

  /** L */
  function EncryptedZero(c: BlockCipher): (l: seq<byte>)
    requires IsBlockCipher(c)
    ensures |l| == c.size
  {
    c.encrypt(ZeroBytes(c.size))
  }

  function K1(c: BlockCipher): (k: seq<byte>)
    requires IsBlockCipher(c)
    ensures |k| == c.size
  {
    DoubleOf(EncryptedZero(c))
  }

  function K2(c: BlockCipher): (k: seq<byte>)
    requires IsBlockCipher(c)
    ensures |k| == c.size
  {
    DoubleOf(K1(c))
  }

  /** The last block: one subkey if it is complete, the other after a one bit and zeros if not. */
  function LastBlock(c: BlockCipher, h: seq<byte>): (b: seq<byte>)
    requires IsBlockCipher(c) && |h| <= c.size
    ensures |b| == c.size
  {
    if |h| == c.size then Xor(h, K1(c)) else Xor(h + [0x80] + ZeroBytes(c.size - |h| - 1), K2(c))
  }

  function CmacOf(c: BlockCipher, message: seq<byte>): (mac: seq<byte>)
    requires IsBlockCipher(c)
    ensures |mac| == c.size
  {
    Chain(c, ZeroBytes(c.size), BeforeLast(c.size, message) + [LastBlock(c, Last(c.size, message))])
  }

  // The register

  /** The register holds h, filled up with zeros, on top of the chaining value x. */
  ghost predicate Holds(size: nat, x: seq<byte>, h: seq<byte>, r: seq<byte>) {
    |h| <= size == |x| && r == Xor(h + ZeroBytes(size - |h|), x)
  }

  lemma HoldMore(size: nat, x: seq<byte>, h: seq<byte>, t: seq<byte>, r: seq<byte>, r': seq<byte>)
    requires Holds(size, x, h, r) && |h| + |t| <= size && |r'| == size
    requires forall i :: 0 <= i < size ==> r'[i] == if |h| <= i < |h| + |t| then XorByte(r[i], t[i - |h|]) else r[i]
    ensures Holds(size, x, h + t, r')
  {
    hide XorByte;
    var a := h + t + ZeroBytes(size - |h + t|);
    forall i | 0 <= i < size ensures r'[i] == XorByte(a[i], x[i]) {
      if |h| <= i < |h| + |t| {
        OntoZero(x[i], t[i - |h|]);
      }
    }
  }

  lemma OntoZero(x: byte, t: byte)
    ensures XorByte(XorByte(0, x), t) == XorByte(t, x)
  {
    hide XorBits;
    XorZero(x);
    XorCommutes(x, t);
  }

  lemma HoldsNothing(size: nat, x: seq<byte>)
    requires |x| == size
    ensures Holds(size, x, [], x)
  {
    hide XorByte;
    forall i | 0 <= i < size ensures XorByte(0, x[i]) == x[i] {
      OntoZero(x[i], 0);
      XorWithZero(x[i]);
    }
  }

  lemma XorWithZero(x: byte)
    ensures XorByte(0, x) == x == XorByte(x, 0)
  {
    XorZero(x);
  }

  /** A subkey may be mixed into the register or into the block. */
  lemma MixSubkey(size: nat, x: seq<byte>, block: seq<byte>, k: seq<byte>)
    requires |block| == |x| == |k| == size
    ensures Xor(k, Xor(block, x)) == Xor(Xor(block, k), x)
  {
    hide XorByte;
    XorStringsAssociate(k, block, x);
    XorStringsCommute(k, block);
  }

  class CmacBase {
    var cipher: BlockCipher
    var reg: array<byte>
    var counter: nat

    // The message so far, the chaining value before its last block, and that block.
    ghost var message: seq<byte>
    ghost var x: seq<byte>
    ghost var h: seq<byte>

    /** The register and the subkeys. */
    ghost predicate Core()
      reads this, reg
    {
      && IsBlockCipher(cipher) && reg.Length == 3 * cipher.size && counter == |h|
      && Holds(cipher.size, x, h, reg[..cipher.size])
      && reg[cipher.size..2 * cipher.size] == K1(cipher) && reg[2 * cipher.size..] == K2(cipher)
    }

    ghost predicate Valid()
      reads this, reg
    {
      && Core()
      && h == Last(cipher.size, message)
      && x == Chain(cipher, ZeroBytes(cipher.size), BeforeLast(cipher.size, message))
    }

    /** `xorbuf(m_reg+m_counter, input, len)` */
    method XorIn(input: seq<byte>)
      requires Core() && counter + |input| <= cipher.size
      modifies `counter, `h, reg
      ensures Core() && h == old(h) + input
    {
      hide IsBlockCipher, Holds, XorByte, K1, K2;
      ghost var r, size := reg[..cipher.size], cipher.size;
      var at := counter;
      forall i | 0 <= i < |input| {
        reg[at + i] := XorByte(reg[at + i], input[i]);
      }
      HoldMore(size, x, h, input, r, reg[..size]);
      assert reg[size..2 * size] == old(reg[size..2 * size]) && reg[2 * size..] == old(reg[2 * size..]);
      counter := counter + |input|;
      h := h + input;
    }

    /** Enciphers the register, which holds a complete block. */
    method ProcessReg()
      requires Core() && |h| == cipher.size
      modifies `counter, `x, `h, reg
      ensures Core() && h == [] && x == cipher.encrypt(Xor(old(h), old(x)))
    {
      hide Holds, Xor, K1, K2;
      ghost var size := cipher.size;
      FullHolds(size, x, h, reg[..size]);
      WriteReg(cipher.encrypt(reg[..cipher.size]));
      x, h, counter := reg[..cipher.size], [], 0;
      HoldsNothing(size, x);
    }

    method WriteReg(r: seq<byte>)
      requires reg.Length == 3 * cipher.size && |r| == cipher.size
      modifies reg
      ensures reg[..cipher.size] == r && reg[cipher.size..] == old(reg[cipher.size..])
      ensures reg[cipher.size..2 * cipher.size] == old(reg[cipher.size..2 * cipher.size])
      ensures reg[2 * cipher.size..] == old(reg[2 * cipher.size..])
    {
      forall i | 0 <= i < cipher.size {
        reg[i] := r[i];
      }
    }

    /** Taking in input after h, chained from x, is the same as taking in rest after the new state. */
    ghost predicate Same(c: BlockCipher, x0: seq<byte>, h0: seq<byte>, input: seq<byte>, rest: seq<byte>)
      requires IsBlockCipher(c) && |x0| == c.size && |x| == c.size
      reads this
    {
      && Chain(c, x0, BeforeLast(c.size, h0 + input)) == Chain(c, x, BeforeLast(c.size, h + rest))
      && Last(c.size, h0 + input) == Last(c.size, h + rest)
    }

    /** The first of the input completes the block that is held. */
    method FillHeld(input: seq<byte>) returns (rest: seq<byte>)
      requires Core() && counter > 0 && |input| > 0
      modifies `counter, `x, `h, reg
      ensures Core() && |x| == cipher.size && (|rest| > 0 ==> h == [])
      ensures |old(x)| == cipher.size && Same(cipher, old(x), old(h), input, rest)
    {
      hide Holds, Xor, K1, K2, Chain, BeforeLast, Last;
      HoldsSizes(cipher.size, x, h, reg[..cipher.size]);
      var len := if cipher.size - counter < |input| then cipher.size - counter else |input|;
      rest := input[len..];
      assert h + input == (h + input[..len]) + rest;
      if len > 0 {
        XorIn(input[..len]);
      } else {
        assert h + input[..len] == h;
      }
      if counter == cipher.size && |rest| > 0 {
        LastStep(cipher.size, h, rest);
        ChainAppend(cipher, x, [h], BeforeLast(cipher.size, rest));
        ChainOne(cipher, x, h);
        ProcessReg();
        HoldsSizes(cipher.size, x, h, reg[..cipher.size]);
        assert h + rest == rest;
      }
    }

    /** Chains blocks while more input follows them. */
    method ChainBlocks(input: seq<byte>) returns (rest: seq<byte>)
      requires Core() && h == [] && |input| > 0
      modifies `counter, `x, `h, reg
      ensures Core() && |x| == cipher.size && h == [] && 0 < |rest| <= cipher.size
      ensures |old(x)| == cipher.size && Same(cipher, old(x), [], input, rest)
    {
      hide Holds, Xor, K1, K2, Chain, BeforeLast, Last;
      HoldsSizes(cipher.size, x, h, reg[..cipher.size]);
      rest := input;
      while |rest| > cipher.size
        invariant Core() && |x| == cipher.size && h == [] && |rest| > 0
        invariant Same(cipher, old(x), [], input, rest)
        decreases |rest|
      {
        ghost var block, x0 := rest[..cipher.size], x;
        assert rest == block + rest[cipher.size..];
        LastStep(cipher.size, block, rest[cipher.size..]);
        ChainAppend(cipher, x, [block], BeforeLast(cipher.size, rest[cipher.size..]));
        ChainOne(cipher, x, block);
        assert [] + rest == rest && [] + rest[cipher.size..] == rest[cipher.size..];
        XorIn(rest[..cipher.size]);
        assert [] + block == block;
        ProcessReg();
        HoldsSizes(cipher.size, x, h, reg[..cipher.size]);
        rest := rest[cipher.size..];
      }
    }

    /** Takes in input; what is held at the end is the last block. */
    method TakeIn(input: seq<byte>)
      requires Core() && |input| > 0
      modifies `counter, `x, `h, reg
      ensures Core() && |x| == |old(x)| == cipher.size
      ensures x == Chain(cipher, old(x), BeforeLast(cipher.size, old(h) + input))
              && h == Last(cipher.size, old(h) + input)
    {
      hide Holds, Xor, K1, K2, Chain, BeforeLast, Last;
      HoldsSizes(cipher.size, x, h, reg[..cipher.size]);
      var rest := input;
      if counter > 0 {
        rest := FillHeld(input);
      }
      if |rest| > cipher.size {
        rest := ChainBlocks(rest);
      }
      HoldsSizes(cipher.size, x, h, reg[..cipher.size]);
      assert |rest| == 0 ==> h + rest == h;
      assert |rest| > 0 ==> h + rest == rest;
      LastShort(cipher.size, h + rest);
      ChainNone(cipher, x);
      if |rest| > 0 {
        XorIn(rest);
      }
    }

    /** Takes in a piece of the message. */
    method Update(input: seq<byte>)
      requires Valid()
      modifies this, reg
      ensures Valid() && message == old(message) + input && cipher == old(cipher) && reg == old(reg)
    {
      hide Holds, Xor, K1, K2, Chain, BeforeLast, Last;
      if |input| == 0 {
        assert message + input == message;
        return;
      }
      TakeIn(input);
      LastAppend(cipher.size, message, input);
      ChainAppend(cipher, ZeroBytes(cipher.size), BeforeLast(cipher.size, message),
                  BeforeLast(cipher.size, old(h) + input));
      message := message + input;
    }

    /** Gives out the first bytes of the MAC, unless more are asked for than there are. */
    method TruncatedFinal(size: nat) returns (ok: bool, mac: seq<byte>)
      requires Valid()
      modifies this, reg
      ensures Valid() && cipher == old(cipher) && (ok <==> size <= cipher.size)
      ensures ok ==> mac == CmacOf(cipher, old(message))[..size] && message == []
      ensures !ok ==> message == old(message)
    {
      hide Holds, Xor, K1, K2, Chain, BeforeLast, Last, IsBlockCipher, CmacOf;
      mac := [];
      if size > cipher.size {
        return false, mac;
      }
      ghost var whole := message;
      CmacIs(cipher, message, x, h);
      Finish();
      mac := reg[..size];
      assert mac == reg[..cipher.size][..size];
      Clear();
      return true, mac;
    }

    /** Pads if need be, mixes in a subkey and enciphers. */
    method Finish()
      requires Core()
      modifies reg
      ensures |x| == cipher.size && |h| <= cipher.size
              && reg[..cipher.size] == cipher.encrypt(Xor(LastBlock(cipher, h), x))
      ensures reg[cipher.size..2 * cipher.size] == K1(cipher) && reg[2 * cipher.size..] == K2(cipher)
    {
      hide Holds, Xor, K1, K2, XorByte;
      ghost var size, r := cipher.size, reg[..cipher.size];
      HoldsSizes(size, x, h, r);
      if counter < cipher.size {
        reg[counter] := XorByte(reg[counter], 0x80);
        HoldMore(size, x, h, [0x80], r, reg[..size]);
        HoldsIs(size, x, h + [0x80], reg[..size]);
        assert reg[size..2 * size] == old(reg[size..2 * size]) && reg[2 * size..] == old(reg[2 * size..]);
        MixSubkey(size, x, h + [0x80] + ZeroBytes(size - |h| - 1), K2(cipher));
        WriteReg(cipher.encrypt(Xor(reg[2 * cipher.size..], reg[..cipher.size])));
      } else {
        FullHolds(size, x, h, r);
        MixSubkey(size, x, h, K1(cipher));
        WriteReg(cipher.encrypt(Xor(reg[cipher.size..2 * cipher.size], reg[..cipher.size])));
      }
    }

    /** Makes ready for the next message. */
    method Clear()
      requires IsBlockCipher(cipher) && reg.Length == 3 * cipher.size
      requires reg[cipher.size..2 * cipher.size] == K1(cipher) && reg[2 * cipher.size..] == K2(cipher)
      modifies this, reg
      ensures Valid() && message == [] && cipher == old(cipher) && reg == old(reg)
    {
      hide Holds, K1, K2, Chain, BeforeLast, Last;
      counter := 0;
      WriteReg(ZeroBytes(cipher.size));
      message, x, h := [], ZeroBytes(cipher.size), [];
      HoldsNothing(cipher.size, x);
      LastShort(cipher.size, []);
      ChainNone(cipher, x);
    }

    /** Derives the subkeys, if the block size is supported or no bit is carried out. */
    method SetKey(cipher: BlockCipher) returns (supported: bool)
      requires IsBlockCipher(cipher)
      modifies this
      ensures supported ==> Valid() && this.cipher == cipher && message == [] && fresh(reg)
      ensures supported <==> cipher.size in {8, 16, 32}
                             || 4 * Value(Paired(EncryptedZero(cipher))) < Pow256(cipher.size - cipher.size % 2)
    {
      hide Value, Pow256, K1, K2, EncryptedZero;
      this.cipher, counter := cipher, 0;
      reg := new byte[3 * cipher.size](i => 0);
      supported := Subkeys(cipher, reg);
      if supported {
        Clear();
      }
    }

    constructor ()
      ensures counter == 0
    {
      cipher := BlockCipher(0, b => b);
      reg, counter := new byte[0], 0;
      message, x, h := [], [], [];
    }
  }

  /** A string with the value of the double is the double. */
  lemma IsDouble(s: seq<byte>, r: seq<byte>)
    requires |s| == |r| && r[..|s| % 2] == s[..|s| % 2]
    requires Value(Paired(r)) == TimesX(Value(Paired(s)), |s| - |s| % 2)
    ensures r == DoubleOf(s)
  {
    hide Value, TimesX;
    BigEndianOfValue(Paired(r));
    assert r == r[..|s| % 2] + Paired(r);
  }

  /** If the doubling does not overflow, its value is the double. */
  lemma DoubleValue(s: seq<byte>)
    ensures 2 * Value(Paired(s)) < Pow256(|s| - |s| % 2) ==> Value(Paired(DoubleOf(s))) == 2 * Value(Paired(s))
  {
    hide Value, Pow256;
    var v, n := Value(Paired(s)), |s| - |s| % 2;
    if 2 * v < Pow256(n) {
      ValueOfBigEndian(2 * v, n);
      DivModUnique(2 * v, Pow256(n), 0, 2 * v);
      assert Paired(DoubleOf(s)) == BigEndian(2 * v, n);
    }
  }

  /** Doubles one block of an array. */
  method Subkey(a: array<byte>, at: nat, size: nat, ghost s: seq<byte>) returns (supported: bool)
    requires at + size <= a.Length && a[at..at + size] == s
    modifies a
    ensures supported <==> size in {8, 16, 32} || 2 * Value(Paired(s)) < Pow256(size - size % 2)
    ensures supported ==> a[at..at + size] == DoubleOf(s)
    ensures a[..at] == old(a[..at]) && a[at + size..] == old(a[at + size..])
  {
    hide Value, Pow256, TimesX, Paired, DoubleOf;
    supported := MulU(a, at, size);
    ghost var r := a[at..at + size];
    assert r[..size % 2] == a[..at + size % 2][at..] == s[..size % 2];
    assert a[..at] == a[..at + size % 2][..at];
    if supported {
      IsDouble(s, r);
    }
  }

  /** Fills in both subkeys after a block of zeros. */
  method Subkeys(cipher: BlockCipher, reg: array<byte>) returns (supported: bool)
    requires IsBlockCipher(cipher) && reg.Length == 3 * cipher.size && reg[..cipher.size] == ZeroBytes(cipher.size)
    modifies reg
    ensures supported ==> reg[cipher.size..2 * cipher.size] == K1(cipher) && reg[2 * cipher.size..] == K2(cipher)
    ensures supported <==> cipher.size in {8, 16, 32}
                           || 4 * Value(Paired(EncryptedZero(cipher))) < Pow256(cipher.size - cipher.size % 2)
  {
    hide Value, Pow256, TimesX, DoubleOf, Paired;
    var size := cipher.size;
    StoreBlock(reg, size, cipher.encrypt(reg[..size]));
    DoubleSmall(Value(Paired(EncryptedZero(cipher))), size - size % 2);
    DoubleValue(EncryptedZero(cipher));
    supported := Subkey(reg, size, size, EncryptedZero(cipher));
    if !supported {
      return;
    }
    StoreBlock(reg, 2 * size, reg[size..2 * size]);
    assert reg[size..2 * size] == K1(cipher);
    supported := Subkey(reg, 2 * size, size, K1(cipher));
    assert reg[2 * size..2 * size + size] == reg[2 * size..];
    assert supported ==> reg[size..2 * size] == K1(cipher);
  }

  lemma DoubleSmall(v: nat, length: nat)
    ensures 2 * v < Pow256(length) ==> TimesX(v, length) == 2 * v
  {
  }

  method StoreBlock(a: array<byte>, at: nat, s: seq<byte>)
    requires at + |s| <= a.Length
    modifies a
    ensures a[at..at + |s|] == s && a[..at] == old(a[..at]) && a[at + |s|..] == old(a[at + |s|..])
  {
    forall i | 0 <= i < |s| {
      a[at + i] := s[i];
    }
  }

  lemma CmacIs(c: BlockCipher, message: seq<byte>, x: seq<byte>, h: seq<byte>)
    requires IsBlockCipher(c) && |x| == c.size && h == Last(c.size, message)
    requires x == Chain(c, ZeroBytes(c.size), BeforeLast(c.size, message))
    ensures CmacOf(c, message) == c.encrypt(Xor(LastBlock(c, h), x))
  {
    hide Chain, BeforeLast, Last, Xor, LastBlock;
    ChainNext(c, ZeroBytes(c.size), BeforeLast(c.size, message), LastBlock(c, h));
  }

  // What the definition comes to, in terms of the cipher and of multiplication by x only

  lemma XorZeros(s: seq<byte>)
    ensures Xor(s, ZeroBytes(|s|)) == s
  {
    hide XorByte;
    forall i | 0 <= i < |s| ensures XorByte(s[i], 0) == s[i] {
      XorWithZero(s[i]);
    }
  }

  /** A string of an even number of bytes is doubled as a whole. */
  lemma DoubleOfEven(s: seq<byte>)
    requires |s| % 2 == 0 && |s| > 0
    ensures Value(DoubleOf(s)) == TimesX(Value(s), |s|)
  {
    hide Value, TimesX, Pow256, BigEndian;
    EvenIsPaired(s);
    BigEndianOfValue(s);
    TimesXFits(Value(s), |s|);
    ValueOfBigEndian(TimesX(Value(s), |s|), |s|);
    RemainderOfSmall(TimesX(Value(s), |s|), Pow256(|s|));
    assert s[..0] + BigEndian(TimesX(Value(s), |s|), |s|) == BigEndian(TimesX(Value(s), |s|), |s|);
  }

  /** A message of one complete block: the string of value x L goes in. */
  lemma CmacOfBlock(c: BlockCipher, m: seq<byte>) returns (k: seq<byte>)
    requires IsBlockCipher(c) && c.size % 2 == 0 && |m| == c.size
    ensures |k| == c.size && Value(k) == TimesX(Value(c.encrypt(ZeroBytes(c.size))), c.size)
    ensures CmacOf(c, m) == c.encrypt(Xor(m, k))
  {
    hide Xor, Chain, Value, TimesX, DoubleOf;
    k := K1(c);
    DoubleOfEven(EncryptedZero(c));
    LastShort(c.size, m);
    ChainNone(c, ZeroBytes(c.size));
    CmacIs(c, m, ZeroBytes(c.size), m);
    XorZeros(Xor(m, k));
  }

  /** A message that is shorter, or empty: it is followed by a one bit and zeros, and the string of value x (x L) goes
      in. */
  lemma CmacOfShort(c: BlockCipher, m: seq<byte>) returns (k: seq<byte>)
    requires IsBlockCipher(c) && c.size % 2 == 0 && |m| < c.size
    ensures |k| == c.size
    ensures Value(k) == TimesX(TimesX(Value(c.encrypt(ZeroBytes(c.size))), c.size), c.size)
    ensures CmacOf(c, m) == c.encrypt(Xor(m + [0x80] + ZeroBytes(c.size - |m| - 1), k))
  {
    hide Xor, Chain, Value, TimesX, DoubleOf;
    k := K2(c);
    DoubleOfEven(EncryptedZero(c));
    DoubleOfEven(K1(c));
    LastShort(c.size, m);
    ChainNone(c, ZeroBytes(c.size));
    CmacIs(c, m, ZeroBytes(c.size), m);
    XorZeros(Xor(m + [0x80] + ZeroBytes(c.size - |m| - 1), k));
  }

  /** A first block that more follows: enciphered, it goes into the block after it, or into what is padded to one. */
  lemma CmacOfMore(c: BlockCipher, block: seq<byte>, rest: seq<byte>) returns (k: seq<byte>)
    requires IsBlockCipher(c) && c.size % 2 == 0 && |block| == c.size && |rest| > 0
    ensures |k| == c.size == |c.encrypt(block)|
    ensures Value(k) == TimesX(TimesX(Value(c.encrypt(ZeroBytes(c.size))), c.size), c.size)
    ensures |rest| >= c.size ==>
              CmacOf(c, block + rest) == CmacOf(c, Xor(rest[..c.size], c.encrypt(block)) + rest[c.size..])
    ensures |rest| < c.size ==>
              CmacOf(c, block + rest)
              == c.encrypt(Xor(Xor(rest + [0x80] + ZeroBytes(c.size - |rest| - 1), k), c.encrypt(block)))
  {
    hide Xor, Chain, Value, TimesX, DoubleOf, BeforeLast, Last, LastBlock;
    k := K2(c);
    DoubleOfEven(EncryptedZero(c));
    DoubleOfEven(K1(c));
    var x := c.encrypt(block);
    XorZeros(block);
    FirstOut(c, block, rest);
    if |rest| >= c.size {
      assert rest == rest[..c.size] + rest[c.size..];
      IntoNext(c, x, rest[..c.size], rest[c.size..]);
    } else {
      LastShort(c.size, rest);
      ChainNone(c, x);
      ShortBlock(c, rest);
    }
  }

  lemma ShortBlock(c: BlockCipher, h: seq<byte>)
    requires IsBlockCipher(c) && |h| < c.size
    ensures LastBlock(c, h) == Xor(h + [0x80] + ZeroBytes(c.size - |h| - 1), K2(c))
  {
    hide Xor;
  }

  /** The message is chained from the enciphered first block on. */
  lemma FirstOut(c: BlockCipher, block: seq<byte>, rest: seq<byte>)
    requires IsBlockCipher(c) && |block| == c.size && |rest| > 0
    ensures |c.encrypt(block)| == c.size
    ensures CmacOf(c, block + rest)
            == c.encrypt(Xor(LastBlock(c, Last(c.size, rest)), Chain(c, c.encrypt(block), BeforeLast(c.size, rest))))
  {
    hide Xor, Chain, BeforeLast, Last, LastBlock;
    var zero := ZeroBytes(c.size);
    LastStep(c.size, block, rest);
    XorZeros(block);
    ChainFirst(c, zero, block, BeforeLast(c.size, rest));
    CmacIs(c, block + rest, Chain(c, zero, BeforeLast(c.size, block + rest)), Last(c.size, block + rest));
  }

  /** Chaining from x is chaining from zeros with x mixed into the first block. */
  lemma IntoNext(c: BlockCipher, x: seq<byte>, b: seq<byte>, more: seq<byte>)
    requires IsBlockCipher(c) && |x| == c.size == |b|
    ensures CmacOf(c, Xor(b, x) + more)
            == c.encrypt(Xor(LastBlock(c, Last(c.size, b + more)), Chain(c, x, BeforeLast(c.size, b + more))))
  {
    hide Xor, Chain, BeforeLast, Last, LastBlock, CmacOf;
    if |more| > 0 {
      LastStep(c.size, b, more);
      ChainFirst(c, x, b, BeforeLast(c.size, more));
      FirstOut(c, Xor(b, x), more);
    } else {
      assert Xor(b, x) + more == Xor(b, x) && b + more == b;
      LastShort(c.size, b);
      ChainNone(c, x);
      IntoLast(c, x, b);
    }
  }

  lemma IntoLast(c: BlockCipher, x: seq<byte>, b: seq<byte>)
    requires IsBlockCipher(c) && |x| == c.size == |b|
    ensures CmacOf(c, Xor(b, x)) == c.encrypt(Xor(LastBlock(c, b), x))
  {
    hide Xor, Chain, BeforeLast, Last, LastBlock, K1;
    LastShort(c.size, Xor(b, x));
    ChainNone(c, ZeroBytes(c.size));
    CmacIs(c, Xor(b, x), ZeroBytes(c.size), Xor(b, x));
    FullBlock(c, Xor(b, x));
    FullBlock(c, b);
    XorZeros(Xor(Xor(b, x), K1(c)));
    XorStringsAssociate(b, x, K1(c));
    XorStringsCommute(x, K1(c));
    XorStringsAssociate(b, K1(c), x);
  }

  lemma FullBlock(c: BlockCipher, h: seq<byte>)
    requires IsBlockCipher(c) && |h| == c.size
    ensures LastBlock(c, h) == Xor(h, K1(c))
  {
  }

  lemma HoldsIs(size: nat, x: seq<byte>, h: seq<byte>, r: seq<byte>)
    requires Holds(size, x, h, r)
    ensures |h| <= size == |x| && r == Xor(h + ZeroBytes(size - |h|), x)
  {
  }

  lemma HoldsSizes(size: nat, x: seq<byte>, h: seq<byte>, r: seq<byte>)
    requires Holds(size, x, h, r)
    ensures |h| <= size == |x|
  {
  }

  lemma FullHolds(size: nat, x: seq<byte>, h: seq<byte>, r: seq<byte>)
    requires Holds(size, x, h, r) && |h| == size
    ensures |x| == size && r == Xor(h, x)
  {
    assert h + ZeroBytes(0) == h;
  }

  /** However the message is cut into pieces, the MAC is that of the whole message. */
  method MacOfPieces(o: CmacBase, pieces: seq<seq<byte>>, size: nat) returns (mac: seq<byte>)
    requires o.Valid() && o.message == [] && size <= o.cipher.size
    modifies o, o.reg
    ensures o.Valid() && o.message == [] && o.cipher == old(o.cipher)
    ensures mac == CmacOf(o.cipher, Flatten(pieces))[..size]
  {
    hide CmacBase.Valid, CmacOf;
    for i := 0 to |pieces|
      invariant o.Valid() && o.message == Flatten(pieces[..i]) && o.cipher == old(o.cipher) && o.reg == old(o.reg)
    {
      FlattenNext(pieces, i);
      o.Update(pieces[i]);
    }
    assert pieces[..|pieces|] == pieces;
    var ok;
    ok, mac := o.TruncatedFinal(size);
  }
}
