/** One oblivious transfer of a file part: `OT_Sender`, `OT_Recipient` and `ot`. */
module ObliviousTransfer {
  import opened Arithmetic
  import opened BitStrings
  import opened Octets
  import opened Groups
  import opened NumberTheory
  import opened PrimeOrderGroups

  const KEYLENGTH: nat := 32

  /** The hash of a group element and the counter-mode keystream of a key, both known only as functions. */
  datatype Primitives<!T(!new)> = Primitives(hash: T -> seq<byte>, keystream: (seq<byte>, nat) -> byte)

  ghost predicate HasKeyLength<T(!new)>(prims: Primitives<T>) {
    forall x :: |prims.hash(x)| >= KEYLENGTH
  }

  /** The first n bytes of the keystream of a key. */
  function KeyStream<T(!new)>(prims: Primitives<T>, key: seq<byte>, n: nat): (s: seq<byte>)
    ensures |s| == n
  {
    if n == 0 then [] else KeyStream(prims, key, n - 1) + [prims.keystream(key, n - 1)]
  }

  /** Counter mode with the first KEYLENGTH bytes of the digest; decryption is the same operation. */
  function Crypt<T(!new)>(prims: Primitives<T>, digest: seq<byte>, text: seq<byte>): (out: seq<byte>)
    requires |digest| >= KEYLENGTH
    ensures |out| == |text|
  {
    Xor(text, KeyStream(prims, digest[..KEYLENGTH], |text|))
  }

  lemma {:induction false} KeyStreamAt<T(!new)>(prims: Primitives<T>, key: seq<byte>, n: nat, i: nat)
    requires i < n
    ensures KeyStream(prims, key, n)[i] == prims.keystream(key, i)
  {
    if i < n - 1 {
      KeyStreamAt(prims, key, n - 1, i);
    }
  }

  /** Every byte is mixed with the byte of the keystream at its place. */
  ghost predicate IsMixed<T(!new)>(prims: Primitives<T>, digest: seq<byte>, text: seq<byte>, out: seq<byte>) {
    && |digest| >= 32 && |out| == |text|
    && forall i :: 0 <= i < |text| ==> out[i] == XorByte(text[i], prims.keystream(digest[..32], i))
  }

  lemma CryptMixes<T(!new)>(prims: Primitives<T>, digest: seq<byte>, text: seq<byte>)
    requires |digest| >= 32
    ensures IsMixed(prims, digest, text, Crypt(prims, digest, text))
  {
    hide XorByte, KeyStream;
    forall i | 0 <= i < |text|
      ensures Crypt(prims, digest, text)[i] == XorByte(text[i], prims.keystream(digest[..32], i))
    {
      KeyStreamAt(prims, digest[..32], |text|, i);
    }
  }

  lemma MixedOnce<T(!new)>(prims: Primitives<T>, digest: seq<byte>, text: seq<byte>, out: seq<byte>)
    requires IsMixed(prims, digest, text, out)
    ensures out == Crypt(prims, digest, text)
  {
    hide XorByte;
    CryptMixes(prims, digest, text);
  }

  lemma CryptTwice<T(!new)>(prims: Primitives<T>, digest: seq<byte>, text: seq<byte>)
    requires |digest| >= KEYLENGTH
    ensures Crypt(prims, digest, Crypt(prims, digest, text)) == text
  {
    XorTwice(text, KeyStream(prims, digest[..KEYLENGTH], |text|));
  }

  /** `encrypted_return`, without the initial vectors, which are never filled in and not used. */
  datatype Encrypted = Encrypted(messageLen: nat, ciphertext0: seq<byte>, ciphertext1: seq<byte>)

  class OtSender<T(!new)> {
    const curve: Curve<T>
    const prims: Primitives<T>
    const message0: seq<byte>
    const message1: seq<byte>
    const messageLen: nat
    const A: T
    const a: nat

    constructor (curve: Curve<T>, prims: Primitives<T>, message0: seq<byte>, message1: seq<byte>, messageLen: nat,
                 A: T, a: nat)
      ensures this.curve == curve && this.prims == prims && this.message0 == message0 && this.message1 == message1
      ensures this.messageLen == messageLen && this.A == A && this.a == a
    {
      this.curve, this.prims, this.message0, this.message1 := curve, prims, message0, message1;
      this.messageLen, this.A, this.a := messageLen, A, a;
    }

    /** The group element whose hash encrypts the message for a bit. */
    function GroupKey(B: T, bit: bool): T {
      Times(curve.group, if bit then curve.group.add(B, curve.group.inverse(A)) else B, a)
    }

    method GetEncrypted(B: T) returns (ret: Encrypted)
      requires HasKeyLength(prims) && |message0| >= messageLen && |message1| >= messageLen
      ensures ret == Encrypted(messageLen,
                               Crypt(prims, prims.hash(GroupKey(B, false)), message0[..messageLen]),
                               Crypt(prims, prims.hash(GroupKey(B, true)), message1[..messageLen]))
      ensures IsMixed(prims, prims.hash(Times(curve.group, B, a)), message0[..messageLen], ret.ciphertext0)
      ensures IsMixed(prims, prims.hash(Times(curve.group, curve.group.add(B, curve.group.inverse(A)), a)),
                      message1[..messageLen], ret.ciphertext1)
    {
      hide IsMixed;
      var k0 := Times(curve.group, B, a);
      var k1 := Times(curve.group, curve.group.add(B, curve.group.inverse(A)), a);
      var cipher0 := Crypt(prims, prims.hash(k0), message0[..messageLen]);
      var cipher1 := Crypt(prims, prims.hash(k1), message1[..messageLen]);
      CryptMixes(prims, prims.hash(k0), message0[..messageLen]);
      CryptMixes(prims, prims.hash(k1), message1[..messageLen]);
      ret := Encrypted(|cipher1|, cipher0, cipher1);
    }
  }

  class OtRecipient<T(!new)> {
    const curve: Curve<T>
    const prims: Primitives<T>
    const bit: bool
    const B: T
    const b: nat
    const messageLen: nat
    var key0: seq<byte>
    var key1: seq<byte>

    constructor (curve: Curve<T>, prims: Primitives<T>, messageLen: nat, bit: bool, B: T, b: nat)
      ensures this.curve == curve && this.prims == prims && this.messageLen == messageLen
      ensures this.bit == bit && this.B == B && this.b == b
    {
      this.curve, this.prims, this.messageLen, this.bit, this.B, this.b := curve, prims, messageLen, bit, B, b;
      key0, key1 := [], [];
    }

    method MakeKeys(A: T)
      modifies this
      ensures key0 == key1 == prims.hash(Times(curve.group, A, b))
    {
      var k := Times(curve.group, A, b);
      key0 := prims.hash(k);
      key1 := prims.hash(k);
    }

    method DecryptE(ert: Encrypted) returns (part: seq<byte>)
      requires |key0| >= KEYLENGTH && |key1| >= KEYLENGTH
      ensures part == if bit then Crypt(prims, key1, ert.ciphertext1) else Crypt(prims, key0, ert.ciphertext0)
    {
      if !bit {
        part := Crypt(prims, key0, ert.ciphertext0);
      } else {
        part := Crypt(prims, key1, ert.ciphertext1);
      }
    }
  }

  /** The commitment to a bit: g^b, multiplied by A when the bit is set. */
  function Commitment<T(!new)>(c: Curve<T>, A: T, b: nat, bit: bool): T {
    var gb := Times(c.group, c.g, b);
    if bit then c.group.add(A, gb) else gb
  }

  /** The commitment is g^(b + a * bit). */
  lemma CommitmentExponent<T(!new)>(c: Curve<T>, a: nat, b: nat, bit: bool)
    requires IsCurve(c)
    ensures Commitment(c, Times(c.group, c.g, a), b, bit) == Times(c.group, c.g, b + a * Bit(bit))
  {
    if bit {
      TimesAdd(c.group, c.g, a, b);
    }
  }

  /** The recipient's key A^b is the sender's key for the committed bit. */
  lemma KeysAgree<T(!new)>(c: Curve<T>, a: nat, b: nat, bit: bool, sender: OtSender<T>)
    requires IsCurve(c) && sender.curve == c && sender.a == a && sender.A == Times(c.group, c.g, a)
    ensures sender.GroupKey(Commitment(c, sender.A, b, bit), bit) == Times(c.group, sender.A, b)
  {
    hide Times;
    var gb, A := Times(c.group, c.g, b), sender.A;
    if bit {
      assert c.group.CommutativeAt(A, gb) && c.group.AssociativeAt(gb, A, c.group.inverse(A));
      assert c.group.InverseAt(A) && c.group.NeutralAt(gb);
    }
    TimesTimes(c.group, c.g, a, b);
    TimesTimes(c.group, c.g, b, a);
    assert a * b == b * a;
  }

  /** Whatever B the sender receives, its two keys for a part differ unless its secret is zero in Zr. */
  lemma SenderKeysDiffer<T(!new)>(c: Curve<T>, a: nat, B: T, sender: OtSender<T>)
    requires IsCurve(c) && sender.curve == c && sender.a == a && sender.A == Times(c.group, c.g, a)
    ensures sender.GroupKey(B, false) != sender.GroupKey(B, true) <==> !Divides(c.order, a)
  {
    hide Times, Divides;
    var g, k0 := c.group, Times(c.group, B, a);
    // k1 = k0 - a * a * g
    TimesDistributes(g, B, g.inverse(sender.A), a);
    TimesInverse(g, c.g, a);
    var minus := -(a as int);
    TimesTimes(g, c.g, minus, a);
    var y := Times(g, c.g, a * minus);
    assert sender.GroupKey(B, true) == g.add(k0, y);
    SquareDivides(c.order, a, minus);
    SameMultiple(c, a * minus, 0);
    TimesZero(g, c.g);
    if y == g.identity {
      assert g.NeutralAt(k0);
    } else if g.add(k0, y) == k0 {
      assert g.CommutativeAt(k0, y);
      CancelRight(g, y, k0);
    }
  }

  lemma TimesZero<T(!new)>(g: Group<T>, x: T)
    ensures Times(g, x, 0) == g.identity
  {
  }

  lemma SquareDivides(p: nat, a: nat, minus: int)
    requires IsPrime(p) && minus == 0 - a
    ensures Congruent(a * minus, 0, p) <==> Divides(p, a)
  {
    if Divides(p, a) {
      DividesProduct(p, a, minus);
    }
    if Divides(p, a * minus) {
      PrimeDividesProduct(p, a, minus);
      if Divides(p, minus) {
        DividesSum(p, 0, minus);
      }
    }
  }

  /** The transfer of one part, as `ot` runs it. */
  method Ot<T(!new)>(otS: OtSender<T>, otR: OtRecipient<T>) returns (part: seq<byte>)
    requires IsCurve(otS.curve) && HasKeyLength(otS.prims)
    requires otR.curve == otS.curve && otR.prims == otS.prims
    requires otS.A == Times(otS.curve.group, otS.curve.g, otS.a)
    requires otR.B == Commitment(otS.curve, otS.A, otR.b, otR.bit)
    requires |otS.message0| >= otS.messageLen && |otS.message1| >= otS.messageLen
    modifies otR
    ensures part == (if otR.bit then otS.message1 else otS.message0)[..otS.messageLen]
  {
    hide Times, Crypt;
    var enc := otS.GetEncrypted(otR.B);
    otR.MakeKeys(otS.A);
    KeysAgree(otS.curve, otS.a, otR.b, otR.bit, otS);
    part := otR.DecryptE(enc);
    CryptTwice(otS.prims, otS.prims.hash(otS.GroupKey(otR.B, otR.bit)),
               (if otR.bit then otS.message1 else otS.message0)[..otS.messageLen]);
  }

  /** The keystream that turns text into out, for one key; for other keys it is as before. */
  function Fitted<T(!new)>(prims: Primitives<T>, key: seq<byte>, text: seq<byte>, out: seq<byte>): Primitives<T>
    requires |text| == |out|
  {
    Primitives(prims.hash, (k: seq<byte>, i: nat) => FittedByte(prims, key, text, out, k, i))
  }

  function FittedByte<T(!new)>(prims: Primitives<T>, key: seq<byte>, text: seq<byte>, out: seq<byte>,
                               k: seq<byte>, i: nat): byte
  {
    if k == key && i < |text| && i < |out| then XorByte(text[i], out[i]) else prims.keystream(k, i)
  }

  lemma FittedMixes<T(!new)>(prims: Primitives<T>, digest: seq<byte>, text: seq<byte>, out: seq<byte>)
    requires |text| == |out| && |digest| >= 32
    ensures IsMixed(Fitted(prims, digest[..32], text, out), digest, text, out)
  {
    hide XorByte;
    forall i | 0 <= i < |text| ensures XorByte(text[i], XorByte(text[i], out[i])) == out[i] {
      XorByteBack(text[i], out[i]);
    }
  }

  lemma XorByteBack(a: byte, b: byte)
    ensures XorByte(a, XorByte(a, b)) == b
  {
    hide XorBits;
    XorCommutes(a, b);
    XorCommutes(a, XorBits(b, a));
    XorBitsTwice(b, a);
  }

  lemma FittedKeeps<T(!new)>(prims: Primitives<T>, key: seq<byte>, text: seq<byte>, out: seq<byte>,
                             digest: seq<byte>, other: seq<byte>)
    requires |text| == |out| && |digest| >= 32 && digest[..32] != key
    ensures Crypt(Fitted(prims, key, text, out), digest, other) == Crypt(prims, digest, other)
  {
    hide XorByte, Crypt;
    CryptMixes(prims, digest, other);
    MixedOnce(Fitted(prims, key, text, out), digest, other, Crypt(prims, digest, other));
  }

  /** The version that was not asked for stays hidden: what the sender sends is also what it would send with any other
      text of that length in its place, under a keystream that differs for the key of that version only. */
  method UnselectedIsHidden<T(!new)>(otS: OtSender<T>, B: T, bit: bool, other: seq<byte>)
    returns (sent: Encrypted, otherSent: Encrypted, prims: Primitives<T>)
    requires HasKeyLength(otS.prims) && |otS.message0| >= otS.messageLen && |otS.message1| >= otS.messageLen
    requires |other| == otS.messageLen
    requires otS.prims.hash(otS.GroupKey(B, false))[..32] != otS.prims.hash(otS.GroupKey(B, true))[..32]
    ensures sent == otherSent && prims.hash == otS.prims.hash
    ensures forall i: nat, key: seq<byte> :: key != prims.hash(otS.GroupKey(B, !bit))[..32] ==>
              prims.keystream(key, i) == otS.prims.keystream(key, i)
    ensures IsMixed(otS.prims, prims.hash(otS.GroupKey(B, false)), otS.message0[..otS.messageLen], sent.ciphertext0)
    ensures IsMixed(otS.prims, prims.hash(otS.GroupKey(B, true)), otS.message1[..otS.messageLen], sent.ciphertext1)
    ensures bit ==> IsMixed(prims, prims.hash(otS.GroupKey(B, false)), other, otherSent.ciphertext0)
    ensures !bit ==> IsMixed(prims, prims.hash(otS.GroupKey(B, true)), other, otherSent.ciphertext1)
  {
    hide Crypt, Times, IsMixed, XorByte;
    sent := otS.GetEncrypted(B);
    ghost var digest0, digest1 := otS.prims.hash(otS.GroupKey(B, false)), otS.prims.hash(otS.GroupKey(B, true));
    var key := otS.prims.hash(otS.GroupKey(B, !bit))[..32];
    var out := if bit then sent.ciphertext0 else sent.ciphertext1;
    prims := Fitted(otS.prims, key, other, out);
    var message0 := if bit then other else otS.message0;
    var message1 := if bit then otS.message1 else other;
    var otherSender := new OtSender(otS.curve, prims, message0, message1, otS.messageLen, otS.A, otS.a);
    FittedMixes(otS.prims, otS.prims.hash(otS.GroupKey(B, !bit)), other, out);
    MixedOnce(prims, otS.prims.hash(otS.GroupKey(B, !bit)), other, out);
    FittedKeeps(otS.prims, key, other, out, if bit then digest1 else digest0,
                (if bit then otS.message1 else otS.message0)[..otS.messageLen]);
    assert other[..otS.messageLen] == other;
    otherSent := otherSender.GetEncrypted(B);
  }
}
