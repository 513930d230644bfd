/** The whole NDA run: commitments, the key-consistency check, and one oblivious transfer for each bit. */
module Nda {
  import opened Arithmetic
  import opened BitStrings
  import opened Sequences
  import opened Groups
  import opened NumberTheory
  import opened Fermat
  import opened PrimeOrderGroups
  import opened ObliviousTransfer

  // Bit strings, most significant bit first

  /** The binary notation an element of Zr is dumped in. */
  function BinaryDigits(n: nat): string {
    (if n < 2 then "" else BinaryDigits(n / 2)) + (if n % 2 == 1 then "1" else "0")
  }

  function DigitBits(dump: string): seq<bool> {
    if |dump| == 0 then []
    else
      var last := dump[|dump| - 1];
      DigitBits(dump[..|dump| - 1]) + (if last == '0' then [false] else if last == '1' then [true] else [])
  }

  lemma {:induction false} DigitBitsValue(n: nat)
    ensures FromBits(DigitBits(BinaryDigits(n))) == n
  {
    var dump := BinaryDigits(n);
    var head := dump[..|dump| - 1];
    if n < 2 {
      assert head == "";
    } else {
      assert head == BinaryDigits(n / 2);
      DigitBitsValue(n / 2);
    }
    var bits := DigitBits(head);
    assert (bits + [n % 2 == 1])[..|bits|] == bits;
  }

  /** `Zr_to_bs`: reads the dump of a secret key character by character. */
  method ZrToBs(dump: string) returns (res: seq<bool>)
    ensures res == DigitBits(dump)
  {
    res := [];
    for i := 0 to |dump|
      invariant res == DigitBits(dump[..i])
    {
      assert dump[..i + 1][..i] == dump[..i];
      if dump[i] == '0' {
        res := res + [false];
      } else if dump[i] == '1' {
        res := res + [true];
      }
    }
    assert dump[..|dump|] == dump;
  }

  /** Zeros in front pad the bit string to 256 bits and keep its value. */
  method PadBits(bits: seq<bool>) returns (padded: seq<bool>)
    ensures FromBits(padded) == FromBits(bits)
    ensures |padded| == if |bits| < 256 then 256 else |bits|
  {
    padded := bits;
    while |padded| < 256
      invariant FromBits(padded) == FromBits(bits)
      invariant |padded| > 256 ==> padded == bits
      invariant |bits| <= |padded| && (|bits| < 256 ==> |padded| <= 256)
    {
      LeadingZero(padded);
      padded := [false] + padded;
    }
  }

  lemma {:induction false} LeadingZero(bits: seq<bool>)
    ensures FromBits([false] + bits) == FromBits(bits)
  {
    if |bits| == 0 {
      assert ([false] + bits)[..0] == [];
    } else {
      LeadingZero(bits[..|bits| - 1]);
      assert ([false] + bits)[..|bits|] == [false] + bits[..|bits| - 1];
    }
  }

  // Weighted sums over the parts

  /** The weight 2^i of part i as it is computed in Zr, where the exponent i is an element of Zr as well. */
  function Weight(i: nat, r: nat): (w: nat)
    requires r > 0
    ensures w < r
  {
    ZrPow(2, i, r)
  }

  /** The bit that part i commits to: the bit string is most significant first, the parts are not. */
  function PartBit(bits: seq<bool>, i: nat): bool
    requires i < |bits|
  {
    bits[|bits| - 1 - i]
  }

  /** The weighted sum of the first n committed bits. */
  function WeightedBits(bits: seq<bool>, n: nat, r: nat): nat
    requires n <= |bits| && r > 0
  {
    if n == 0 then 0 else WeightedBits(bits, n - 1, r) + Weight(n - 1, r) * Bit(PartBit(bits, n - 1))
  }

  function WeightedSecrets(bs: seq<nat>, n: nat, r: nat): nat
    requires n <= |bs| && r > 0
  {
    if n == 0 then 0 else NatSum(WeightedSecrets(bs, n - 1, r), Weight(n - 1, r) * bs[n - 1])
  }

  function NatSum(a: nat, b: int): nat
    requires b >= 0
  {
    a + b
  }

  /** The value of the last n bits. */
  function LowBits(bits: seq<bool>, n: nat): nat
    requires n <= |bits|
  {
    if n == 0 then 0 else LowBits(bits, n - 1) + Pow2(n - 1) * Bit(PartBit(bits, n - 1))
  }

  lemma {:induction false} LowBitsPrefix(bits: seq<bool>, n: nat)
    requires 0 < |bits| && n < |bits|
    ensures LowBits(bits, n + 1) == 2 * LowBits(bits[..|bits| - 1], n) + Bit(bits[|bits| - 1])
  {
    if n > 0 {
      LowBitsPrefix(bits, n - 1);
      assert PartBit(bits, n) == PartBit(bits[..|bits| - 1], n - 1);
    }
  }

  lemma {:induction false} LowBitsAll(bits: seq<bool>)
    ensures LowBits(bits, |bits|) == FromBits(bits)
  {
    if |bits| > 0 {
      LowBitsPrefix(bits, |bits| - 1);
      LowBitsAll(bits[..|bits| - 1]);
    }
  }

  lemma {:induction false} PowTwo(i: nat)
    ensures Pow(2, i) == Pow2(i)
  {
    if i > 0 {
      PowTwo(i - 1);
    }
  }

  /** As long as there are no more parts than elements of Zr, the weighted bits are the number they spell. */
  lemma {:induction false} WeightsSpellBits(bits: seq<bool>, n: nat, r: nat)
    requires n <= |bits| && n <= r && r > 0
    ensures Congruent(WeightedBits(bits, n, r), LowBits(bits, n), r)
  {
    hide Congruent;
    if n == 0 {
      CongruentReflexive(0, r);
    } else {
      WeightsSpellBits(bits, n - 1, r);
      PowTwo(n - 1);
      DivModUnique(n - 1, r, 0, n - 1);
      CongruentMod(Pow2(n - 1), r);
      var bit := Bit(PartBit(bits, n - 1));
      CongruentReflexive(bit, r);
      CongruentProduct(Weight(n - 1, r), Pow2(n - 1), bit, bit, r);
      CongruentSum(WeightedBits(bits, n - 1, r), LowBits(bits, n - 1), Weight(n - 1, r) * bit, Pow2(n - 1) * bit, r);
    }
  }

  /** n bits of which only that of part r is set. */
  function OneBit(n: nat, r: nat): (bits: seq<bool>)
    ensures |bits| == n
  {
    seq(n, i => i + r + 1 == n)
  }

  lemma {:induction false} OneBitWeighs(n: nat, r: nat, m: nat)
    requires m <= n && r < n && r > 0
    ensures WeightedBits(OneBit(n, r), m, r) == if m > r then Weight(r, r) else 0
    ensures LowBits(OneBit(n, r), m) == if m > r then Pow2(r) else 0
  {
    hide Weight, Pow2;
    if m > 0 {
      OneBitWeighs(n, r, m - 1);
      assert PartBit(OneBit(n, r), m - 1) == (m - 1 == r);
    }
  }

  /** The exponent i is itself reduced modulo the order, so with more parts than elements of Zr the weights no longer
      spell the bits: the bit of part r weighs 1, but stands for 2^r, which is 2. */
  lemma WeightsWrapAround(n: nat, r: nat)
    requires IsPrime(r) && n > r
    ensures WeightedBits(OneBit(n, r), n, r) == 1
    ensures !Congruent(WeightedBits(OneBit(n, r), n, r), FromBits(OneBit(n, r)), r)
  {
    hide Pow2, FromBits, IsPrime, WeightedBits, Congruent;
    PrimeAbove1(r);
    OneBitWeighs(n, r, n);
    FirstWeight(r);
    LowBitsAll(OneBit(n, r));
    FermatPower(2, r);
    PowTwo(r);
    OneIsNotTwo(r);
    if Congruent(1, Pow2(r), r) {
      CongruentTransitive(1, Pow2(r), 2, r);
    }
  }

  lemma PrimeAbove1(r: nat)
    requires IsPrime(r)
    ensures r > 1
  {
  }

  lemma FirstWeight(r: nat)
    requires r > 1
    ensures Weight(r, r) == 1
  {
    DivModUnique(r, r, 1, 0);
    DivModUnique(1, r, 0, 1);
    assert Pow(2, 0) == 1;
  }

  lemma OneIsNotTwo(r: nat)
    requires r > 1
    ensures !Congruent(1, 2, r)
  {
    DivModUnique(-1, r, -1, r - 1);
  }

  /** The weighted bits are the number they spell. */
  ghost predicate Spells(bits: seq<bool>, r: nat)
    requires r > 0
  {
    Congruent(WeightedBits(bits, |bits|, r), FromBits(bits), r)
  }

  /** All strings of n bits are spelled by their weights exactly if there are at most r parts. */
  lemma WeightsSpellExactly(n: nat, r: nat)
    requires IsPrime(r)
    ensures r > 0 && ((forall bits: seq<bool> | |bits| == n :: Spells(bits, r)) <==> n <= r)
  {
    PrimeAbove1(r);
    if n <= r {
      forall bits: seq<bool> | |bits| == n ensures Spells(bits, r) {
        WeightsSpellBits(bits, n, r);
        LowBitsAll(bits);
      }
    } else {
      WeightsWrapAround(n, r);
      assert !Spells(OneBit(n, r), r);
    }
  }

  // The parties

  /** The product of B_i^(2^i) over the first n commitments. */
  function WeightedProduct<T(!new)>(c: Curve<T>, Bs: seq<T>, n: nat): T
    requires n <= |Bs| && c.order > 0
  {
    if n == 0 then c.group.identity
    else c.group.add(WeightedProduct(c, Bs, n - 1), Times(c.group, Bs[n - 1], Weight(n - 1, c.order)))
  }

  class Sender<T(!new)> {
    const curve: Curve<T>
    const prims: Primitives<T>
    const secPar: nat
    const messages: seq<(seq<byte>, seq<byte>)>
    const messageLen: nat
    var a: nat
    var A: T

    constructor (curve: Curve<T>, prims: Primitives<T>, messages: seq<(seq<byte>, seq<byte>)>, messageLen: nat)
      ensures this.curve == curve && this.prims == prims && secPar == |messages|
      ensures this.messages == messages && this.messageLen == messageLen
    {
      this.curve, this.prims, this.messages, this.messageLen := curve, prims, messages, messageLen;
      secPar := |messages|;
      a, A := 0, curve.group.identity;
    }

    method InitA(random: nat)
      modifies this
      ensures a == random && A == Times(curve.group, curve.g, a)
    {
      a := random;
      A := Times(curve.group, curve.g, a);
    }

    method ProductBs(Bs: seq<T>) returns (product: T)
      requires |Bs| >= secPar && curve.order > 0
      ensures product == WeightedProduct(curve, Bs, secPar)
    {
      product := curve.group.identity;
      for i := 0 to secPar
        invariant product == WeightedProduct(curve, Bs, i)
      {
        var pw := ZrPow(2, i, curve.order);
        var toPower := Times(curve.group, Bs[i], pw);
        product := curve.group.add(product, toPower);
      }
    }

    method NewOtSender(part: nat) returns (ot: OtSender<T>)
      requires part < |messages|
      ensures fresh(ot) && ot.curve == curve && ot.prims == prims && ot.messageLen == messageLen
      ensures ot.a == a && ot.A == A && (ot.message0, ot.message1) == messages[part]
    {
      ot := new OtSender(curve, prims, messages[part].0, messages[part].1, messageLen, A, a);
    }
  }

  class Recipient<T(!new)> {
    const curve: Curve<T>
    const prims: Primitives<T>
    const bitstring: seq<bool>
    const secPar: nat
    const sk: nat
    const messageLen: nat
    var bs: seq<nat>
    var Bs: seq<T>
    var x: nat

    constructor (curve: Curve<T>, prims: Primitives<T>, sk: nat, bitstring: seq<bool>, messageLen: nat)
      ensures this.curve == curve && this.prims == prims && this.sk == sk && this.bitstring == bitstring
      ensures secPar == |bitstring| && this.messageLen == messageLen && bs == [] && Bs == []
    {
      this.curve, this.prims, this.sk, this.bitstring, this.messageLen := curve, prims, sk, bitstring, messageLen;
      secPar := |bitstring|;
      bs, Bs, x := [], [], 0;
    }

    /** Commits to the bits, the last bit of the string first. */
    method InitBArr(A: T, randoms: seq<nat>)
      requires |randoms| == secPar == |bitstring| && bs == [] && Bs == []
      modifies this
      ensures bs == randoms && |Bs| == secPar
      ensures forall i :: 0 <= i < secPar ==> Bs[i] == Commitment(curve, A, bs[i], PartBit(bitstring, i))
    {
      for i := 0 to secPar
        invariant bs == randoms[..i] && |Bs| == i
        invariant forall k :: 0 <= k < i ==> Bs[k] == Commitment(curve, A, bs[k], PartBit(bitstring, k))
      {
        var newB := Times(curve.group, curve.g, randoms[i]);
        bs := bs + [randoms[i]];
        if bitstring[secPar - 1 - i] {
          newB := curve.group.add(A, newB);
        }
        Bs := Bs + [newB];
      }
    }

    method InitX()
      requires |bs| >= secPar && curve.order > 0
      modifies `x
      ensures x == WeightedSecrets(bs, secPar, curve.order) % curve.order
    {
      hide ZrPow;
      var power := 0;
      DivModUnique(0, curve.order, 0, 0);
      for k := 0 to secPar
        invariant power == WeightedSecrets(bs, k, curve.order) % curve.order
      {
        ReducedSum(WeightedSecrets(bs, k, curve.order), Weight(k, curve.order), bs[k], curve.order);
        power := ZrAdd(power, ZrMul(ZrPow(2, k, curve.order), bs[k], curve.order), curve.order);
      }
      x := power;
    }

    method GetCb() returns (Cb: T)
      ensures Cb == Times(curve.group, curve.g, x)
    {
      Cb := Times(curve.group, curve.g, x);
    }

    method GetCs() returns (Cs: T)
      ensures Cs == Times(curve.group, curve.g, sk)
    {
      Cs := Times(curve.group, curve.g, sk);
    }

    method NewOtRecipient(part: nat) returns (ot: OtRecipient<T>)
      requires part < secPar == |bitstring| && part < |bs| && part < |Bs|
      ensures fresh(ot) && ot.curve == curve && ot.prims == prims
      ensures ot.bit == PartBit(bitstring, part) && ot.B == Bs[part] && ot.b == bs[part]
    {
      ot := new OtRecipient(curve, prims, messageLen, bitstring[(secPar - 1) - part], Bs[part], bs[part]);
    }
  }

  /** Sums may be reduced as they are formed. */
  lemma ReducedSum(s: nat, w: nat, b: nat, r: nat)
    requires r > 0
    ensures ZrAdd(s % r, ZrMul(w, b, r), r) == NatSum(s, w * b) % r
  {
    hide Divides;
    CongruentMod(s, r);
    CongruentMod(w * b, r);
    CongruentSum(s % r, s, (w * b) % r, w * b, r);
    CongruentIsSameMod(s % r + (w * b) % r, s + w * b, r);
  }

  // The key-consistency check

  /** The product of the weighted commitments is g^(X + a * C). */
  lemma {:induction false} ProductExponent<T(!new)>(c: Curve<T>, a: nat, bs: seq<nat>, Bs: seq<T>, bits: seq<bool>,
                                                    n: nat)
    requires IsCurve(c) && n <= |bits| == |bs| == |Bs|
    requires forall i :: 0 <= i < |bs| ==> Bs[i] == Commitment(c, Times(c.group, c.g, a), bs[i], PartBit(bits, i))
    ensures WeightedProduct(c, Bs, n)
         == Times(c.group, c.g, WeightedSecrets(bs, n, c.order) + a * WeightedBits(bits, n, c.order))
  {
    hide Times, Commitment, Weight;
    if n == 0 {
      TimesZero(c.group, c.g);
      assert a * 0 == 0;
    } else {
      ProductExponent(c, a, bs, Bs, bits, n - 1);
      var i, w := n - 1, Weight(n - 1, c.order);
      var bit := Bit(PartBit(bits, i));
      CommitmentExponent(c, a, bs[i], PartBit(bits, i));
      TimesTimes(c.group, c.g, bs[i] + a * bit, w);
      TimesAdd(c.group, c.g, WeightedSecrets(bs, i, c.order) + a * WeightedBits(bits, i, c.order),
               w * (bs[i] + a * bit));
      WeightedTerm(WeightedSecrets(bs, i, c.order), WeightedBits(bits, i, c.order), a, w, bs[i], bit);
    }
  }

  lemma WeightedTerm(x: int, y: int, a: int, w: int, b: int, bit: int)
    ensures (x + a * y) + w * (b + a * bit) == (x + w * b) + a * (y + w * bit)
  {
    MulDistributes(b, a * bit, w);
    MulDistributes(y, w * bit, a);
    Rearrange(a, bit, w);
    Rearrange(w, bit, a);
  }

  /** g^(X + aC) = g^(X mod r) * (g^sk)^a exactly when aC and a * sk agree modulo r. */
  lemma CheckExponents<T(!new)>(c: Curve<T>, a: nat, X: nat, C: nat, sk: nat)
    requires IsCurve(c)
    ensures Times(c.group, c.g, X + a * C)
         == c.group.add(Times(c.group, c.g, X % c.order), Times(c.group, Times(c.group, c.g, sk), a))
       <==> Congruent(a * C, a * sk, c.order)
  {
    hide Times, Divides;
    CongruentMod(X, c.order);
    SameMultiple(c, X % c.order, X);
    TimesTimes(c.group, c.g, sk, a);
    TimesAdd(c.group, c.g, X, a * sk);
    SameMultiple(c, X + a * C, X + a * sk);
    assert (X + a * C) - (X + a * sk) == a * C - a * sk;
  }

  /** With a secret that is not zero in Zr, the check speaks about the key itself. */
  lemma SecretCancels(a: nat, C: nat, sk: nat, r: nat)
    requires IsPrime(r) && !Divides(r, a)
    ensures Congruent(a * C, a * sk, r) <==> Congruent(C, sk, r)
  {
    MulDistributes(C, -(sk as int), a);
    assert a * C - a * sk == a * (C - sk);
    if Divides(r, a * (C - sk)) {
      PrimeDividesProduct(r, a, C - sk);
    }
    if Divides(r, C - sk) {
      DividesProduct(r, C - sk, a);
    }
  }

  /** The check passes exactly when the committed bits spell the key. */
  lemma CheckMeansKey(a: nat, bits: seq<bool>, sk: nat, r: nat)
    requires IsPrime(r) && !Divides(r, a) && |bits| <= r
    ensures Congruent(a * WeightedBits(bits, |bits|, r), a * sk, r) <==> Congruent(FromBits(bits), sk, r)
  {
    assert r > 0;
    hide Divides, IsPrime;
    var C := WeightedBits(bits, |bits|, r);
    SecretCancels(a, C, sk, r);
    WeightsSpellBits(bits, |bits|, r);
    LowBitsAll(bits);
    CongruentSymmetric(C, FromBits(bits), r);
    if Congruent(C, sk, r) {
      CongruentTransitive(FromBits(bits), C, sk, r);
    }
    if Congruent(FromBits(bits), sk, r) {
      CongruentTransitive(C, FromBits(bits), sk, r);
    }
  }

  /** The check on these bits and this key says whether the bits have the value of the key. */
  ghost predicate CheckIsRight(a: nat, bits: seq<bool>, sk: nat, r: nat)
    requires r > 0
  {
    Congruent(a * WeightedBits(bits, |bits|, r), a * sk, r) <==> Congruent(FromBits(bits), sk, r)
  }

  /** For every number of parts and every secret: the check is right for all bits and keys exactly if the secret is
      not zero in Zr and there are at most r parts. */
  lemma CheckIsRightExactly(a: nat, n: nat, r: nat)
    requires IsPrime(r)
    ensures r > 0
    ensures (forall bits: seq<bool>, sk: nat | |bits| == n :: CheckIsRight(a, bits, sk, r))
            <==> !Divides(r, a) && n <= r
  {
    PrimeAbove1(r);
    if Divides(r, a) {
      ZeroSecretAcceptsAll(a, n, r);
    } else if n <= r {
      forall bits: seq<bool>, sk: nat | |bits| == n ensures CheckIsRight(a, bits, sk, r) {
        CheckMeansKey(a, bits, sk, r);
      }
    } else {
      WrongBitsAccepted(a, n, r);
    }
  }

  /** With a secret that is zero in Zr, the check accepts zero bits for the key 1. */
  lemma ZeroSecretAcceptsAll(a: nat, n: nat, r: nat)
    requires r > 1 && Divides(r, a)
    ensures !CheckIsRight(a, Zeros(n), 1, r)
  {
    hide Divides;
    var C: int := WeightedBits(Zeros(n), n, r);
    DividesProduct(r, a, C - 1);
    assert a * C - a * 1 == a * (C - 1);
    ZerosSpellZero(n);
    ZeroIsNotOne(r);
  }

  lemma {:induction false} ZerosSpellZero(n: nat)
    ensures FromBits(Zeros(n)) == 0
  {
    if n > 0 {
      ZerosSpellZero(n - 1);
      assert Zeros(n)[..n - 1] == Zeros(n - 1);
    }
  }

  lemma ZeroIsNotOne(r: nat)
    requires r > 1
    ensures !Congruent(0, 1, r)
  {
    DivModUnique(-1, r, -1, r - 1);
  }

  /** With more parts than elements of Zr, the check accepts wrong bits for the key 1. */
  lemma WrongBitsAccepted(a: nat, n: nat, r: nat)
    requires IsPrime(r) && n > r
    ensures r > 0 && !CheckIsRight(a, OneBit(n, r), 1, r)
  {
    PrimeAbove1(r);
    hide IsPrime, Congruent, WeightedBits, FromBits;
    WeightsWrapAround(n, r);
    CongruentReflexive(a * 1, r);
    if Congruent(FromBits(OneBit(n, r)), 1, r) {
      CongruentSymmetric(FromBits(OneBit(n, r)), 1, r);
    }
  }

  // The protocol

  /** The version of part i that its bit selects. */
  function Selected(messages: seq<(seq<byte>, seq<byte>)>, bits: seq<bool>, messageLen: nat, i: nat): seq<byte>
    requires i < |messages| == |bits| && |messages[i].0| >= messageLen && |messages[i].1| >= messageLen
  {
    (if PartBit(bits, i) then messages[i].1 else messages[i].0)[..messageLen]
  }

  ghost predicate LongEnough(messages: seq<(seq<byte>, seq<byte>)>, messageLen: nat) {
    forall i :: 0 <= i < |messages| ==> |messages[i].0| >= messageLen && |messages[i].1| >= messageLen
  }

  /** The run for any bits the recipient commits to: None when the check stops the transfer. */
  method RunNda<T(==, !new)>(curve: Curve<T>, prims: Primitives<T>, sk: nat, bits: seq<bool>,
                         messages: seq<(seq<byte>, seq<byte>)>, messageLen: nat, randomA: nat, randomBs: seq<nat>)
    returns (outcome: Option<seq<seq<byte>>>)
    requires IsCurve(curve) && HasKeyLength(prims)
    requires |messages| == |bits| == |randomBs| && LongEnough(messages, messageLen)
    ensures outcome.Some?
       <==> Congruent(randomA * WeightedBits(bits, |bits|, curve.order), randomA * sk, curve.order)
    ensures !Divides(curve.order, randomA) && |bits| <= curve.order ==>
              (outcome.Some? <==> Congruent(FromBits(bits), sk, curve.order))
    ensures outcome.Some? ==> |outcome.value| == |bits|
    ensures outcome.Some? ==>
              forall i :: 0 <= i < |bits| ==> outcome.value[i] == Selected(messages, bits, messageLen, i)
    ensures outcome.Some? ==>
              forall i :: 0 <= i < |bits| ==>
                outcome.value[i] == (if bits[|bits| - 1 - i] then messages[i].1 else messages[i].0)[..messageLen]
  {
    assert curve.order > 0;
    hide *;
    var s := new Sender(curve, prims, messages, messageLen);
    var r := new Recipient(curve, prims, sk, bits, messageLen);
    s.InitA(randomA);
    r.InitBArr(s.A, randomBs);
    assert HasCommitted(s, r) by { Committed(s, r); }
    r.InitX();
    var ok := CheckKey(s, r);
    if !Divides(curve.order, randomA) && |bits| <= curve.order {
      CheckMeansKey(randomA, bits, sk, curve.order);
    }
    if !ok {
      return None;
    }
    var result := TransferParts(s, r);
    outcome := Some(result);
  }

  /** The recipient holds a commitment to each of its bits under the sender's A. */
  ghost predicate HasCommitted<T(!new)>(s: Sender<T>, r: Recipient<T>)
    reads s, r`bs, r`Bs
  {
    && r.curve == s.curve && r.prims == s.prims
    && s.A == Times(s.curve.group, s.curve.g, s.a)
    && |s.messages| == |r.bitstring| == s.secPar == r.secPar == |r.bs| == |r.Bs|
    && forall i :: 0 <= i < r.secPar ==> r.Bs[i] == Commitment(s.curve, s.A, r.bs[i], PartBit(r.bitstring, i))
  }

  lemma Committed<T(!new)>(s: Sender<T>, r: Recipient<T>)
    requires r.curve == s.curve && r.prims == s.prims
    requires s.A == Times(s.curve.group, s.curve.g, s.a)
    requires |s.messages| == |r.bitstring| == s.secPar == r.secPar == |r.bs| == |r.Bs|
    requires forall i :: 0 <= i < r.secPar ==> r.Bs[i] == Commitment(r.curve, s.A, r.bs[i], PartBit(r.bitstring, i))
    ensures HasCommitted(s, r)
  {
  }

  /** The key-consistency check of the sender. */
  method CheckKey<T(==, !new)>(s: Sender<T>, r: Recipient<T>) returns (ok: bool)
    requires IsCurve(s.curve) && s.curve.order > 0 && HasCommitted(s, r)
    requires s.secPar == r.secPar == |r.bs| == |r.bitstring|
    requires r.x == WeightedSecrets(r.bs, r.secPar, r.curve.order) % r.curve.order
    ensures ok <==> Congruent(s.a * WeightedBits(r.bitstring, |r.bitstring|, s.curve.order), s.a * r.sk, s.curve.order)
  {
    hide Times, Divides, IsPrime, Congruent, WeightedBits, WeightedProduct, WeightedSecrets, Commitment;
    var n := |r.bitstring|;
    var Cb := r.GetCb();
    var pBs := s.ProductBs(r.Bs);
    var Cs := r.GetCs();
    ProductExponent(s.curve, s.a, r.bs, r.Bs, r.bitstring, n);
    CheckExponents(s.curve, s.a, WeightedSecrets(r.bs, n, s.curve.order), WeightedBits(r.bitstring, n, s.curve.order),
                   r.sk);
    ok := pBs == s.curve.group.add(Cb, Times(s.curve.group, Cs, s.a));
  }

  /** The transfer loop. */
  method TransferParts<T(!new)>(s: Sender<T>, r: Recipient<T>) returns (result: seq<seq<byte>>)
    requires IsCurve(s.curve) && HasKeyLength(s.prims) && HasCommitted(s, r)
    requires |s.messages| == |r.bitstring| == s.secPar && LongEnough(s.messages, s.messageLen)
    ensures |result| == s.secPar
    ensures forall i :: 0 <= i < s.secPar ==> result[i] == Selected(s.messages, r.bitstring, s.messageLen, i)
  {
    hide Times, Commitment;
    result := [];
    for i := 0 to s.secPar
      invariant |result| == i
      invariant forall k :: 0 <= k < i ==> result[k] == Selected(s.messages, r.bitstring, s.messageLen, k)
    {
      var otR := r.NewOtRecipient(i);
      var otS := s.NewOtSender(i);
      var part := Ot(otS, otR);
      result := result + [part];
    }
  }

  /** An honest run, with the bits taken from the key: the check passes and the versions delivered spell the key. */
  method RunFromKey<T(==, !new)>(curve: Curve<T>, prims: Primitives<T>, sk: nat, dump: string,
                             messages: seq<(seq<byte>, seq<byte>)>, messageLen: nat, randomA: nat, randomBs: seq<nat>)
    returns (outcome: Option<seq<seq<byte>>>, bits: seq<bool>)
    requires IsCurve(curve) && HasKeyLength(prims) && sk < curve.order && 256 <= curve.order
    requires dump == BinaryDigits(sk)
    requires |messages| == |randomBs| == (if |dump| < 256 then 256 else |dump|) && LongEnough(messages, messageLen)
    ensures FromBits(bits) == sk && |bits| == |messages|
    ensures outcome.Some? && |outcome.value| == |bits|
    ensures forall i :: 0 <= i < |bits| ==> outcome.value[i] == Selected(messages, bits, messageLen, i)
    ensures forall i :: 0 <= i < |bits| ==>
              outcome.value[i] == (if GetBit(sk, i) then messages[i].1 else messages[i].0)[..messageLen]
  {
    hide GetBit, Selected, FromBits, Congruent, WeightedBits, IsCurve;
    var unpadded := ZrToBs(dump);
    DigitBitsValue(sk);
    DigitBitsLength(sk);
    bits := PadBits(unpadded);
    KeyPassesCheck(bits, randomA, sk, curve.order);
    BitsOfKey(bits, sk);
    outcome := RunNda(curve, prims, sk, bits, messages, messageLen, randomA, randomBs);
  }

  lemma BitsOfKey(bits: seq<bool>, sk: nat)
    requires FromBits(bits) == sk
    ensures forall i :: 0 <= i < |bits| ==> bits[|bits| - 1 - i] == GetBit(sk, i)
  {
    hide GetBit, FromBits;
    forall i | 0 <= i < |bits| ensures bits[|bits| - 1 - i] == GetBit(sk, i) {
      FromBitsAt(bits, i);
    }
  }

  lemma {:induction false} DigitBitsLength(n: nat)
    ensures |DigitBits(BinaryDigits(n))| == |BinaryDigits(n)| <= n + 1
  {
    var dump := BinaryDigits(n);
    var head := dump[..|dump| - 1];
    if n < 2 {
      assert head == "";
    } else {
      assert head == BinaryDigits(n / 2);
      DigitBitsLength(n / 2);
    }
  }

  lemma KeyPassesCheck(bits: seq<bool>, a: nat, sk: nat, r: nat)
    requires r > 0 && |bits| <= r && FromBits(bits) == sk
    ensures Congruent(a * WeightedBits(bits, |bits|, r), a * sk, r)
  {
    WeightsSpellBits(bits, |bits|, r);
    LowBitsAll(bits);
    CongruentReflexive(a, r);
    CongruentProduct(a, a, WeightedBits(bits, |bits|, r), sk, r);
  }
}
