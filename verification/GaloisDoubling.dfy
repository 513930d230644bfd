/** `MulU` of the CMAC code: multiplication by x of polynomials over GF(2), most significant byte first. */
module GaloisDoubling {
  import opened Arithmetic
  import opened BitStrings
  import opened Octets

  /** The polynomial that the products are reduced by, without its leading term. */
  function Tail(length: nat): nat {
    if length == 8 then 0x1b else if length == 16 then 0x87 else if length == 32 then 0x423 else 0
  }

  /** x times a polynomial of degree less than 8 * length, reduced. */
  function TimesX(v: nat, length: nat): nat {
    if 2 * v < Pow256(length) then 2 * v else XorBits(2 * v, Pow256(length) + Tail(length))
  }

  /** The bytes that the doubling reaches, in pairs from the end: all but the first of an odd number. */
  function Paired(s: seq<byte>): (t: seq<byte>)
    ensures |t| == |s| - |s| % 2
  {
    s[|s| % 2..]
  }

  lemma PairedPart(s: seq<byte>, from: nat, length: nat)
    requires from + length <= |s|
    ensures Paired(s[from..from + length]) == s[from + length % 2..from + length]
  {
  }

  /** The product with x is again a polynomial of degree less than 8 * length. */
  lemma TimesXFits(v: nat, length: nat)
    requires v < Pow256(length) && length > 0
    ensures TimesX(v, length) < Pow256(length)
  {
    hide XorBits, Pow256, Tail;
    if 2 * v >= Pow256(length) {
      TailBelow(length);
      ReduceTop(2 * v, length);
      Pow256IsPow2(length);
      XorBounded(2 * v - Pow256(length), Tail(length), 8 * length);
    }
  }

  lemma TailBelow(length: nat)
    requires length > 0
    ensures Tail(length) < Pow256(length)
  {
    assert Pow256(length) == 256 * Pow256(length - 1);
    if length in {8, 16, 32} {
      assert Pow256(length - 1) == 256 * Pow256(length - 2);
    }
  }

  // Values of byte strings

  /** s' and the carry are twice s. */
  ghost predicate Doubled(s: seq<byte>, s': seq<byte>, carry: nat) {
    |s| == |s'| && carry <= 1 && Value(s') + carry * Pow256(|s|) == 2 * Value(s)
  }

  /** One byte of a doubling that has come from the end of the string. */
  lemma DoubleByte(b: byte, c: nat, s: seq<byte>, s': seq<byte>)
    requires Doubled(s, s', c)
    ensures Doubled([b] + s, [(b + b + c) % 256] + s', b / 128)
  {
    hide Value, Pow256;
    ValuePrepend(b, s);
    ValuePrepend((b + b + c) % 256, s');
    Pow256Unfolds(|s|);
    CarryOn(b, c, (b + b + c) % 256, b / 128, Pow256(|s|), Value(s), Value(s'));
  }

  lemma Pow256Unfolds(n: nat)
    ensures Pow256(n + 1) == 256 * Pow256(n)
  {
  }

  lemma CarryOn(b: nat, c: nat, b': nat, c': nat, p: nat, v: nat, v': nat)
    requires 2 * b + c == 256 * c' + b' && v' + c * p == 2 * v
    ensures b' * p + v' + c' * (256 * p) == 2 * (b * p + v)
  {
    assert (256 * c' + b') * p == (2 * b + c) * p;
    assert c' * (256 * p) == (256 * c') * p;
    MulDistributes(256 * c', b', p);
    MulDistributes(2 * b, c, p);
    assert (2 * b) * p == 2 * (b * p);
  }

  // Exclusive or of numbers cut in two

  lemma {:induction false} XorParts(q: nat, b: nat, u: nat, c: nat, k: nat)
    requires b < Pow2(k) && c < Pow2(k)
    ensures q * Pow2(k) >= 0 && u * Pow2(k) >= 0
    ensures XorBits(q * Pow2(k) + b, u * Pow2(k) + c) == XorBits(q, u) * Pow2(k) + XorBits(b, c)
  {
    hide XorBits, Pow2;
    Pow2Unfolds(k);
    if k == 0 {
      XorZero(0);
      assert q * 1 == q && u * 1 == u && XorBits(q, u) * 1 == XorBits(q, u);
    } else {
      XorParts(q, b / 2, u, c / 2, k - 1);
      HalfOfSum(q, b, k);
      HalfOfSum(u, c, k);
      XorHalves(q * Pow2(k) + b, u * Pow2(k) + c);
      XorHalves(b, c);
      Double(XorBits(q, u), Pow2(k - 1));
      SameParity(q * Pow2(k) + b, u * Pow2(k) + c, b, c);
    }
  }

  lemma Pow2Unfolds(k: nat)
    ensures Pow2(k) == if k == 0 then 1 else 2 * Pow2(k - 1)
  {
  }

  lemma SameParity(x: nat, y: nat, b: nat, c: nat)
    requires x % 2 == b % 2 && y % 2 == c % 2
    ensures (x + y) % 2 == (b + c) % 2
  {
  }

  lemma Double(a: nat, p: nat)
    ensures a * (2 * p) == 2 * (a * p)
  {
  }

  lemma HalfOfSum(q: nat, b: nat, k: nat)
    requires k > 0
    ensures q * Pow2(k) >= 0 && q * Pow2(k - 1) >= 0
    ensures (q * Pow2(k) + b) / 2 == q * Pow2(k - 1) + b / 2 && (q * Pow2(k) + b) % 2 == b % 2
  {
    Double(q, Pow2(k - 1));
  }

  lemma XorLastByte(q: nat, b: byte, u: nat, c: byte)
    ensures XorBits(q * 256 + b, u * 256 + c) == XorBits(q, u) * 256 + XorByte(b, c)
  {
    hide XorBits;
    assert Pow2(4) == 16;
    XorParts(q, b, u, c, 8);
  }

  /** Exclusive or into the last two bytes. */
  lemma XorIntoLast(s: seq<byte>, x: byte, y: byte)
    requires |s| >= 2
    ensures var n := |s|;
            Value(s[n - 2 := XorByte(s[n - 2], x)][n - 1 := XorByte(s[n - 1], y)])
            == XorBits(Value(s), x * 256 + y)
  {
    hide Value, XorBits;
    var n := |s|;
    var r := s[n - 2 := XorByte(s[n - 2], x)][n - 1 := XorByte(s[n - 1], y)];
    assert s == s[..n - 2] + [s[n - 2]] + [s[n - 1]];
    assert r == s[..n - 2] + [XorByte(s[n - 2], x)] + [XorByte(s[n - 1], y)];
    ValueAppend(s[..n - 2], s[n - 2]);
    ValueAppend(s[..n - 2] + [s[n - 2]], s[n - 1]);
    ValueAppend(s[..n - 2], XorByte(s[n - 2], x));
    ValueAppend(s[..n - 2] + [XorByte(s[n - 2], x)], XorByte(s[n - 1], y));
    XorLastByte(Value(s[..n - 2]), s[n - 2], 0, x);
    XorLastByte(Value(s[..n - 2] + [s[n - 2]]), s[n - 1], x, y);
    XorZero(Value(s[..n - 2]));
  }

  /** Exclusive or with the bit that the doubling has carried out takes it away. */
  lemma ReduceTop(v: nat, length: nat)
    requires Pow256(length) <= v < 2 * Pow256(length) && Tail(length) < Pow256(length)
    ensures XorBits(v, Pow256(length) + Tail(length)) == XorBits(v - Pow256(length), Tail(length))
  {
    hide XorBits, Pow2, Pow256, Tail;
    Pow256IsPow2(length);
    var p: nat, r: nat := Pow256(length), v - Pow256(length);
    XorParts(1, r, 1, Tail(length), 8 * length);
    XorHalves(1, 1);
    XorZero(0);
    assert 1 * p + r == v && 1 * p + Tail(length) == p + Tail(length) && 0 * p == 0;
  }

  lemma {:induction false} Pow256IsPow2(n: nat)
    ensures Pow256(n) == Pow2(8 * n)
  {
    if n > 0 {
      Pow256IsPow2(n - 1);
      assert Pow2(8) == 256 by { assert Pow2(4) == 16; }
      Pow2Add(8, 8 * n - 8);
    }
  }

  // The code

  /** Doubles the bytes i and i - 1, with the carry from the byte after them. */
  method ShiftPair(k: array<byte>, i: nat, ghost end: nat, carry0: nat, ghost was: seq<byte>) returns (carry: nat)
    requires 1 <= i < end <= k.Length == |was| && carry0 <= 1 && k[i] == was[i] && k[i - 1] == was[i - 1]
    requires Doubled(was[i + 1..end], k[i + 1..end], carry0)
    modifies k
    ensures carry <= 1 && Doubled(was[i - 1..end], k[i - 1..end], carry)
    ensures forall n :: 0 <= n < k.Length && n != i && n != i - 1 ==> k[n] == old(k[n])
  {
    hide Doubled;
    ghost var s, s' := was[i + 1..end], k[i + 1..end];
    ghost var b, a := k[i], k[i - 1];
    ghost var b': byte, a': byte := (b + b + carry0) % 256, (a + a + b / 128) % 256;
    DoubleByte(b, carry0, s, s');
    DoubleByte(a, b / 128, [b] + s, [b'] + s');
    var carry2: nat := k[i] / 128;
    k[i] := (k[i] + k[i] + carry0) % 256;
    carry := k[i - 1] / 128;
    k[i - 1] := (k[i - 1] + k[i - 1] + carry2) % 256;
    assert was[i - 1..end] == [a] + ([b] + s);
    assert k[i + 1..end] == s';
    assert k[i - 1..end] == [a'] + ([b'] + s');
  }

  /** Doubles the bytes in place, in pairs; the bit carried out is given back. */
  method Shift(k: array<byte>, from: nat, length: nat) returns (carry: nat)
    requires from + length <= k.Length
    modifies k
    ensures carry <= 1 && Doubled(Paired(old(k[from..from + length])), Paired(k[from..from + length]), carry)
    ensures k[..from + length % 2] == old(k[..from + length % 2]) && k[from + length..] == old(k[from + length..])
  {
    hide Doubled, Paired;
    carry := 0;
    var i: int := length - 1;
    ghost var end := from + length;
    ghost var was := k[..];
    DoubledNothing();
    assert k[end..end] == [] && was[end..end] == [];
    while i >= 1
      invariant length % 2 - 1 <= i < length && (i + 1 - length) % 2 == 0 && carry <= 1
      invariant Doubled(was[from + i + 1..end], k[from + i + 1..end], carry)
      invariant forall n :: 0 <= n < from + i + 1 || end <= n < k.Length ==> k[n] == was[n]
    {
      carry := ShiftPair(k, from + i, end, carry, was);
      i := i - 2;
    }
    PairedPart(was, from, length);
    PairedPart(k[..], from, length);
  }

  lemma DoubledMeans(s: seq<byte>, s': seq<byte>, carry: nat)
    requires Doubled(s, s', carry)
    ensures carry == 0 ==> Value(s') == 2 * Value(s)
    ensures carry > 0 ==> Value(s') + Pow256(|s|) == 2 * Value(s)
  {
    hide Value, Pow256;
  }

  lemma DoubledNothing()
    ensures Doubled([], [], 0)
  {
  }

  /** Exclusive or of a block of a supported length with the tail of the modulus. */
  method AddTail(k: array<byte>, from: nat, length: nat)
    requires from + length <= k.Length && length in {8, 16, 32}
    modifies k
    ensures Value(k[from..from + length]) == XorBits(Value(old(k[from..from + length])), Tail(length))
    ensures k[..from] == old(k[..from]) && k[from + length..] == old(k[from + length..])
  {
    hide Value, XorBits, XorByte;
    ghost var start := k[from..from + length];
    ghost var x: byte, y: byte;
    if length == 8 {
      k[from + 7] := XorByte(k[from + 7], 0x1b);
      x, y := 0, 0x1b;
      XorNothing(start[6]);
    } else if length == 16 {
      k[from + 15] := XorByte(k[from + 15], 0x87);
      x, y := 0, 0x87;
      XorNothing(start[14]);
    } else {
      k[from + 30] := XorByte(k[from + 30], 4);
      k[from + 31] := XorByte(k[from + 31], 0x23);
      x, y := 4, 0x23;
    }
    XorIntoLast(start, x, y);
    assert k[from..from + length]
           == start[length - 2 := XorByte(start[length - 2], x)][length - 1 := XorByte(start[length - 1], y)];
  }

  /** Multiplies by x, in place; without success if a bit is carried out of a block of unsupported length. */
  method MulU(k: array<byte>, from: nat, length: nat) returns (supported: bool)
    requires from + length <= k.Length
    modifies k
    ensures supported
            <==> length in {8, 16, 32} || 2 * Value(Paired(old(k[from..from + length]))) < Pow256(length - length % 2)
    ensures supported ==>
              Value(Paired(k[from..from + length]))
                == TimesX(Value(Paired(old(k[from..from + length]))), length - length % 2)
    ensures k[..from + length % 2] == old(k[..from + length % 2]) && k[from + length..] == old(k[from + length..])
  {
    hide Value, XorBits, Pow256, Doubled, Paired, Tail;
    ghost var start := Paired(k[from..from + length]);
    BigEndianOfValue(start);
    var carry := Shift(k, from, length);
    ghost var shifted := Paired(k[from..from + length]);
    DoubledMeans(start, shifted, carry);
    BigEndianOfValue(shifted);
    supported := true;
    if carry > 0 {
      if length != 8 && length != 16 && length != 32 {
        return false;
      }
      EvenIsPaired(k[from..from + length]);
      AddTail(k, from, length);
      EvenIsPaired(k[from..from + length]);
      TailBelow(length);
      ReduceTop(2 * Value(start), length);
    }
  }

  lemma EvenIsPaired(s: seq<byte>)
    ensures |s| % 2 == 0 ==> Paired(s) == s
  {
  }

  lemma XorNothing(b: byte)
    ensures XorByte(b, 0) == b
  {
    XorZero(b);
  }
}
