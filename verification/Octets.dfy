/** Strings of bytes: exclusive or, zero padding and big-endian numbers. */
module Octets {
  import opened Arithmetic
  import opened BitStrings

  /** Bitwise exclusive or. */
  function XorBits(a: nat, b: nat): nat {
    if a == 0 && b == 0 then 0 else 2 * XorBits(a / 2, b / 2) + (a + b) % 2
  }

  lemma {:induction false} XorBounded(a: nat, b: nat, n: nat)
    requires a < Pow2(n) && b < Pow2(n)
    ensures XorBits(a, b) < Pow2(n)
  {
    if n > 0 && (a > 0 || b > 0) {
      XorBounded(a / 2, b / 2, n - 1);
    }
  }

  lemma {:induction false} XorBitsTwice(a: nat, k: nat)
    ensures XorBits(XorBits(a, k), k) == a
  {
    hide XorBits;
    if a == 0 && k == 0 {
      XorHalves(0, 0);
      XorZero(0);
    }
    if a > 0 || k > 0 {
      XorBitsTwice(a / 2, k / 2);
      XorHalves(a, k);
      XorHalves(XorBits(a, k), k);
      assert a == 2 * (a / 2) + a % 2;
    }
  }

  lemma XorHalves(a: nat, b: nat)
    ensures XorBits(a, b) / 2 == XorBits(a / 2, b / 2) && XorBits(a, b) % 2 == (a + b) % 2
    ensures XorBits(a, b) == 2 * XorBits(a / 2, b / 2) + (a + b) % 2
  {
  }

  lemma {:induction false} XorZero(a: nat)
    ensures XorBits(a, 0) == a == XorBits(0, a)
  {
    if a > 0 {
      XorZero(a / 2);
    }
  }

  lemma {:induction false} XorCommutes(a: nat, b: nat)
    ensures XorBits(a, b) == XorBits(b, a)
  {
    hide XorBits;
    XorHalves(a, b);
    XorHalves(b, a);
    if a > 0 || b > 0 {
      XorCommutes(a / 2, b / 2);
    }
  }

  lemma {:induction false} XorAssociates(a: nat, b: nat, c: nat)
    ensures XorBits(XorBits(a, b), c) == XorBits(a, XorBits(b, c))
  {
    hide XorBits;
    XorHalves(a, b);
    XorHalves(b, c);
    XorHalves(XorBits(a, b), c);
    XorHalves(a, XorBits(b, c));
    ParityAssociates(a, b, c, XorBits(a, b), XorBits(b, c));
    if a > 0 || b > 0 || c > 0 {
      XorAssociates(a / 2, b / 2, c / 2);
    }
  }

  lemma ParityAssociates(a: nat, b: nat, c: nat, x: nat, y: nat)
    requires x % 2 == (a + b) % 2 && y % 2 == (b + c) % 2
    ensures (x + c) % 2 == (a + y) % 2
  {
  }

  function XorByte(a: byte, b: byte): byte {
    XorBounded(a, b, 8);
    assert Pow2(4) == 16;
    XorBits(a, b)
  }

  function LowByte(x: nat): byte {
    x % 256
  }

  /** a xor as much of b as a is long. */
  function Xor(a: seq<byte>, b: seq<byte>): (r: seq<byte>)
    requires |a| <= |b|
    ensures |r| == |a|
    ensures forall i :: 0 <= i < |a| ==> r[i] == XorByte(a[i], b[i])
  {
    seq(|a|, i requires 0 <= i < |a| => XorByte(a[i], b[i]))
  }

  function ZeroBytes(n: nat): (z: seq<byte>)
    ensures |z| == n && forall i :: 0 <= i < n ==> z[i] == 0
  {
    seq(n, _ => 0)
  }

  /** The low n bytes of x, most significant byte first. */
  function BigEndian(x: nat, n: nat): (s: seq<byte>)
    ensures |s| == n
  {
    if n == 0 then [] else BigEndian(x / 256, n - 1) + [LowByte(x)]
  }

  function Value(s: seq<byte>): nat {
    if |s| == 0 then 0 else Value(s[..|s| - 1]) * 256 + s[|s| - 1]
  }

  lemma XorTwice(a: seq<byte>, k: seq<byte>)
    requires |a| <= |k|
    ensures Xor(Xor(a, k), k) == a
  {
    forall i | 0 <= i < |a| ensures Xor(Xor(a, k), k)[i] == a[i] {
      XorBitsTwice(a[i], k[i]);
    }
  }

  lemma XorStringsCommute(a: seq<byte>, b: seq<byte>)
    requires |a| == |b|
    ensures Xor(a, b) == Xor(b, a)
  {
    forall i | 0 <= i < |a| ensures Xor(a, b)[i] == Xor(b, a)[i] {
      XorCommutes(a[i], b[i]);
    }
  }

  lemma XorStringsAssociate(a: seq<byte>, b: seq<byte>, c: seq<byte>)
    requires |a| == |b| == |c|
    ensures Xor(Xor(a, b), c) == Xor(a, Xor(b, c))
  {
    forall i | 0 <= i < |a| ensures Xor(Xor(a, b), c)[i] == Xor(a, Xor(b, c))[i] {
      XorAssociates(a[i], b[i], c[i]);
    }
  }

  lemma XorJoins(a: seq<byte>, b: seq<byte>, j: seq<byte>, k: seq<byte>)
    requires |a| == |j| && |b| <= |k|
    ensures Xor(a + b, j + k) == Xor(a, j) + Xor(b, k)
  {
  }

  /** Multiples of powers of 256. */
  function Pow256(n: nat): (p: nat)
    ensures p > 0
  {
    if n == 0 then 1 else 256 * Pow256(n - 1)
  }

  lemma {:induction false} ValueOfBigEndian(x: nat, n: nat)
    ensures Value(BigEndian(x, n)) == x % Pow256(n)
  {
    hide Value, LowByte;
    if n > 0 {
      ValueOfBigEndian(x / 256, n - 1);
      SplitRemainder(x, Pow256(n - 1));
      ValueAppend(BigEndian(x / 256, n - 1), LowByte(x));
      LowByteIs(x);
    } else {
      DivModUnique(x, 1, x, 0);
      ValueOfNothing();
    }
  }

  lemma LowByteIs(x: nat)
    ensures LowByte(x) == x % 256
  {
  }

  lemma ValueOfNothing()
    ensures Value([]) == 0
  {
  }

  lemma ValueAppend(s: seq<byte>, b: byte)
    ensures Value(s + [b]) == Value(s) * 256 + b
  {
    assert (s + [b])[..|s|] == s;
  }

  lemma {:induction false} ValuePrepend(b: byte, s: seq<byte>)
    ensures b * Pow256(|s|) >= 0 && Value([b] + s) == b * Pow256(|s|) + Value(s)
  {
    if |s| == 0 {
      ValueOfNothing();
      ValueAppend([], b);
      assert [b] + s == [] + [b];
      assert b * 1 == b;
    } else {
      var m := |s| - 1;
      ValuePrepend(b, s[..m]);
      assert [b] + s == ([b] + s[..m]) + [s[m]] && s == s[..m] + [s[m]];
      ValueAppend([b] + s[..m], s[m]);
      ValueAppend(s[..m], s[m]);
      Scale(b, Pow256(m));
    }
  }

  lemma Scale(b: nat, p: nat)
    ensures b * p * 256 == b * (256 * p)
  {
  }

  lemma SplitRemainder(x: nat, p: nat)
    requires p > 0
    ensures x % (256 * p) == ((x / 256) % p) * 256 + x % 256
  {
    var q, r := (x / 256) / p, (x / 256) % p;
    QuotientOf(x / 256, p);
    var m := 256 * p;
    assert x == 256 * (q * p + r) + x % 256;
    MulDistributes(q * p, r, 256);
    assert (q * p) * 256 == q * m;
    DivModUnique(x, m, q, 256 * r + x % 256);
  }

  lemma {:induction false} BigEndianOfValue(s: seq<byte>)
    ensures Value(s) < Pow256(|s|) && BigEndian(Value(s), |s|) == s
  {
    if |s| > 0 {
      var m := |s| - 1;
      var b := s[m];
      BigEndianOfValue(s[..m]);
      assert Value(s) / 256 == Value(s[..m]) && Value(s) % 256 == b;
      assert s == s[..m] + [s[m]];
    }
  }

  /** The low bytes of a number are the end of its notation. */
  lemma {:induction false} BigEndianSuffix(x: nat, n: nat, k: nat)
    requires k <= n
    ensures BigEndian(x, n)[n - k..] == BigEndian(x, k)
  {
    if k > 0 {
      BigEndianSuffix(x / 256, n - 1, k - 1);
      assert BigEndian(x, n)[n - k..] == BigEndian(x / 256, n - 1)[n - k..] + [LowByte(x)];
    }
  }

  lemma BigEndianInjective(x: nat, y: nat, n: nat)
    requires x < Pow256(n) && y < Pow256(n) && BigEndian(x, n) == BigEndian(y, n)
    ensures x == y
  {
    ValueOfBigEndian(x, n);
    ValueOfBigEndian(y, n);
    DivModUnique(x, Pow256(n), 0, x);
    DivModUnique(y, Pow256(n), 0, y);
  }

  /** The byte at place i. */
  lemma {:induction false} BigEndianAt(x: nat, n: nat, i: nat)
    requires i < n
    ensures BigEndian(x, n)[i] == (x / Pow256(n - 1 - i)) % 256
  {
    if i < n - 1 {
      BigEndianAt(x / 256, n - 1, i);
      DivideTwice(x, 256, Pow256(n - 2 - i));
    }
  }

  lemma DivideTwice(x: nat, a: nat, b: nat)
    requires a > 0 && b > 0
    ensures a * b > 0 && x / a / b == x / (a * b)
  {
    var q, r := x / a, x % a;
    QuotientOf(x, a);
    QuotientOf(q, b);
    var u, v := q / b, q % b;
    MulStrict(0, b, a);
    MulDistributes(u * b, v, a);
    MulAssociates(u, b, a);
    MulStrict(v, b, a);
    MulStrict(v + 1, b, a);
    MulDistributes(v, 1, a);
    DivModUnique(x, a * b, u, v * a + r);
  }

  /** Every bit of an exclusive or. */
  lemma {:induction false} BitOfXor(a: nat, b: nat, k: nat)
    ensures GetBit(XorBits(a, b), k) == (GetBit(a, k) != GetBit(b, k))
  {
    hide XorBits;
    XorHalves(a, b);
    if k > 0 {
      BitOfXor(a / 2, b / 2, k - 1);
      ShrHead(XorBits(a, b), k);
      ShrHead(a, k);
      ShrHead(b, k);
    }
  }
}
