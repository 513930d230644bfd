/** `Adler32`. */
module Adler32 {
  import opened Arithmetic
  import opened BitStrings
  import opened Octets

  const BASE: nat := 65521

  /** `unsigned long`, where it is shortest. */
  type word32 = w: int | 0 <= w < 0x1_0000_0000

  // The sums of section 8.2 of RFC 1950, reduced at every byte

  datatype Sums = Sums(s1: nat, s2: nat)

  function AddByte(s: Sums, b: byte): Sums {
    var s1 := (s.s1 + b) % BASE;
    Sums(s1, (s.s2 + s1) % BASE)
  }

  function AddBytes(s: Sums, data: seq<byte>): Sums {
    if |data| == 0 then s else AddByte(AddBytes(s, data[..|data| - 1]), data[|data| - 1])
  }

  lemma {:induction false} AddBytesAppend(s: Sums, a: seq<byte>, b: seq<byte>)
    ensures AddBytes(s, a + b) == AddBytes(AddBytes(s, a), b)
  {
    if |b| == 0 {
      assert a + b == a;
    } else {
      AddBytesAppend(s, a, b[..|b| - 1]);
      assert (a + b)[..|a + b| - 1] == a + b[..|b| - 1];
    }
  }

  /** Sums that are reduced late. */
  ghost predicate Represents(s1: nat, s2: nat, s: Sums) {
    s1 % BASE == s.s1 && s2 % BASE == s.s2
  }

  lemma AddLate(s1: nat, s2: nat, s: Sums, b: byte)
    requires Represents(s1, s2, s)
    ensures Represents(s1 + b, s2 + (s1 + b), AddByte(s, b))
  {
    SumModulo(s1, b, BASE);
    OuterSum(s2, s1 + b, s.s2, (s.s1 + b) % BASE, BASE);
  }

  lemma OuterSum(x: nat, y: nat, u: nat, v: nat, m: nat)
    requires m > 0 && u == x % m && v == y % m
    ensures (x + y) % m == (u + v) % m
  {
    SumModulo(x, y, m);
    SumModulo(y, u, m);
  }

  lemma SumModulo(x: nat, y: nat, m: nat)
    requires m > 0
    ensures (x % m + y) % m == (x + y) % m
  {
    var q := x / m;
    assert x == q * m + x % m;
    AddMultiple(x % m + y, q, m);
  }

  class Adler {
    var s1: nat
    var s2: nat
    ghost var message: seq<byte>

    ghost predicate Valid()
      reads this
    {
      s1 < BASE && s2 < BASE && Sums(s1, s2) == AddBytes(Sums(1, 0), message)
    }

    constructor ()
      ensures Valid() && message == []
    {
      s1, s2, message := 1, 0, [];
    }

    method Reset()
      modifies this
      ensures Valid() && message == []
    {
      s1, s2, message := 1, 0, [];
    }

    /** Takes in a piece of the message. */
    method Update(input: seq<byte>)
      requires Valid()
      modifies this
      ensures Valid() && message == old(message) + input
    {
      hide AddBytes, Represents;
      ghost var start := Sums(s1, s2);
      AddNothing(start);
      SmallSums(s1, s2, start);
      var head := |input| % 8;
      var a: word32, b: word32 := Accumulate(input[..head], s1, s2, start);
      if head != 0 {
        a, b := ReduceBoth(a, b, AddBytes(start, input[..head]));
      }
      a, b := AddGroups(input, head, a, b, start);
      SmallSums(a, b, AddBytes(start, input));
      AddBytesAppend(Sums(1, 0), message, input);
      s1, s2 := a, b;
      message := message + input;
    }

    /** The first bytes of the check value: s2 and then s1, most significant byte first. */
    method TruncatedFinal(size: nat) returns (ok: bool, hash: seq<byte>)
      requires Valid()
      modifies this
      ensures ok <==> size <= 4
      ensures ok ==> Valid() && message == []
      ensures ok ==> var s := AddBytes(Sums(1, 0), old(message)); hash == BigEndian(s.s2 * 0x1_0000 + s.s1, 4)[..size]
      ensures !ok ==> Valid() && message == old(message)
    {
      hide AddBytes;
      if size > 4 {
        return false, [];
      }
      var all: seq<byte> := [(s2 / 256) % 256, s2 % 256, (s1 / 256) % 256, s1 % 256];
      FourBytes(s1, s2);
      hash := all[..size];
      Reset();
      ok := true;
    }
  }

  lemma FourBytes(s1: nat, s2: nat)
    requires s1 < 0x1_0000 && s2 < 0x1_0000
    ensures BigEndian(s2 * 0x1_0000 + s1, 4) == [(s2 / 256) % 256, s2 % 256, (s1 / 256) % 256, s1 % 256]
  {
    var v := s2 * 0x1_0000 + s1;
    assert v / 256 == s2 * 256 + s1 / 256 && v / 256 / 256 == s2;
    assert BigEndian(s2 / 256, 1) == BigEndian(s2 / 256 / 256, 0) + [LowByte(s2 / 256)];
    assert BigEndian(s2, 2) == [LowByte(s2 / 256), LowByte(s2)];
    assert BigEndian(v / 256, 3) == BigEndian(s2, 2) + [LowByte(v / 256)];
  }

  /** Sums below the base are what they represent. */
  lemma SmallSums(a: nat, b: nat, s: Sums)
    requires a < BASE && b < BASE
    ensures Represents(a, b, s) <==> s == Sums(a, b)
  {
  }

  /** Takes one multiple off s1, which is less than twice the base, and all multiples off s2. */
  method ReduceBoth(a0: word32, b0: word32, ghost s: Sums) returns (a: word32, b: word32)
    requires a0 < 2 * BASE && Represents(a0, b0, s)
    ensures a < BASE && b < BASE && Represents(a, b, s)
  {
    hide Represents;
    ReducedSums(a0, b0, s);
    a := a0;
    if a >= BASE {
      a := a - BASE;
    }
    b := b0 % BASE;
  }

  /** Adds up to eight bytes without reducing; nothing overflows. */
  method Accumulate(bytes: seq<byte>, s1: word32, s2: word32, ghost s: Sums) returns (a: word32, b: word32)
    requires |bytes| <= 8 && s1 < BASE && s2 <= 65520 + 67560 * (0x8000 - 8) && Represents(s1, s2, s)
    ensures Represents(a, b, AddBytes(s, bytes)) && a < 2 * BASE && b <= s2 + 67560 * |bytes|
    ensures |bytes| == 0 ==> a == s1 && b == s2
  {
    hide AddBytes, Represents;
    a, b := s1, s2;
    AddNothing(s);
    assert bytes[..0] == [];
    for i := 0 to |bytes|
      invariant Represents(a, b, AddBytes(s, bytes[..i]))
      invariant s1 <= a <= s1 + 255 * i && s2 <= b <= s2 + 67560 * i
      invariant i == 0 ==> a == s1 && b == s2
    {
      AddLate(a, b, AddBytes(s, bytes[..i]), bytes[i]);
      AddNext(s, bytes, i);
      a := a + bytes[i];
      b := b + a;
    }
    assert bytes[..|bytes|] == bytes;
  }

  lemma AddNothing(s: Sums)
    ensures AddBytes(s, []) == s
  {
  }

  lemma AddNext(s: Sums, bytes: seq<byte>, i: nat)
    requires i < |bytes|
    ensures AddBytes(s, bytes[..i + 1]) == AddByte(AddBytes(s, bytes[..i]), bytes[i])
  {
    assert bytes[..i + 1][..i] == bytes[..i];
  }

  /** How many bytes s2 has taken in since it was reduced, at most. */
  function Since(length: nat): (n: nat)
    ensures n <= 0x8000
  {
    if length % 0x8000 == 0 then 0 else 0x8000 - length % 0x8000
  }

  /** Adds eight bytes, then reduces s1, and s2 if it is time; so many bytes are left before and after. */
  method AddGroup(bytes: seq<byte>, length: nat, s1: word32, s2: word32, ghost s: Sums) returns (a: word32, b: word32)
    requires |bytes| == 8 && 8 <= length && length % 8 == 0
    requires s1 < BASE && s2 <= 65520 + 67560 * Since(length) && Represents(s1, s2, s)
    ensures a < BASE && b <= 65520 + 67560 * Since(length - 8) && (length == 8 ==> b < BASE)
    ensures Represents(a, b, AddBytes(s, bytes))
  {
    hide AddBytes, Represents;
    SinceGrows(length);
    a, b := Accumulate(bytes, s1, s2, s);
    ReducedSums(a, b, AddBytes(s, bytes));
    if a >= BASE {
      a := a - BASE;
    }
    if (length - 8) % 0x8000 == 0 {
      b := b % BASE;
    }
  }

  /** Adds groups of eight bytes; s2 is reduced every 0x8000 bytes. */
  method AddGroups(input: seq<byte>, head: nat, s1: word32, s2: word32, ghost s: Sums) returns (a: word32, b: word32)
    requires head <= |input| && (|input| - head) % 8 == 0
    requires s1 < BASE && s2 < BASE && Represents(s1, s2, AddBytes(s, input[..head]))
    ensures a < BASE && b < BASE && Represents(a, b, AddBytes(s, input))
  {
    hide AddBytes, Represents, Since;
    a, b := s1, s2;
    var length: nat, at: nat := |input| - head, head;
    while length > 0
      invariant length % 8 == 0 && at + length == |input| && a < BASE
      invariant Represents(a, b, AddBytes(s, input[..at]))
      invariant b <= 65520 + 67560 * Since(length) && (length == 0 ==> b < BASE)
      decreases length
    {
      AddBytesAppend(s, input[..at], input[at..at + 8]);
      assert input[..at + 8] == input[..at] + input[at..at + 8];
      a, b := AddGroup(input[at..at + 8], length, a, b, AddBytes(s, input[..at]));
      length := length - 8;
      at := at + 8;
    }
    assert input[..|input|] == input;
  }

  lemma SinceGrows(length: nat)
    requires length > 0 && length % 8 == 0
    ensures Since(length) <= 0x8000 - 8
    ensures (length - 8) % 0x8000 != 0 ==> Since(length - 8) == Since(length) + 8
  {
    var q, r := length / 0x8000, length % 0x8000;
    if r == 0 {
      assert (length - 8) % 0x8000 == 0x8000 - 8;
    } else {
      assert (length - 8) % 0x8000 == r - 8;
    }
  }

  /** Reducing either sum leaves what they represent alone. */
  lemma ReducedSums(a: nat, b: nat, s: Sums)
    requires Represents(a, b, s)
    ensures Represents(a, b % BASE, s)
    ensures a >= BASE ==> Represents(a - BASE, b, s) && Represents(a - BASE, b % BASE, s)
  {
  }

  // Section 8.2 of RFC 1950, without a loop

  function Total(data: seq<byte>): nat {
    if |data| == 0 then 0 else data[0] + Total(data[1..])
  }

  /** Every byte as often as there are bytes from it to the end. */
  function Weighted(data: seq<byte>): nat {
    if |data| == 0 then 0 else |data| * data[0] + Weighted(data[1..])
  }

  lemma {:induction false} OneByteMore(data: seq<byte>, b: byte)
    ensures Total(data + [b]) == Total(data) + b && Weighted(data + [b]) == Weighted(data) + Total(data) + b
  {
    if |data| == 0 {
      assert data + [b] == [b] && [b][1..] == [];
      assert Total([b]) == b + Total([]) && Weighted([b]) == 1 * b + Weighted([]);
    } else {
      OneByteMore(data[1..], b);
      assert (data + [b])[1..] == data[1..] + [b];
      MulDistributes(|data|, 1, data[0]);
    }
  }

  /** The first sum is 1 and all bytes, the second the sum of all values of the first, modulo the largest prime below
      65536. */
  lemma {:induction false} SumsAre(data: seq<byte>)
    ensures AddBytes(Sums(1, 0), data) == Sums((1 + Total(data)) % 65521, (|data| + Weighted(data)) % 65521)
  {
    hide Total, Weighted;
    if |data| == 0 {
      NoTotal();
    } else {
      var m := |data| - 1;
      SumsAre(data[..m]);
      assert data == data[..m] + [data[m]];
      OneByteMore(data[..m], data[m]);
      NextSums(Total(data[..m]), Weighted(data[..m]), m, data[m]);
    }
  }

  /** Second sum, then first sum, each with its high byte first. */
  ghost predicate IsCheckValue(data: seq<byte>, hash: seq<byte>) {
    var s1, s2 := (1 + Total(data)) % 65521, (|data| + Weighted(data)) % 65521;
    hash == [s2 / 256, s2 % 256, s1 / 256, s1 % 256]
  }

  lemma CheckIs(data: seq<byte>)
    ensures var s := AddBytes(Sums(1, 0), data); IsCheckValue(data, BigEndian(s.s2 * 0x1_0000 + s.s1, 4))
  {
    hide AddBytes, BigEndian, Total, Weighted;
    SumsAre(data);
    var s1, s2 := (1 + Total(data)) % 65521, (|data| + Weighted(data)) % 65521;
    FourBytes(s1, s2);
  }

  lemma NoTotal()
    ensures Total([]) == 0 == Weighted([]) && 1 % 65521 == 1 && 0 % 65521 == 0
  {
  }

  lemma NextSums(total: nat, weighted: nat, m: nat, b: byte)
    ensures AddByte(Sums((1 + total) % 65521, (m + weighted) % 65521), b)
            == Sums((1 + (total + b)) % 65521, (m + 1 + (weighted + total + b)) % 65521)
  {
    SumModulo(1 + total, b, 65521);
    OuterSum(m + weighted, 1 + total + b, (m + weighted) % 65521, (1 + total + b) % 65521, 65521);
  }

  /** However the message is cut into pieces, the check value is that of the whole message. */
  method CheckOfPieces(o: Adler, pieces: seq<seq<byte>>) returns (hash: seq<byte>)
    requires o.Valid() && o.message == []
    modifies o
    ensures var s := AddBytes(Sums(1, 0), Flatten(pieces)); hash == BigEndian(s.s2 * 0x1_0000 + s.s1, 4)
    ensures IsCheckValue(Flatten(pieces), hash)
  {
    hide AddBytes, IsCheckValue;
    for i := 0 to |pieces|
      invariant o.Valid() && o.message == Flatten(pieces[..i])
    {
      FlattenNext(pieces, i);
      o.Update(pieces[i]);
    }
    assert pieces[..|pieces|] == pieces;
    var ok;
    ok, hash := o.TruncatedFinal(4);
    ghost var s := AddBytes(Sums(1, 0), Flatten(pieces));
    assert BigEndian(s.s2 * 0x1_0000 + s.s1, 4)[..4] == BigEndian(s.s2 * 0x1_0000 + s.s1, 4);
    CheckIs(Flatten(pieces));
  }
}
