/** Numbers as bit strings, most significant bit first, and the C operators that move bits about. */
module BitStrings {
  import opened Arithmetic

  type byte = b: int | 0 <= b < 256

  /** The pieces of a stream put together. */
  function Flatten(pieces: seq<seq<byte>>): seq<byte> {
    if |pieces| == 0 then [] else Flatten(pieces[..|pieces| - 1]) + pieces[|pieces| - 1]
  }

  lemma FlattenNext(pieces: seq<seq<byte>>, i: nat)
    requires i < |pieces|
    ensures Flatten(pieces[..i + 1]) == Flatten(pieces[..i]) + pieces[i]
  {
    assert pieces[..i + 1][..i] == pieces[..i];
  }

  lemma FlattenOne(s: seq<byte>)
    ensures Flatten([s]) == s
  {
    FlattenNext([s], 0);
    assert [s][..1] == [s] && [s][..0] == [];
  }

  lemma {:induction false} FlattenFirst(first: seq<byte>, rest: seq<seq<byte>>)
    ensures Flatten([first] + rest) == first + Flatten(rest)
  {
    if |rest| == 0 {
      FlattenOne(first);
      assert [first] + rest == [first];
    } else {
      var m := |rest| - 1;
      FlattenFirst(first, rest[..m]);
      assert ([first] + rest)[..m + 1] == [first] + rest[..m];
    }
  }

  lemma {:induction false} FlattenPrefix(pieces: seq<seq<byte>>, i: nat)
    requires i <= |pieces|
    ensures |Flatten(pieces[..i])| <= |Flatten(pieces)|
  {
    if i == |pieces| {
      assert pieces[..i] == pieces;
    } else {
      var m := |pieces| - 1;
      FlattenPrefix(pieces[..m], i);
      assert pieces[..m][..i] == pieces[..i];
    }
  }

  /** The low n bits of x. */
  function ToBits(x: nat, n: nat): (bits: seq<bool>)
    ensures |bits| == n
  {
    if n == 0 then [] else ToBits(x / 2, n - 1) + [x % 2 == 1]
  }

  function FromBits(bits: seq<bool>): nat {
    if |bits| == 0 then 0 else 2 * FromBits(bits[..|bits| - 1]) + Bit(bits[|bits| - 1])
  }

  function Zeros(n: nat): (z: seq<bool>)
    ensures |z| == n
  {
    seq(n, _ => false)
  }

  /** Bitwise or, as `|=` computes it. */
  function Or(a: nat, b: nat): nat {
    if a == 0 then b
    else if b == 0 then a
    else 2 * Or(a / 2, b / 2) + (if a % 2 == 1 || b % 2 == 1 then 1 else 0)
  }

  lemma {:induction false} FromToBits(x: nat, n: nat)
    requires x < Pow2(n)
    ensures FromBits(ToBits(x, n)) == x
  {
    if n > 0 {
      FromToBits(x / 2, n - 1);
      assert ToBits(x, n)[..n - 1] == ToBits(x / 2, n - 1);
    }
  }

  lemma {:induction false} ToFromBits(bits: seq<bool>)
    ensures FromBits(bits) < Pow2(|bits|)
    ensures ToBits(FromBits(bits), |bits|) == bits
  {
    if |bits| > 0 {
      ToFromBits(bits[..|bits| - 1]);
      assert bits == bits[..|bits| - 1] + [bits[|bits| - 1]];
    }
  }

  /** The upper a of a + b bits are those of the shifted number. */
  lemma {:induction false} SplitBits(x: nat, a: nat, b: nat)
    ensures ToBits(x, a + b) == ToBits(Shr(x, b), a) + ToBits(x, b)
  {
    if b == 0 {
      assert ToBits(x, a) + [] == ToBits(x, a);
    } else {
      SplitBits(x / 2, a, b - 1);
      ShrHead(x, b);
      assert ToBits(Shr(x, b), a) + (ToBits(x / 2, b - 1) + [x % 2 == 1])
          == (ToBits(Shr(x, b), a) + ToBits(x / 2, b - 1)) + [x % 2 == 1];
    }
  }

  /** High bits do not show in the low ones. */
  lemma {:induction false} LowBitsOnly(x: nat, k: nat, n: nat)
    ensures k * Pow2(n) >= 0
    ensures ToBits(x + k * Pow2(n), n) == ToBits(x, n)
  {
    assert k * Pow2(n) >= 0;
    if n > 0 {
      var y := k * Pow2(n - 1);
      assert k * (2 * Pow2(n - 1)) == 2 * y;
      LowBitsOnly(x / 2, k, n - 1);
    }
  }

  /** Truncation to w bits leaves the bits below w alone. */
  lemma TruncatedBits(x: nat, w: nat, j: nat, n: nat)
    requires j + n <= w
    ensures ToBits(Shr(x % Pow2(w), j), n) == ToBits(Shr(x, j), n)
  {
    hide ToBits, Shr, Pow2;
    var y := x % Pow2(w);
    ShrIsDiv(x, w);
    LowBitsOnly(y, Shr(x, w), w);
    MiddleBits(x, w, j, n);
    MiddleBits(y, w, j, n);
  }

  /** Where n bits above the low j are among the low w. */
  lemma MiddleBits(x: nat, w: nat, j: nat, n: nat)
    requires j + n <= w
    ensures ToBits(Shr(x, j), n) == ToBits(x, w)[w - j - n..w - j]
  {
    hide ToBits, Shr;
    SplitBits(x, w - j, j);
    SplitBits(Shr(x, j), w - j - n, n);
    CutMiddle(ToBits(Shr(Shr(x, j), n), w - j - n), ToBits(Shr(x, j), n), ToBits(x, j));
  }

  lemma CutMiddle(top: seq<bool>, middle: seq<bool>, low: seq<bool>)
    ensures (top + middle + low)[|top|..|top| + |middle|] == middle
  {
  }

  /** Shifting left, then right, leaves the difference. */
  lemma ShiftLeftRight(x: nat, a: nat, b: nat)
    ensures x * Pow2(a) >= 0
    ensures Shr(x * Pow2(a), a + b) == Shr(x, b)
    ensures Shr(x * Pow2(a + b), b) == x * Pow2(a)
  {
    hide Shr, Pow2;
    var y := x * Pow2(a);
    ShrProduct(x, a);
    ShrShr(y, a, b);
    Pow2Add(a, b);
    MulAssociates(x, Pow2(a), Pow2(b));
    ShrProduct(y, b);
  }

  lemma ShrProduct(x: nat, a: nat)
    ensures x * Pow2(a) >= 0 && Shr(x * Pow2(a), a) == x
  {
    hide Pow2;
    ShrShift(0, a, x);
    ShrIsDiv(0, a);
  }

  lemma ShrBounded(x: nat, a: nat, b: nat)
    requires x < Pow2(a + b)
    ensures Shr(x, b) < Pow2(a)
  {
    ShrIsDiv(x, b);
    Pow2Add(a, b);
    if Shr(x, b) >= Pow2(a) {
      MulStrict(Pow2(a), Shr(x, b), Pow2(b));
    }
  }

  /** Or of numbers whose bits do not overlap is their sum. */
  lemma {:induction false} OrDisjoint(q: nat, r: nat, k: nat)
    requires r < Pow2(k)
    ensures q * Pow2(k) >= 0
    ensures Or(q * Pow2(k), r) == q * Pow2(k) + r
  {
    assert q * Pow2(k) >= 0;
    if k > 0 && q > 0 && r > 0 {
      var y := q * Pow2(k - 1);
      assert q * (2 * Pow2(k - 1)) == 2 * y;
      OrDisjoint(q, r / 2, k - 1);
    }
  }

  lemma OrHalves(a: nat, b: nat)
    ensures Or(a, b) == 2 * Or(a / 2, b / 2) + (if a % 2 == 1 || b % 2 == 1 then 1 else 0)
  {
  }

  /** Or of numbers cut in two. */
  lemma {:induction false} OrParts(q: nat, b: nat, u: nat, c: nat, k: nat)
    requires b < Pow2(k) && c < Pow2(k)
    ensures q * Pow2(k) >= 0 && u * Pow2(k) >= 0
    ensures Or(q * Pow2(k) + b, u * Pow2(k) + c) == Or(q, u) * Pow2(k) + Or(b, c)
  {
    hide Or;
    assert q * Pow2(k) >= 0 && u * Pow2(k) >= 0;
    if k == 0 {
      OrHalves(0, 0);
      assert q * 1 == q && u * 1 == u && Or(q, u) * 1 == Or(q, u);
    } else {
      OrParts(q, b / 2, u, c / 2, k - 1);
      HalfOfProduct(q, b, Pow2(k - 1));
      HalfOfProduct(u, c, Pow2(k - 1));
      OrHalves(q * Pow2(k) + b, u * Pow2(k) + c);
      OrHalves(b, c);
      MulAssociates(2, Or(q, u), Pow2(k - 1));
    }
  }

  lemma HalfOfProduct(q: nat, b: nat, p: nat)
    ensures q * (2 * p) + b >= 0 && q * p >= 0
    ensures (q * (2 * p) + b) / 2 == q * p + b / 2 && (q * (2 * p) + b) % 2 == b % 2
  {
    assert q * (2 * p) == 2 * (q * p);
  }

  /** The highest of the bits comes first. */
  lemma {:induction false} ToBitsAt(x: nat, n: nat, i: nat)
    requires i < n
    ensures ToBits(x, n)[i] == GetBit(x, n - 1 - i)
  {
    if i < n - 1 {
      ToBitsAt(x / 2, n - 1, i);
      ShrHead(x, n - 1 - i);
    }
  }

  lemma {:induction false} FromBitsAt(bits: seq<bool>, i: nat)
    requires i < |bits|
    ensures GetBit(FromBits(bits), i) == bits[|bits| - 1 - i]
  {
    var m := |bits| - 1;
    if i > 0 {
      FromBitsAt(bits[..m], i - 1);
      ShrHead(FromBits(bits), i);
    }
  }
}
