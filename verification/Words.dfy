/** 32-bit words. */
module Words {
  function Xor32(a: bv32, b: bv32): bv32 {
    a ^ b
  }

  function Add32(a: bv32, b: bv32): bv32 {
    a + b
  }

  function Sub32(a: bv32, b: bv32): bv32 {
    a - b
  }

  lemma SubUndoesAdd(a: bv32, b: bv32)
    ensures Sub32(Add32(a, b), b) == a
  {
    hide Add32, Sub32;
    SumLess(a, b);
    AddIs(a, b);
  }

  lemma AddUndoesSub(a: bv32, b: bv32)
    ensures Add32(Sub32(a, b), b) == a
  {
    hide Add32, Sub32;
    DifferenceMore(a, b);
    SubIs(a, b);
  }

  lemma AddIs(a: bv32, b: bv32)
    ensures Add32(a, b) == a + b
  {
  }

  lemma SubIs(a: bv32, b: bv32)
    ensures Sub32(a, b) == a - b
  {
  }

  lemma SumLess(a: bv32, b: bv32)
    ensures Sub32(a + b, b) == a
  {
  }

  lemma DifferenceMore(a: bv32, b: bv32)
    ensures Add32(a - b, b) == a
  {
  }

  /** `GETBYTE` */
  function GetByte(x: bv32, i: nat): bv8
    requires i < 4
  {
    if i == 0 then (x & 0xff) as bv8
    else if i == 1 then ((x >> 8) & 0xff) as bv8
    else if i == 2 then ((x >> 16) & 0xff) as bv8
    else (x >> 24) as bv8
  }

  /** Bit i, counted from the least significant, as 0 or 1. */
  function BitAt(x: bv32, i: bv32): bv32
    requires i < 32
  {
    (x >> i) & 1
  }

  function ByteBitAt(x: bv8, i: bv8): bv8
    requires i < 8
  {
    (x >> i) & 1
  }

  lemma XorWordTwice(x: bv32, y: bv32)
    ensures Xor32(Xor32(x, y), y) == x
  {
  }

  lemma WordDifference(x: bv32, y: bv32)
    ensures Xor32(Xor32(x, y), x) == y
  {
  }

  lemma XorWordZero(x: bv32)
    ensures Xor32(x, 0) == x
  {
  }

  lemma XorWordCommutes(x: bv32, y: bv32)
    ensures Xor32(x, y) == Xor32(y, x)
  {
  }

  /** The two halves of a 64-bit block. */
  datatype Pair = Pair(l: bv32, r: bv32)

  function Left(x: Pair, f: bv32): Pair {
    x.(l := Xor32(x.l, f))
  }

  function Right(x: Pair, f: bv32): Pair {
    x.(r := Xor32(x.r, f))
  }

  function Swap(x: Pair): Pair {
    Pair(x.r, x.l)
  }
}
