/** The Blum Blum Shub generator and its random access. */
module BlumShub {
  import opened Arithmetic
  import opened NumberTheory
  import opened Fermat

  /** Squaring modulo n, as `ModularArithmetic::Square` does. */
  function Square(a: int, n: nat): (r: nat)
    requires n > 0
    ensures r < n
  {
    (a * a) % n
  }

  /** The modulus of two factors. */
  function Modulus(p: nat, q: nat): (n: nat)
    requires p > 1 && q > 1
    ensures n > 3
  {
    MulStrict(2, q, 2);
    MulStrict(2, p, q);
    p * q
  }

  /** The order of the units modulo a product of two distinct primes. */
  function Phi(p: nat, q: nat): (phi: nat)
    requires p > 1 && q > 1
    ensures phi > 0
  {
    MulStrict(0, p - 1, q - 1);
    (p - 1) * (q - 1)
  }

  // The specification of the bit stream. It depends on x0 and n only.

  /** The j-th state a fresh generator draws bits from: x0^(2^(j + 1)) modulo n. */
  function StateAt(x0: nat, n: nat, j: nat): (r: nat)
    requires n > 0
    ensures r < n
  {
    Pow(x0, Pow2(j + 1)) % n
  }

  /** The state that yields bit i. */
  function BlockOf(i: nat, maxBits: nat): nat
    requires maxBits > 0
  {
    i / maxBits
  }

  /** Bit i of the stream: each state yields its low maxBits bits, the highest of them first. */
  function StreamBit(x0: nat, n: nat, maxBits: nat, i: nat): bool
    requires n > 0 && maxBits > 0
  {
    GetBit(StateAt(x0, n, BlockOf(i, maxBits)), maxBits - 1 - i % maxBits)
  }

  /** The number written by count bits of the stream from bit i on. */
  function StreamBits(x0: nat, n: nat, maxBits: nat, i: nat, count: nat): nat
    requires n > 0 && maxBits > 0
  {
    if count == 0 then 0
    else 2 * StreamBits(x0, n, maxBits, i, count - 1) + Bit(StreamBit(x0, n, maxBits, i + count - 1))
  }

  /** What the first count bits of a block write is the upper part of the low maxBits bits of its state. */
  lemma {:induction false} BlockPrefix(x0: nat, n: nat, maxBits: nat, j: nat, count: nat)
    requires n > 0 && count <= maxBits && maxBits > 0
    ensures j * maxBits >= 0
    ensures StreamBits(x0, n, maxBits, j * maxBits, count) == Shr(StateAt(x0, n, j) % Pow2(maxBits), maxBits - count)
  {
    hide StateAt, Shr, GetBit, Pow2;
    var x: nat := StateAt(x0, n, j) % Pow2(maxBits);
    if count == 0 {
      LowPartVanishes(StateAt(x0, n, j), maxBits);
    } else {
      var k := maxBits - count;
      BlockPrefix(x0, n, maxBits, j, count - 1);
      DivModUnique(j * maxBits + (count - 1), maxBits, j, count - 1);
      BitOfLowPart(StateAt(x0, n, j), maxBits, k);
      NextShift(x, k);
    }
  }

  lemma LowPartVanishes(x: nat, w: nat)
    ensures Shr(x % Pow2(w), w) == 0
  {
    ShrIsDiv(x % Pow2(w), w);
    DivModUnique(x % Pow2(w), Pow2(w), 0, x % Pow2(w));
  }

  lemma BitOfLowPart(x: nat, w: nat, k: nat)
    requires k < w
    ensures GetBit(x % Pow2(w), k) == GetBit(x, k)
  {
    hide Shr, Pow2;
    ShrIsDiv(x, w);
    Pow2Add(w - k, k);
    MulAssociates(Shr(x, w), Pow2(w - k), Pow2(k));
    ShrShift(x % Pow2(w), k, Shr(x, w) * Pow2(w - k));
    EvenMultiple(Shr(x, w), w - k);
    EvenSum(Shr(x % Pow2(w), k), Shr(x, w) * Pow2(w - k));
  }

  lemma EvenMultiple(q: nat, n: nat)
    requires n > 0
    ensures q * Pow2(n) >= 0 && (q * Pow2(n)) % 2 == 0
  {
    MulAssociates(q, Pow2(n - 1), 2);
    AddMultiple(0, q * Pow2(n - 1), 2);
    assert Pow2(n) == Pow2(n - 1) * 2;
  }

  lemma NextShift(x: nat, k: nat)
    ensures Shr(x, k) == 2 * Shr(x, k + 1) + Bit(GetBit(x, k))
  {
  }

  /** Each state gives out the number made of its low maxBits bits. */
  lemma BlockIsLowPart(x0: nat, n: nat, maxBits: nat, j: nat)
    requires n > 0 && maxBits > 0
    ensures j * maxBits >= 0
    ensures StreamBits(x0, n, maxBits, j * maxBits, maxBits) == StateAt(x0, n, j) % Pow2(maxBits)
  {
    hide StateAt, StreamBits, Pow2;
    BlockPrefix(x0, n, maxBits, j, maxBits);
    NoShift(StateAt(x0, n, j) % Pow2(maxBits));
  }

  lemma NoShift(x: nat)
    ensures Shr(x, 0) == x
  {
  }

  lemma SquareAdvances(x0: nat, n: nat, j: nat)
    requires n > 0
    ensures Square(StateAt(x0, n, j), n) == StateAt(x0, n, j + 1)
  {
    hide Divides;
    var e := Pow2(j + 1);
    CongruentMod(Pow(x0, e), n);
    CongruentProduct(Pow(x0, e) % n, Pow(x0, e), Pow(x0, e) % n, Pow(x0, e), n);
    PowAdd(x0, e, e);
    CongruentIsSameMod((Pow(x0, e) % n) * (Pow(x0, e) % n), Pow(x0, e) * Pow(x0, e), n);
  }

  /** Where random access lands: the power of two is reduced modulo (p - 1)(q - 1) first. */
  function SeekState(x0: nat, p: nat, q: nat, j: nat): nat
    requires p > 1 && q > 1
  {
    Pow(x0, Pow2(j + 1) % Phi(p, q)) % Modulus(p, q)
  }

  /** The reduced exponent is positive, or x is a unit. */
  ghost predicate SeekIsExact(x: int, p: nat, q: nat, j: nat)
    requires p > 1 && q > 1
  {
    Pow2(j + 1) % Phi(p, q) > 0 || (!Divides(p, x) && !Divides(q, x))
  }

  /** Random access lands on the sequential state exactly when the reduced exponent is positive
      or x0 is a unit; otherwise it lands on 1. */
  lemma SeekMeetsSequence(x0: nat, p: nat, q: nat, j: nat)
    requires IsPrime(p) && IsPrime(q) && p != q
    ensures SeekState(x0, p, q, j) == StateAt(x0, Modulus(p, q), j) <==> SeekIsExact(x0, p, q, j)
    ensures !SeekIsExact(x0, p, q, j) ==> SeekState(x0, p, q, j) == 1
  {
    PowZero(x0);
    DivModUnique(1, Modulus(p, q), 0, 1);
    var e, phi := Pow2(j + 1), Phi(p, q);
    if e % phi > 0 || (!Divides(p, x0) && !Divides(q, x0)) {
      EulerReduction(x0, p, q, e, phi);
      CongruentIsSameMod(Pow(x0, e), Pow(x0, e % phi), Modulus(p, q));
    } else if Divides(p, x0) {
      SeekLosesFactor(x0, p, q, e);
    } else {
      SeekLosesFactor(x0, q, p, e);
      assert Modulus(q, p) == Modulus(p, q);
    }
  }

  /** Squaring modulo a multiple of a prime keeps what the prime divides. */
  lemma SquareKeepsFactor(p: nat, n: nat, seed: int)
    requires IsPrime(p) && n > 0 && Divides(p, n)
    ensures Divides(p, Square(seed, n)) <==> Divides(p, seed)
  {
    hide Divides, IsPrime;
    PrimeIsPositive(p);
    var y, m: nat := seed * seed, Abs(seed);
    QuotientAndRemainder(y, n);
    DividesProduct(p, n, y / n);
    assert y == m * m;
    if Divides(p, Square(seed, n)) {
      DividesSum(p, Square(seed, n), n * (y / n));
      PrimeDividesProduct(p, m, m);
      DividesMagnitude(p, seed);
    }
    if Divides(p, seed) {
      DividesProduct(p, seed, seed);
      DividesSum(p, y, n * (y / n));
    }
  }

  lemma PrimeIsPositive(p: nat)
    requires IsPrime(p)
    ensures p > 1
  {
  }

  lemma QuotientAndRemainder(y: int, n: nat)
    requires n > 0
    ensures y == y % n + n * (y / n) && y % n == y - n * (y / n)
  {
  }

  /** The condition on the square is the condition on the seed. */
  lemma ExactForSeed(seed: int, p: nat, q: nat, j: nat)
    requires IsPrime(p) && IsPrime(q)
    ensures SeekIsExact(Square(seed, Modulus(p, q)), p, q, j) <==> SeekIsExact(seed, p, q, j)
  {
    MultipleOf(p, q);
    MultipleOf(q, p);
    SquareKeepsFactor(p, Modulus(p, q), seed);
    SquareKeepsFactor(q, Modulus(p, q), seed);
  }

  lemma SeekLosesFactor(x: nat, p: nat, q: nat, e: nat)
    requires p > 1 && q > 1 && e > 0 && Divides(p, x)
    ensures Pow(x, e) % Modulus(p, q) != Pow(x, 0) % Modulus(p, q)
  {
    var n, y := Modulus(p, q), Pow(x, e);
    PowerDivisible(x, p, e);
    PowZero(x);
    DivModUnique(1, n, 0, 1);
    MultipleOf(p, q);
    NotOneModulo(p, n, y);
  }

  lemma NotOneModulo(p: nat, n: nat, y: int)
    requires p > 1 && n > 1 && Divides(p, n) && Divides(p, y)
    ensures y % n != 1
  {
    hide Divides;
    if y % n == 1 {
      QuotientAndOne(y, n);
      DividesProduct(p, n, y / n);
      DividesSum(p, y, n * (y / n));
      DivisorAtMost(p, 1);
    }
  }

  lemma QuotientAndOne(y: int, n: int)
    requires n > 1 && y % n == 1
    ensures y - n * (y / n) == 1
  {
  }

  lemma PowZero(x: int)
    ensures Pow(x, 0) == 1
  {
  }

  lemma PowerDivisible(x: nat, p: nat, e: nat)
    requires p > 0 && e > 0 && Divides(p, x)
    ensures Divides(p, Pow(x, e))
  {
    DividesProduct(p, x, Pow(x, e - 1));
  }

  lemma {:induction false} OddDivisorOfPow2(a: nat, m: nat)
    requires a % 2 == 1 && Divides(a, Pow2(m))
    ensures a == 1
  {
    if m == 0 {
      DivisorAtMost(a, 1);
    } else {
      CombinationCoprime(2, a, -(a / 2), 1);
      CoprimeDivides(a, 2, Pow2(m - 1));
      OddDivisorOfPow2(a, m - 1);
    }
  }

  /** For the primes the header asks for, both congruent to 3 modulo 4, the reduced exponent is never
      zero, so random access is exact for every seed. */
  lemma BlumPrimesSeekExactly(p: nat, q: nat, m: nat)
    requires p % 4 == 3 && q % 4 == 3 && p != q
    ensures Pow2(m) % Phi(p, q) > 0
  {
    if p > 3 {
      OddFactorRemains(p, q, m);
    } else {
      OddFactorRemains(q, p, m);
      assert Phi(q, p) == Phi(p, q);
    }
  }

  lemma OddFactorRemains(p: nat, q: nat, m: nat)
    requires p % 4 == 3 && p > 3 && q > 1
    ensures Pow2(m) % Phi(p, q) > 0
  {
    var phi, a := Phi(p, q), (p - 1) / 2;
    assert p - 1 == 2 * a && a % 2 == 1;
    if Divides(phi, Pow2(m)) {
      MultipleOf(a, 2);
      DividesProduct(a, p - 1, q - 1);
      DividesTransitive(a, phi, Pow2(m));
      OddDivisorOfPow2(a, m);
    }
  }

  lemma WholeQuotient(x: nat, m: nat)
    requires m > 0 && x % m == 0
    ensures (x / m) * m == x
  {
  }

  /** A state gives as many bits as the logarithm of the number of bits of the modulus, rounded down. */
  lemma MaxBitsIs(n: nat)
    requires n > 1
    ensures BitCount(n) > 1 && Pow2(BitCount(n) - 1) <= n < Pow2(BitCount(n))
    ensures var maxBits := BitCount(BitCount(n)) - 1; maxBits >= 0 && Pow2(maxBits) <= BitCount(n) < Pow2(maxBits + 1)
  {
    BitCountIs(n);
    assert Pow2(1) == 2;
    BitCountIs(BitCount(n));
  }

  lemma {:induction false} BitCountIs(n: nat)
    requires n > 0
    ensures BitCount(n) > 0 && Pow2(BitCount(n) - 1) <= n < Pow2(BitCount(n))
  {
    if n > 1 {
      BitCountIs(n / 2);
    }
  }

  /** `PublicBlumBlumShub` together with the random access of `BlumBlumShub`. */
  class BlumBlumShub {
    const p: nat
    const q: nat
    const modn: nat
    const x0: nat
    const maxBits: nat
    var current: nat
    var bitsLeft: nat

    // How many states have been used up before the current one, and what the states are powers of.
    ghost var block: nat
    ghost var root: nat

    ghost predicate Valid()
      reads this
    {
      && modn > 0 && maxBits > 0 && bitsLeft <= maxBits
      && current == StateAt(root, modn, block)
    }

    /** The number of bits of the stream behind the generator. */
    ghost function Position(): nat
      requires bitsLeft <= maxBits
      reads this
    {
      block * maxBits + (maxBits - bitsLeft)
    }

    constructor (p: nat, q: nat, seed: int)
      requires p > 1 && q > 1
      ensures Valid() && Position() == 0 && root == x0
      ensures this.p == p && this.q == q && modn == Modulus(p, q) && x0 == Square(seed, Modulus(p, q))
      ensures maxBits == BitCount(BitCount(Modulus(p, q))) - 1
    {
      EnoughBits(Modulus(p, q));
      this.p, this.q := p, q;
      modn := Modulus(p, q);
      x0 := Square(seed, Modulus(p, q));
      current := Square(Square(seed, Modulus(p, q)), Modulus(p, q));
      maxBits := BitCount(BitCount(Modulus(p, q))) - 1;
      bitsLeft := BitCount(BitCount(Modulus(p, q))) - 1;
      block, root := 0, Square(seed, Modulus(p, q));
      FirstState(Square(seed, Modulus(p, q)), Modulus(p, q));
    }

    method GenerateBit() returns (bit: bool)
      requires Valid()
      modifies `current, `bitsLeft, `block
      ensures Valid() && Position() == old(Position()) + 1
      ensures bit == StreamBit(root, modn, maxBits, old(Position()))
    {
      hide StateAt, GetBit;
      if bitsLeft == 0 {
        SquareAdvances(root, modn, block);
        current := Square(current, modn);
        bitsLeft := maxBits;
        block := block + 1;
        MulDistributes(block - 1, 1, maxBits);
      }
      assert Position() == old(Position());
      bitsLeft := bitsLeft - 1;
      bit := GetBit(current, bitsLeft);
      DivModUnique(block * maxBits + (maxBits - 1 - bitsLeft), maxBits, block, maxBits - 1 - bitsLeft);
    }

    /** From the start of a block, as many bits as a state gives write the low part of that state. */
    method GenerateState() returns (number: nat)
      requires Valid() && Position() % maxBits == 0
      modifies `current, `bitsLeft, `block
      ensures Valid() && Position() == old(Position()) + maxBits
      ensures number == StateAt(root, modn, old(Position()) / maxBits) % Pow2(maxBits)
    {
      hide StreamBit, StateAt, Pow2;
      number := 0;
      for i := 0 to maxBits
        invariant Valid() && Position() == old(Position()) + i && root == old(root)
        invariant number == StreamBits(root, modn, maxBits, old(Position()), i)
      {
        var bit := GenerateBit();
        number := 2 * number + Bit(bit);
      }
      WholeQuotient(old(Position()), maxBits);
      BlockIsLowPart(root, modn, maxBits, old(Position()) / maxBits);
    }

    method GenerateByte() returns (b: nat)
      requires Valid()
      modifies `current, `bitsLeft, `block
      ensures Valid() && Position() == old(Position()) + 8
      ensures b == StreamBits(root, modn, maxBits, old(Position()), 8)
    {
      hide StreamBit;
      b := 0;
      for i := 0 to 8
        invariant Valid() && Position() == old(Position()) + i
        invariant b == StreamBits(root, modn, maxBits, old(Position()), i)
      {
        var bit := GenerateBit();
        b := 2 * b + Bit(bit);
      }
    }

    method GenerateBlock(size: nat) returns (output: seq<nat>)
      requires Valid()
      modifies `current, `bitsLeft, `block
      ensures Valid() && Position() == old(Position()) + 8 * size
      ensures |output| == size
      ensures forall k :: 0 <= k < size ==> output[k] == StreamBits(root, modn, maxBits, old(Position()) + 8 * k, 8)
      ensures forall index :: old(Position()) == 8 * index ==> AreStreamBytes(root, modn, maxBits, index, output)
    {
      hide StreamBits;
      output := [];
      while |output| < size
        invariant Valid() && |output| <= size && Position() == old(Position()) + 8 * |output|
        invariant forall k :: 0 <= k < |output| ==>
                    output[k] == StreamBits(root, modn, maxBits, old(Position()) + 8 * k, 8)
      {
        var b := GenerateByte();
        output := output + [b];
      }
    }

    /** Jumps to byte index of the stream; where random access is not exact, to the stream of ones. */
    method Seek(index: nat)
      requires IsPrime(p) && IsPrime(q) && p != q && modn == Modulus(p, q) && maxBits > 0
      modifies `current, `bitsLeft, `block, `root
      ensures Valid() && 0 < bitsLeft && Position() == 8 * index
      ensures current == SeekState(x0, p, q, BlockOf(8 * index, maxBits))
      ensures current == StateAt(x0, modn, BlockOf(8 * index, maxBits))
              <==> SeekIsExact(x0, p, q, BlockOf(8 * index, maxBits))
      ensures root == if SeekIsExact(x0, p, q, BlockOf(8 * index, maxBits)) then x0 else 1
    {
      PrimeIsPositive(p);
      PrimeIsPositive(q);
      hide IsPrime, SeekIsExact, StateAt, Phi, Pow2, Pow;
      var i := index * 8;
      QuotientAndRemainder(i, maxBits);
      var e := Pow2(i / maxBits + 1) % Phi(p, q);
      current := Pow(x0, e) % modn;
      bitsLeft := maxBits - i % maxBits;
      block := i / maxBits;
      SeekMeetsSequence(x0, p, q, i / maxBits);
      OnesOnly(modn, block);
      root := if SeekIsExact(x0, p, q, i / maxBits) then x0 else 1;
    }
  }

  lemma OnesOnly(n: nat, j: nat)
    requires n > 1
    ensures StateAt(1, n, j) == 1
  {
    PowOfOne(Pow2(j + 1));
    DivModUnique(1, n, 0, 1);
  }

  /** Reading size bytes after a jump to byte index gives what a fresh generator gives there, for all distinct primes
      and all seeds for which random access is exact; for primes congruent to 3 modulo 4 these are all seeds. Otherwise
      the bytes are those of the stream of ones. */
  method SeekThenGenerate(p: nat, q: nat, seed: int, index: nat, size: nat)
    returns (output: seq<nat>, fromStart: seq<nat>)
    requires IsPrime(p) && IsPrime(q) && p != q
    ensures |output| == size && |fromStart| == index + size
    ensures var n := Modulus(p, q); var maxBits := BitCount(BitCount(n)) - 1;
            maxBits > 0
            && (if SeekIsExact(seed, p, q, BlockOf(8 * index, maxBits)) then output == fromStart[index..]
                else AreStreamBytes(1, n, maxBits, index, output))
    ensures !Divides(p, seed) && !Divides(q, seed) ==> output == fromStart[index..]
    ensures p % 4 == 3 && q % 4 == 3 ==> output == fromStart[index..]
  {
    PrimeIsPositive(p);
    PrimeIsPositive(q);
    hide *;
    var sequential := new BlumBlumShub(p, q, seed);
    fromStart := sequential.GenerateBlock(index + size);
    var jumped := new BlumBlumShub(p, q, seed);
    ExactSeeds(seed, p, q, BlockOf(8 * index, jumped.maxBits));
    ExactForSeed(seed, p, q, BlockOf(8 * index, jumped.maxBits));
    EnoughBits(Modulus(p, q));
    jumped.Seek(index);
    output := jumped.GenerateBlock(size);
    if jumped.root == jumped.x0 {
      SameBytes(jumped.x0, jumped.modn, jumped.maxBits, index, output, fromStart);
    }
  }

  /** Units, and all seeds for primes congruent to 3 modulo 4. */
  lemma ExactSeeds(seed: int, p: nat, q: nat, j: nat)
    requires p > 1 && q > 1 && p != q
    ensures !Divides(p, seed) && !Divides(q, seed) ==> SeekIsExact(seed, p, q, j)
    ensures p % 4 == 3 && q % 4 == 3 ==> SeekIsExact(seed, p, q, j)
  {
    if p % 4 == 3 && q % 4 == 3 {
      BlumPrimesSeekExactly(p, q, j + 1);
    }
  }

  /** For 3 and 5, seed 3 and byte 1, random access is not exact: it lands on 1, and the sequence is at 6. */
  lemma SeekFails()
    ensures IsPrime(3) && IsPrime(5) && Square(3, Modulus(3, 5)) == 9 && BlockOf(8, 2) == 4
    ensures !SeekIsExact(9, 3, 5, 4) && SeekState(9, 3, 5, 4) == 1 && StateAt(9, 15, 4) == 6
  {
    assert Pow2(5) == 32 && Phi(3, 5) == 8 && Modulus(3, 5) == 15;
    SmallPrimes();
    SeekMeetsSequence(9, 3, 5, 4);
    FirstState(9, 15);
    hide StateAt;
    SquareAdvances(9, 15, 0);
    SquareAdvances(9, 15, 1);
    SquareAdvances(9, 15, 2);
    SquareAdvances(9, 15, 3);
  }

  lemma SmallPrimes()
    ensures IsPrime(3) && IsPrime(5)
  {
    assert !Divides(2, 3) && !Divides(2, 5) && !Divides(3, 5) && !Divides(4, 5);
  }

  /** The bytes of the stream from byte index on. */
  ghost predicate AreStreamBytes(x0: nat, n: nat, maxBits: nat, index: nat, output: seq<nat>)
    requires n > 0 && maxBits > 0
  {
    forall k :: 0 <= k < |output| ==> output[k] == StreamBits(x0, n, maxBits, 8 * (index + k), 8)
  }

  lemma SameBytes(x0: nat, n: nat, maxBits: nat, index: nat, output: seq<nat>, fromStart: seq<nat>)
    requires n > 0 && maxBits > 0 && |fromStart| == index + |output|
    requires AreStreamBytes(x0, n, maxBits, index, output) && AreStreamBytes(x0, n, maxBits, 0, fromStart)
    ensures output == fromStart[index..]
  {
    hide StreamBits;
    forall k | 0 <= k < |output|
      ensures output[k] == fromStart[index..][k]
    {
      assert fromStart[index..][k] == fromStart[index + k];
    }
  }

  lemma EnoughBits(n: nat)
    requires n > 3
    ensures BitCount(BitCount(n)) > 1
  {
    assert BitCount(n) >= 2;
  }

  lemma FirstState(x0: nat, n: nat)
    requires n > 0
    ensures Square(x0, n) == StateAt(x0, n, 0)
  {
    assert Pow2(1) == 2 by { assert Pow2(0) == 1; }
    assert Pow(x0, 2) == Pow(x0, 1) * x0 && Pow(x0, 1) == Pow(x0, 0) * x0;
  }
}
