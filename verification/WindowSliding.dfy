/** The signed sliding window of `SimultaneousMultiply`. */
module WindowSliding {
  import opened Arithmetic

  const WORD_BITS: nat := 64

  /** The number of machine words an Integer needs. */
  function WordCount(e: nat): nat {
    (BitCount(e) + WORD_BITS - 1) / WORD_BITS
  }

  /** The exponent `origin` is the part `done` below bit `begin` plus `ahead` at that bit. */
  ghost predicate Balanced(origin: nat, done: int, ahead: int, begin: nat) {
    && origin == done + ahead * Pow2(begin)
    && Abs(done) < Pow2(begin)
    && ahead * Pow2(begin) <= 2 * origin
  }

  /** Cuts an exponent into signed odd windows, from the least significant bit up. */
  class WindowSlider {
    const windowSize: nat
    const windowModulus: nat
    const fastNegate: bool
    var exp: nat
    var windowBegin: nat
    var expWindow: nat
    var negateNext: bool
    var firstTime: bool
    var finished: bool

    // The exponent the slider started from, and the sum of the windows already left behind.
    ghost const origin: nat
    ghost var done: int

    constructor (expIn: nat, fastNegate: bool, windowSizeIn: nat)
      ensures Valid() && firstTime && !finished
      ensures origin == expIn && done == 0
      ensures this.fastNegate == fastNegate
      ensures windowSizeIn != 0 ==> windowSize == windowSizeIn
    {
      exp := expIn;
      windowBegin, expWindow := 0, 0;
      this.fastNegate, negateNext, firstTime, finished := fastNegate, false, true, false;
      var size := windowSizeIn;
      if size == 0 {
        var expLen := BitCount(expIn);
        size := if expLen <= 17 then 1 else if expLen <= 24 then 2 else if expLen <= 70 then 3
        else if expLen <= 197 then 4 else if expLen <= 539 then 5 else if expLen <= 1434 then 6 else 7;
      }
      windowSize := size;
      windowModulus := Pow2(size);
      origin, done := expIn, 0;
    }

    /** The signed digit of the current window. */
    function Digit(): int
      reads this
    {
      if negateNext then -(expWindow as int) else expWindow
    }

    /** The part of the exponent above the current window, and the bit it starts at. */
    function Rest(): nat
      reads this
    {
      if firstTime then exp else Shr(exp, windowSize)
    }

    function RestBegin(): nat
      reads this
    {
      if firstTime then windowBegin else windowBegin + windowSize
    }

    /** The exponent from the current window on. */
    function Ahead(): int
      reads this
    {
      Digit() + Rest() * windowModulus
    }

    /** A window is an odd digit below 2^windowSize. When negating is fast the windows are
        non-adjacent: what is left after one is even. */
    ghost predicate HasWindow()
      reads this
    {
      && 0 < expWindow < windowModulus && expWindow % 2 == 1
      && (fastNegate ==> Rest() % 2 == 0)
      && (negateNext ==> fastNegate && Rest() > 0)
    }

    ghost predicate Valid()
      reads this
    {
      && windowSize > 0 && windowModulus == Pow2(windowSize)
      && (firstTime ==> !finished && windowBegin == 0 && exp == origin && done == 0)
      && (finished ==> done == origin)
      && (!firstTime && !finished ==> HasWindow() && Balanced(origin, done, Ahead(), windowBegin))
    }

    /** The sum of the windows up to and including the current one. */
    ghost function Passed(): int
      reads this
    {
      if firstTime then done else done + Digit() * Pow2(windowBegin)
    }

    /** Windows never start beyond 2 * origin, which bounds every run over them. */
    lemma WindowBounded()
      requires Valid() && !finished
      ensures windowBegin <= 2 * origin
    {
      if !firstTime {
        var ahead := Ahead();
        AheadPositive(Digit(), Rest(), windowModulus);
        MulStrict(1, ahead, Pow2(windowBegin));
        Pow2Exceeds(windowBegin);
      }
    }

    /** What the current window leaves of the exponent. */
    lemma AfterWindow()
      requires Valid() && !finished
      ensures Balanced(origin, Passed(), Rest(), RestBegin())
      ensures Rest() == 0 ==> Passed() == origin
    {
      if !firstTime {
        Pow2Add(windowBegin, windowSize);
        LeaveWindow(origin, done, Digit(), Rest(), Pow2(windowBegin), windowModulus);
      }
    }

    /** Moves past the current window to the next one, or finishes when no bit is left. */
    method FindNextWindow()
      requires Valid() && !finished
      modifies this
      ensures Valid() && !firstTime
      ensures done == old(Passed())
      ensures finished <==> old(Rest()) == 0
      ensures !finished ==> windowBegin >= old(RestBegin()) && HasWindow()
      ensures !finished ==> Ahead() * Pow2(windowBegin - old(RestBegin())) == old(Rest())
    {
      hide Balanced, HasWindow, Ahead;
      ghost var rest, start, passed := Rest(), RestBegin(), Passed();
      AfterWindow();
      var expLen := WordCount(exp) * WORD_BITS;
      var skipCount := if firstTime then 0 else windowSize;
      ghost var from := skipCount;
      firstTime := false;
      while !GetBit(exp, skipCount)
        invariant exp == old(exp) && windowBegin == old(windowBegin) && !firstTime && !finished
        invariant skipCount >= from
        invariant Shr(exp, skipCount) * Pow2(skipCount - from) == rest
        decreases expLen - skipCount
      {
        if skipCount >= expLen {
          ShrVanishes(exp, skipCount);
          done := passed;
          finished := true;
          return;
        }
        SkipZero(Shr(exp, skipCount), Pow2(skipCount - from));
        skipCount := skipCount + 1;
      }

      ghost var ahead := Shr(exp, skipCount);
      done := passed;
      TakeWindow(skipCount);
      SkippedWeight(origin, passed, rest, ahead, start, skipCount - from);
      assert windowBegin == start + (skipCount - from);
    }

    /** Shifts out skipCount bits and cuts the window that starts at the odd bit reached. */
    method TakeWindow(skipCount: nat)
      requires windowSize > 0 && windowModulus == Pow2(windowSize) && GetBit(exp, skipCount)
      requires !firstTime
      modifies `exp, `windowBegin, `expWindow, `negateNext
      ensures HasWindow()
      ensures windowBegin == old(windowBegin) + skipCount
      ensures Ahead() == old(Shr(exp, skipCount))
    {
      hide Pow2, Shr, LowBits;
      exp := Shr(exp, skipCount);
      windowBegin := windowBegin + skipCount;
      expWindow := LowBits(exp, windowSize);
      CutWindow(exp, windowSize);
      MulDistributes(Shr(exp, windowSize), 1, windowModulus);
      if fastNegate && GetBit(exp, windowSize) {
        negateNext := true;
        expWindow := Pow2(windowSize) - expWindow;
        exp := exp + windowModulus;
      } else {
        negateNext := false;
      }
    }
  }

  /** Zero bits skipped before a window only move its weight. */
  lemma SkippedWeight(origin: nat, passed: int, rest: nat, ahead: nat, start: nat, skipped: nat)
    requires Balanced(origin, passed, rest, start) && ahead * Pow2(skipped) == rest
    ensures Balanced(origin, passed, ahead, start + skipped)
    ensures ahead > 0 ==> rest > 0
  {
    Pow2Add(start, skipped);
    Pow2Increasing(start, start + skipped);
    SkippedProduct(rest, ahead, Pow2(start), Pow2(skipped));
  }

  lemma SkippedProduct(rest: nat, ahead: nat, p: nat, k: nat)
    requires ahead * k == rest && k > 0
    ensures ahead * (p * k) == rest * p
    ensures ahead > 0 ==> rest > 0
  {
    Regroup(ahead, k, p);
    MulStrict(0, ahead, k);
  }

  lemma AheadPositive(digit: int, rest: nat, modulus: int)
    requires -modulus < digit < modulus && digit != 0 && (digit < 0 ==> rest > 0)
    ensures digit + rest * modulus > 0
  {
    if rest > 0 {
      MulStrict(1, rest, modulus);
    }
  }

  lemma SkipZero(x: nat, p: nat)
    requires x % 2 == 0
    ensures (x / 2) * (2 * p) == x * p
  {
    assert x == 2 * (x / 2);
    Regroup(x / 2, 2, p);
  }

  lemma Regroup(a: int, b: int, c: int)
    ensures a * (b * c) == (a * b) * c
    ensures a * (c * b) == (a * b) * c
  {
  }

  /** The low w bits of x. */
  function LowBits(x: nat, w: nat): nat {
    x % Pow2(w)
  }

  /** The window of an odd number is odd; borrowing 2^w from the rest carries one into it. */
  lemma CutWindow(x: nat, w: nat)
    requires x % 2 == 1 && w > 0
    ensures x == Shr(x, w) * Pow2(w) + LowBits(x, w)
    ensures 0 < LowBits(x, w) < Pow2(w)
    ensures LowBits(x, w) % 2 == 1 && (Pow2(w) - LowBits(x, w)) % 2 == 1
    ensures Shr(x + Pow2(w), w) == Shr(x, w) + 1
  {
    ShrIsDiv(x, w);
    ShrShift(x, w, 1);
    OddRemainder(x, Shr(x, w), Pow2(w - 1), x % Pow2(w));
  }

  lemma OddRemainder(x: nat, q: nat, h: nat, r: nat)
    requires x % 2 == 1 && x == q * (2 * h) + r && r < 2 * h
    ensures r % 2 == 1 && (2 * h - r) % 2 == 1
  {
    Regroup(q, 2, h);
    var k := q * h;
    assert q * (2 * h) == 2 * k;
  }

  /** The arithmetic of stepping from a window at weight s to the rest at weight s * m. */
  lemma LeaveWindow(origin: nat, done: int, digit: int, rest: nat, s: int, m: int)
    requires s > 0 && -m < digit < m && digit != 0
    requires origin == done + (digit + rest * m) * s && Abs(done) < s
    requires (digit + rest * m) * s <= 2 * origin
    requires digit < 0 ==> rest >= 2
    ensures origin == (done + digit * s) + rest * (s * m)
    ensures Abs(done + digit * s) < s * m
    ensures rest * (s * m) <= 2 * origin
  {
    MulDistributes(digit, rest * m, s);
    Regroup(rest, m, s);
    MulStrict(digit, m - 1, s);
    MulStrict(1 - m, digit, s);
    MulDistributes(m, -1, s);
    MulDistributes(-m, 1, s);
    assert (-m) * s == -(s * m);
    if digit > 0 {
      MulStrict(0, digit, s);
    } else {
      MulStrict(2, rest, s * m);
    }
  }
}
