/** `AbstractGroup::SimultaneousMultiply`: one base multiplied by many exponents at once. */
module SimultaneousMultiplication {
  import opened Arithmetic
  import opened Groups
  import opened WindowSliding

  /** What a row of buckets stands for: bucket j counts 2j + 1 times. */
  function OddDot(c: seq<int>): int {
    if |c| == 0 then 0
    else OddDot(c[..|c| - 1]) + (2 * |c| - 1) * c[|c| - 1]
  }

  lemma {:induction false} OddDotUpdate(c: seq<int>, j: nat, d: int)
    requires j < |c|
    ensures OddDot(c[j := c[j] + d]) == OddDot(c) + (2 * j + 1) * d
  {
    var n := |c| - 1;
    var c' := c[j := c[j] + d];
    if j == n {
      assert c'[..n] == c[..n];
      MulDistributes(c[n], d, 2 * |c| - 1);
    } else {
      OddDotUpdate(c[..n], j, d);
      assert c'[..n] == c[..n][j := c[j] + d];
    }
  }

  lemma {:induction false} OddDotZero(n: nat)
    ensures OddDot(seq(n, _ => 0)) == 0
  {
    if n > 0 {
      OddDotZero(n - 1);
      assert seq(n, _ => 0)[..n - 1] == seq(n - 1, _ => 0);
    }
  }

  /** Every bucket holds the counted multiple of the base. */
  ghost predicate Holds<T(!new)>(g: Group<T>, base: T, bucket: seq<T>, counts: seq<int>) {
    && |bucket| == |counts|
    && (forall j :: 0 <= j < |bucket| ==> bucket[j] == Times(g, base, counts[j]))
    && (!g.fastNegate ==> forall j :: 0 <= j < |counts| ==> counts[j] >= 0)
  }

  /** The buckets of an exponent account for exactly the windows its slider left behind. */
  ghost predicate Tracks<T(!new)>(g: Group<T>, base: T, slider: WindowSlider, bucket: seq<T>, counts: seq<int>)
    reads slider
  {
    && slider.Valid() && !slider.firstTime && slider.fastNegate == g.fastNegate
    && |bucket| == Pow2(slider.windowSize - 1)
    && Holds(g, base, bucket, counts)
    && OddDot(counts) == slider.done
  }

  ghost predicate CanNegateIfFast<T(!new)>(g: Group<T>) {
    IsMonoid(g) && (g.fastNegate ==> HasInverses(g))
  }

  lemma {:induction false} AtMost(exponents: seq<nat>) returns (limit: nat)
    ensures forall i :: 0 <= i < |exponents| ==> exponents[i] <= limit
  {
    limit := 0;
    for i := 0 to |exponents|
      invariant forall k :: 0 <= k < i ==> exponents[k] <= limit
    {
      limit := if exponents[i] > limit then exponents[i] else limit;
    }
  }

  /** One slider, one row of buckets and one row of counts for each exponent. */
  ghost predicate AllTrack<T(!new)>(g: Group<T>, base: T, exponents: seq<nat>,
                                    sliders: seq<WindowSlider>, buckets: seq<seq<T>>, counts: seq<seq<int>>)
    reads sliders
  {
    && |sliders| == |buckets| == |counts| == |exponents|
    && (forall k, l :: 0 <= k < l < |sliders| ==> sliders[k] != sliders[l])
    && (forall k :: 0 <= k < |sliders| ==>
          sliders[k].origin == exponents[k] && Tracks(g, base, sliders[k], buckets[k], counts[k]))
  }

  /** No unfinished slider in the range has its window before the bit position. */
  ghost predicate AheadOf(sliders: seq<WindowSlider>, from: nat, to: nat, position: nat)
    requires from <= to <= |sliders|
    reads sliders
  {
    forall k :: from <= k < to ==> sliders[k].finished || sliders[k].windowBegin >= position
  }

  /** base multiplied by every exponent. */
  method SimultaneousMultiply<T(!new)>(group: Group<T>, base: T, exponents: seq<nat>) returns (results: seq<T>)
    requires CanNegateIfFast(group)
    ensures |results| == |exponents|
    ensures forall i :: 0 <= i < |results| ==> results[i] == Times(group, base, exponents[i])
  {
    hide Times, AllTrack, AheadOf, FullyCounted;
    var sliders, buckets;
    ghost var counts;
    sliders, buckets, counts := StartSliders(group, base, exponents);

    ghost var limit := AtMost(exponents);
    var expBitPosition := 0;
    var g := base;
    var notDone := true;
    TimesOne(group, base);
    while notDone
      invariant forall k :: 0 <= k < |sliders| ==> fresh(sliders[k])
      invariant AllTrack(group, base, exponents, sliders, buckets, counts)
      invariant notDone ==> g == Times(group, base, Pow2(expBitPosition))
      invariant notDone ==> AheadOf(sliders, 0, |sliders|, expBitPosition)
      invariant !notDone ==> forall k :: 0 <= k < |sliders| ==> sliders[k].finished
      invariant expBitPosition <= 2 * limit
      decreases notDone, 2 * limit - expBitPosition
    {
      notDone, buckets, counts :=
        AbsorbWindowsAt(group, base, g, expBitPosition, exponents, sliders, buckets, counts, limit);
      if notDone {
        g := group.Double(g);
        TimesAdd(group, base, Pow2(expBitPosition), Pow2(expBitPosition));
        expBitPosition := expBitPosition + 1;
      }
    }

    AllFinished(group, base, exponents, sliders, buckets, counts);
    results := CombineAll(group, base, exponents, buckets, counts);
  }

  /** A slider at its first window and empty buckets for every exponent. */
  method StartSliders<T(!new)>(group: Group<T>, base: T, exponents: seq<nat>)
    returns (sliders: seq<WindowSlider>, buckets: seq<seq<T>>, ghost counts: seq<seq<int>>)
    ensures forall k :: 0 <= k < |sliders| ==> fresh(sliders[k])
    ensures AllTrack(group, base, exponents, sliders, buckets, counts)
    ensures AheadOf(sliders, 0, |sliders|, 0)
  {
    hide Tracks;
    sliders, buckets, counts := [], [], [];
    for i := 0 to |exponents|
      invariant |sliders| == i
      invariant forall k :: 0 <= k < i ==> fresh(sliders[k])
      invariant AllTrack(group, base, exponents[..i], sliders, buckets, counts)
    {
      var slider, bucket, count := NewSlider(group, base, exponents[i]);
      sliders, buckets, counts := sliders + [slider], buckets + [bucket], counts + [count];
    }
    assert exponents[..|exponents|] == exponents;
  }

  lemma AllFinished<T(!new)>(g: Group<T>, base: T, exponents: seq<nat>,
                             sliders: seq<WindowSlider>, buckets: seq<seq<T>>, counts: seq<seq<int>>)
    requires AllTrack(g, base, exponents, sliders, buckets, counts)
    requires forall k :: 0 <= k < |sliders| ==> sliders[k].finished
    ensures FullyCounted(g, base, exponents, buckets, counts)
  {
    hide Times, OddDot, Holds;
    forall k | 0 <= k < |buckets|
      ensures Holds(g, base, buckets[k], counts[k]) && |buckets[k]| > 0 && OddDot(counts[k]) == exponents[k]
    {
      assert Tracks(g, base, sliders[k], buckets[k], counts[k]);
    }
  }

  /** Collapses the buckets of every exponent. */
  method CombineAll<T(!new)>(group: Group<T>, base: T, ghost exponents: seq<nat>,
                             buckets: seq<seq<T>>, ghost counts: seq<seq<int>>)
    returns (results: seq<T>)
    requires CanNegateIfFast(group) && FullyCounted(group, base, exponents, buckets, counts)
    ensures |results| == |exponents|
    ensures forall i :: 0 <= i < |results| ==> results[i] == Times(group, base, exponents[i])
  {
    hide Times, OddDot, Holds;
    results := [];
    for i := 0 to |buckets|
      invariant |results| == i
      invariant forall k :: 0 <= k < i ==> results[k] == Times(group, base, exponents[k])
    {
      var r := CombineBuckets(group, base, buckets[i], counts[i]);
      results := results + [r];
    }
  }

  ghost predicate FullyCounted<T(!new)>(g: Group<T>, base: T, exponents: seq<nat>,
                                        buckets: seq<seq<T>>, counts: seq<seq<int>>)
  {
    && |buckets| == |counts| == |exponents|
    && (forall k :: 0 <= k < |buckets| ==>
          Holds(g, base, buckets[k], counts[k]) && |buckets[k]| > 0 && OddDot(counts[k]) == exponents[k])
  }

  lemma WindowBound<T(!new)>(g: Group<T>, base: T, slider: WindowSlider, bucket: seq<T>, counts: seq<int>)
    requires Tracks(g, base, slider, bucket, counts) && !slider.finished
    ensures slider.windowBegin <= 2 * slider.origin
  {
    slider.WindowBounded();
  }

  /** Absorbs every window that starts at the current bit position, where g has its weight. */
  method AbsorbWindowsAt<T(!new)>(group: Group<T>, base: T, g: T, expBitPosition: nat, ghost exponents: seq<nat>,
                                  sliders: seq<WindowSlider>, bucketsIn: seq<seq<T>>, ghost countsIn: seq<seq<int>>,
                                  ghost limit: nat)
    returns (notDone: bool, buckets: seq<seq<T>>, ghost counts: seq<seq<int>>)
    requires CanNegateIfFast(group) && AllTrack(group, base, exponents, sliders, bucketsIn, countsIn)
    requires g == Times(group, base, Pow2(expBitPosition))
    requires AheadOf(sliders, 0, |sliders|, expBitPosition)
    requires forall i :: 0 <= i < |exponents| ==> exponents[i] <= limit
    modifies sliders
    ensures AllTrack(group, base, exponents, sliders, buckets, counts)
    ensures AheadOf(sliders, 0, |sliders|, expBitPosition + 1)
    ensures notDone ==> expBitPosition < 2 * limit
    ensures !notDone ==> forall k :: 0 <= k < |sliders| ==> sliders[k].finished
  {
    hide Times, Tracks;
    notDone, buckets, counts := false, bucketsIn, countsIn;
    for i := 0 to |sliders|
      invariant AllTrack(group, base, exponents, sliders, buckets, counts)
      invariant AheadOf(sliders, i, |sliders|, expBitPosition)
      invariant AheadOf(sliders, 0, i, expBitPosition + 1)
      invariant !notDone ==> forall k :: 0 <= k < i ==> sliders[k].finished
      invariant notDone ==> expBitPosition < 2 * limit
    {
      if !sliders[i].finished && expBitPosition == sliders[i].windowBegin {
        var bucket, count := AbsorbWindow(group, base, g, sliders[i], buckets[i], counts[i]);
        buckets, counts := buckets[i := bucket], counts[i := count];
      }
      if !sliders[i].finished {
        WindowBound(group, base, sliders[i], buckets[i], counts[i]);
      }
      notDone := notDone || !sliders[i].finished;
    }
  }

  /** The slider of one exponent at its first window, with one empty bucket for each odd digit. */
  method NewSlider<T(!new)>(group: Group<T>, base: T, exponent: nat)
    returns (slider: WindowSlider, bucket: seq<T>, ghost counts: seq<int>)
    ensures fresh(slider) && slider.origin == exponent
    ensures Tracks(group, base, slider, bucket, counts)
  {
    slider := new WindowSlider(exponent, group.fastNegate, 0);
    slider.FindNextWindow();
    var size := Pow2(slider.windowSize - 1);
    bucket := seq(size, _ => group.identity);
    counts := seq(size, _ => 0);
    OddDotZero(size);
  }

  /** Adds the current window, whose weight is that of g, to its bucket and finds the next one. */
  method AbsorbWindow<T(!new)>(group: Group<T>, base: T, g: T, slider: WindowSlider, bucket: seq<T>,
                               ghost counts: seq<int>)
    returns (bucket': seq<T>, ghost counts': seq<int>)
    requires CanNegateIfFast(group) && Tracks(group, base, slider, bucket, counts) && !slider.finished
    requires g == Times(group, base, Pow2(slider.windowBegin))
    modifies slider
    ensures Tracks(group, base, slider, bucket', counts')
    ensures slider.finished || slider.windowBegin > old(slider.windowBegin)
  {
    hide OddDot, Times;
    var j := slider.expWindow / 2;
    ghost var weight: int := Pow2(slider.windowBegin);
    assert slider.windowModulus == 2 * Pow2(slider.windowSize - 1);
    if slider.negateNext {
      bucket' := bucket[j := group.add(bucket[j], group.inverse(g))];
      TimesInverse(group, base, weight);
      weight := -weight;
    } else {
      bucket' := bucket[j := group.add(bucket[j], g)];
    }
    counts' := counts[j := counts[j] + weight];
    TimesAdd(group, base, counts[j], weight);
    OddDotUpdate(counts, j, weight);
    SignedProduct(slider.expWindow, Pow2(slider.windowBegin));
    slider.FindNextWindow();
  }

  lemma SignedProduct(a: int, b: int)
    ensures (-a) * b == a * (-b)
  {
  }

  /** The sum of (2j + 1) * bucket[j], by suffix sums. */
  method CombineBuckets<T(!new)>(group: Group<T>, base: T, bucket: seq<T>, ghost counts: seq<int>) returns (r: T)
    requires CanNegateIfFast(group) && Holds(group, base, bucket, counts) && |bucket| > 0
    ensures r == Times(group, base, OddDot(counts))
  {
    hide Times, OddDot;
    r := bucket[|bucket| - 1];
    ghost var n := |bucket|;
    LastSuffix(counts);
    if |bucket| > 1 {
      var sums := bucket;
      var j := |bucket| - 2;
      while j >= 1
        invariant 0 <= j <= n - 2 && |sums| == n
        invariant sums[..j + 1] == bucket[..j + 1]
        invariant sums[j + 1] == Times(group, base, Suffix(counts, j + 1))
        invariant r == Times(group, base, Suffixes(counts, j + 1))
      {
        SuffixSums(group, base, counts, j);
        assert sums[j] == bucket[j];
        sums := sums[j := group.add(sums[j], sums[j + 1])];
        r := group.add(r, sums[j]);
        j := j - 1;
      }
      SuffixSums(group, base, counts, 0);
      assert sums[0] == bucket[0];
      sums := sums[0 := group.add(sums[0], sums[1])];
      r := group.add(group.Double(r), sums[0]);
      LastSum(group, base, counts);
    }
  }

  lemma LastSuffix(counts: seq<int>)
    requires |counts| > 0
    ensures Suffix(counts, |counts| - 1) == Suffixes(counts, |counts| - 1) == counts[|counts| - 1]
    ensures |counts| == 1 ==> OddDot(counts) == counts[0]
  {
    assert Suffix(counts, |counts|) == 0 == Suffixes(counts, |counts|);
    assert counts[..0] == [];
  }

  lemma {:induction false} SuffixNonNegative(counts: seq<int>, j: nat)
    requires j <= |counts| && forall k :: 0 <= k < |counts| ==> counts[k] >= 0
    ensures Suffix(counts, j) >= 0 && Suffixes(counts, j) >= 0
    decreases |counts| - j
  {
    if j < |counts| {
      SuffixNonNegative(counts, j + 1);
    }
  }

  /** One step of the suffix-sum pass. */
  lemma SuffixSums<T(!new)>(g: Group<T>, base: T, counts: seq<int>, j: nat)
    requires CanNegateIfFast(g) && j < |counts|
    requires !g.fastNegate ==> forall k :: 0 <= k < |counts| ==> counts[k] >= 0
    ensures g.add(Times(g, base, counts[j]), Times(g, base, Suffix(counts, j + 1))) == Times(g, base, Suffix(counts, j))
    ensures g.add(Times(g, base, Suffixes(counts, j + 1)), Times(g, base, Suffix(counts, j)))
         == Times(g, base, Suffixes(counts, j))
  {
    if !g.fastNegate {
      SuffixNonNegative(counts, j);
      SuffixNonNegative(counts, j + 1);
    }
    TimesAdd(g, base, counts[j], Suffix(counts, j + 1));
    TimesAdd(g, base, Suffixes(counts, j + 1), Suffix(counts, j));
  }

  lemma LastSum<T(!new)>(g: Group<T>, base: T, counts: seq<int>)
    requires CanNegateIfFast(g) && |counts| > 0
    requires !g.fastNegate ==> forall k :: 0 <= k < |counts| ==> counts[k] >= 0
    ensures g.add(g.Double(Times(g, base, Suffixes(counts, 1))), Times(g, base, Suffix(counts, 0)))
         == Times(g, base, OddDot(counts))
  {
    if !g.fastNegate {
      SuffixNonNegative(counts, 0);
      SuffixNonNegative(counts, 1);
    }
    TimesAdd(g, base, Suffixes(counts, 1), Suffixes(counts, 1));
    TimesAdd(g, base, 2 * Suffixes(counts, 1), Suffix(counts, 0));
    SuffixesMeetDot(counts, 0);
    assert counts[..0] == [];
  }

  /** counts[j] + counts[j + 1] + ... */
  function Suffix(counts: seq<int>, j: nat): int
    requires j <= |counts|
    decreases |counts| - j
  {
    if j == |counts| then 0 else counts[j] + Suffix(counts, j + 1)
  }

  /** The sum of the suffix sums from j on. */
  function Suffixes(counts: seq<int>, j: nat): int
    requires j <= |counts|
    decreases |counts| - j
  {
    if j == |counts| then 0 else Suffix(counts, j) + Suffixes(counts, j + 1)
  }

  /** The odd-weighted sum of the counts from j on, counted from weight 2j + 1. */
  lemma {:induction false} SuffixesMeetDot(counts: seq<int>, j: nat)
    requires j < |counts|
    ensures OddDot(counts)
            == OddDot(counts[..j]) + 2 * j * Suffix(counts, j) + 2 * Suffixes(counts, j) - Suffix(counts, j)
    decreases |counts| - j
  {
    assert counts[..j + 1][..j] == counts[..j];
    if j + 1 == |counts| {
      assert counts[..j + 1] == counts;
    } else {
      SuffixesMeetDot(counts, j + 1);
    }
    MulDistributes(counts[j], Suffix(counts, j + 1), 2 * j);
  }
}
