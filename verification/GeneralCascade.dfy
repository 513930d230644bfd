/** `GeneralCascadeMultiplication`: a sum of many multiples by division steps on a heap of exponents. */
module GeneralCascade {
  import opened Arithmetic
  import opened Groups
  import opened SimultaneousMultiplication
  import opened CascadeMultiplication

  /** `BaseAndExponent`, compared by exponent. */
  datatype Term<T> = Term(base: T, exponent: nat)

  /** No parent is smaller than its child in the first n places, as the C++ standard lays a heap out. */
  ghost predicate IsHeap<T>(s: seq<Term<T>>, n: nat)
    requires n <= |s|
  {
    forall k :: 1 <= k < n ==> BelowParent(s, k)
  }

  ghost predicate BelowParent<T>(s: seq<Term<T>>, k: nat)
    requires 1 <= k < |s|
  {
    s[k].exponent <= s[(k - 1) / 2].exponent
  }

  ghost predicate Permuted<T>(s: seq<Term<T>>, t: seq<Term<T>>) {
    |s| == |t| && multiset(s) == multiset(t)
  }

  /** The heap functions of the C++ standard library, known only by what the standard promises of them. */
  datatype StdHeap<!T> = StdHeap(makeHeap: seq<Term<T>> -> seq<Term<T>>,
                                 pushHeap: seq<Term<T>> -> seq<Term<T>>,
                                 popHeap: seq<Term<T>> -> seq<Term<T>>)
  {
    ghost predicate MakesAt(s: seq<Term<T>>) {
      Permuted(makeHeap(s), s) && IsHeap(makeHeap(s), |s|)
    }

    ghost predicate PushesAt(s: seq<Term<T>>) {
      |s| > 0 && IsHeap(s, |s| - 1) ==> Permuted(pushHeap(s), s) && IsHeap(pushHeap(s), |s|)
    }

    ghost predicate PopsAt(s: seq<Term<T>>) {
      |s| > 0 && IsHeap(s, |s|) ==>
        Permuted(popHeap(s), s) && popHeap(s)[|s| - 1] == s[0] && IsHeap(popHeap(s), |s| - 1)
    }
  }

  ghost predicate IsStdHeap<T(!new)>(h: StdHeap<T>) {
    (forall s :: h.MakesAt(s)) && (forall s :: h.PushesAt(s)) && (forall s :: h.PopsAt(s))
  }

  /** The root of a heap is its largest term. */
  lemma {:induction false} RootIsLargest<T>(s: seq<Term<T>>, n: nat, k: nat)
    requires k < n <= |s| && IsHeap(s, n)
    ensures s[k].exponent <= s[0].exponent
  {
    if k > 0 {
      assert BelowParent(s, k);
      RootIsLargest(s, n, (k - 1) / 2);
    }
  }

  /** The specification: the sum of all exponent * base. */
  function Sum<T(!new)>(g: Group<T>, s: seq<Term<T>>): T {
    if |s| == 0 then g.identity
    else g.add(Sum(g, s[..|s| - 1]), Times(g, s[|s| - 1].base, s[|s| - 1].exponent))
  }

  function Total<T>(s: seq<Term<T>>): nat {
    if |s| == 0 then 0 else Total(s[..|s| - 1]) + s[|s| - 1].exponent
  }

  function Value<T(!new)>(g: Group<T>, t: Term<T>): T {
    Times(g, t.base, t.exponent)
  }

  /** s without place k. */
  function Without<T>(s: seq<T>, k: nat): seq<T>
    requires k < |s|
  {
    s[..k] + s[k + 1..]
  }

  lemma {:induction false} SumTakesOut<T(!new)>(g: Group<T>, s: seq<Term<T>>, k: nat)
    requires IsCommutativeMonoid(g) && k < |s|
    ensures Sum(g, s) == g.add(Sum(g, Without(s, k)), Value(g, s[k]))
    ensures Total(s) == Total(Without(s, k)) + s[k].exponent
  {
    var n := |s| - 1;
    if k == n {
      assert Without(s, k) == s[..n];
    } else {
      SumTakesOut(g, s[..n], k);
      assert Without(s, k)[..n - 1] == Without(s[..n], k);
      var a, b, c := Sum(g, Without(s[..n], k)), Value(g, s[k]), Value(g, s[n]);
      assert g.AssociativeAt(a, b, c) && g.CommutativeAt(b, c) && g.AssociativeAt(a, c, b);
    }
  }

  /** The sum does not depend on the order of the terms. */
  lemma {:induction false} SumPermuted<T(!new)>(g: Group<T>, s: seq<Term<T>>, t: seq<Term<T>>)
    requires IsCommutativeMonoid(g) && multiset(s) == multiset(t)
    ensures |s| == |t| && Sum(g, s) == Sum(g, t) && Total(s) == Total(t)
  {
    assert |multiset(s)| == |s| && |multiset(t)| == |t|;
    if |s| > 0 {
      var last := |s| - 1;
      assert s[last] in multiset(s);
      var k :| 0 <= k < |t| && t[k] == s[last];
      SumTakesOut(g, t, k);
      assert s == s[..last] + [s[last]];
      assert t == t[..k] + [t[k]] + t[k + 1..];
      assert multiset(Without(t, k)) == multiset(t) - multiset{t[k]};
      assert multiset(s[..last]) == multiset(s) - multiset{s[last]};
      SumPermuted(g, s[..last], Without(t, k));
    }
  }

  /** A term of s is no larger than the root of a heap with the same terms. */
  lemma RootBoundsTerm<T>(heap: seq<Term<T>>, s: seq<Term<T>>, k: nat)
    requires Permuted(s, heap) && IsHeap(heap, |heap|) && k < |s|
    ensures s[k].exponent <= heap[0].exponent
  {
    assert s[k] in multiset(heap);
    var j :| 0 <= j < |heap| && heap[j] == s[k];
    RootIsLargest(heap, |heap|, j);
  }

  /** exponent * base of one term. */
  method ScalarMultiply<T(!new)>(group: Group<T>, base: T, exponent: nat) returns (result: T)
    requires CanNegateIfFast(group)
    ensures result == Times(group, base, exponent)
  {
    var results := SimultaneousMultiply(group, base, [exponent]);
    result := results[0];
  }

  /** What holds between two rounds: the last term is the largest, the others form a heap,
      and the terms still add up to what was asked for. */
  ghost predicate BetweenRounds<T(!new)>(g: Group<T>, terms: seq<Term<T>>, asked: seq<Term<T>>) {
    && |terms| == |asked| >= 3
    && IsHeap(terms, |terms| - 1)
    && terms[0].exponent <= terms[|terms| - 1].exponent
    && Sum(g, terms) == Sum(g, asked)
  }

  /** A pair as the caller gives it. */
  datatype SignedTerm<T> = SignedTerm(base: T, exponent: int)

  /** The terms without the signs of their exponents. */
  function Magnitudes<T>(asked: seq<SignedTerm<T>>): (terms: seq<Term<T>>)
    ensures |terms| == |asked|
  {
    seq(|asked|, i requires 0 <= i < |asked| => Term(asked[i].base, Abs(asked[i].exponent)))
  }

  ghost predicate NoneNegative<T>(asked: seq<SignedTerm<T>>) {
    forall k :: 0 <= k < |asked| ==> asked[k].exponent >= 0
  }

  /** The sum of exponent * base over all terms; two terms are combined without regard to signs. */
  method GeneralCascadeMultiplication<T(!new)>(group: Group<T>, heap: StdHeap<T>, asked: seq<SignedTerm<T>>, blank: T)
    returns (result: T)
    requires IsCommutativeMonoid(group) && CanNegateIfFast(group) && IsStdHeap(heap)
    requires |asked| > 0 && (|asked| != 2 ==> NoneNegative(asked))
    ensures result == Sum(group, Magnitudes(asked))
  {
    hide Sum, Times, Total, BetweenRounds;
    ghost var sum := Magnitudes(asked);
    SmallSums(group, sum);
    if |asked| == 1 {
      result := ScalarMultiply(group, asked[0].base, asked[0].exponent);
    } else if |asked| == 2 {
      result := CascadeScalarMultiply(group, asked[0].base, asked[0].exponent, asked[1].base, asked[1].exponent, blank);
    } else {
      var terms := seq(|asked|, i requires 0 <= i < |asked| => Term(asked[i].base, asked[i].exponent));
      assert terms == sum;
      terms := MakeAndPop(group, heap, terms);
      var last := |terms| - 1;
      while terms[0].exponent != 0
        invariant |terms| == |sum| && BetweenRounds(group, terms, sum)
        decreases Total(terms)
      {
        terms := DivideStep(group, terms, sum);
        terms := PushAndPop(group, heap, terms, sum);
      }
      OnlyLastLeft(group, terms, sum);
      result := ScalarMultiply(group, terms[last].base, terms[last].exponent);
    }
  }

  lemma SmallSums<T(!new)>(g: Group<T>, s: seq<Term<T>>)
    requires IsCommutativeMonoid(g)
    ensures |s| == 1 ==> Sum(g, s) == Value(g, s[0])
    ensures |s| == 2 ==> Sum(g, s) == Comb(g, s[0].base, s[1].base, s[0].exponent, s[1].exponent)
  {
    if |s| == 1 || |s| == 2 {
      assert g.NeutralAt(Value(g, s[0]));
      assert s[..1][..0] == [];
      assert Sum(g, s[..1]) == Value(g, s[0]);
    }
  }

  /** make_heap, then pop_heap. */
  method MakeAndPop<T(!new)>(ghost group: Group<T>, heap: StdHeap<T>, asked: seq<Term<T>>) returns (terms: seq<Term<T>>)
    requires IsCommutativeMonoid(group) && IsStdHeap(heap) && |asked| >= 3
    ensures |terms| == |asked| && BetweenRounds(group, terms, asked)
  {
    hide Sum, Total;
    assert heap.MakesAt(asked);
    var made := heap.makeHeap(asked);
    assert heap.PopsAt(made);
    terms := heap.popHeap(made);
    RootBoundsTerm(made, terms, 0);
    SumPermuted(group, made, asked);
    SumPermuted(group, terms, made);
  }

  /** push_heap, then pop_heap. */
  method PushAndPop<T(!new)>(ghost group: Group<T>, heap: StdHeap<T>, divided: seq<Term<T>>, ghost asked: seq<Term<T>>)
    returns (terms: seq<Term<T>>)
    requires IsCommutativeMonoid(group) && IsStdHeap(heap)
    requires |divided| == |asked| >= 3 && IsHeap(divided, |divided| - 1) && Sum(group, divided) == Sum(group, asked)
    ensures |terms| == |asked| && BetweenRounds(group, terms, asked) && Total(terms) == Total(divided)
  {
    hide Sum, Total;
    assert heap.PushesAt(divided);
    var pushed := heap.pushHeap(divided);
    assert heap.PopsAt(pushed);
    terms := heap.popHeap(pushed);
    RootBoundsTerm(pushed, terms, 0);
    SumPermuted(group, pushed, divided);
    SumPermuted(group, terms, pushed);
  }

  /** Divides the largest exponent by the next largest and moves the quotient into the other base. */
  method DivideStep<T(!new)>(group: Group<T>, terms: seq<Term<T>>, ghost asked: seq<Term<T>>)
    returns (divided: seq<Term<T>>)
    requires IsCommutativeMonoid(group) && CanNegateIfFast(group)
    requires BetweenRounds(group, terms, asked) && terms[0].exponent != 0
    ensures |divided| == |asked| && IsHeap(divided, |divided| - 1)
    ensures Sum(group, divided) == Sum(group, asked) && Total(divided) < Total(terms)
  {
    hide Sum, Times, Total;
    var last := |terms| - 1;
    var t := terms[last].exponent;
    var q := t / terms[0].exponent;
    divided := terms[last := terms[last].(exponent := t % terms[0].exponent)];
    var increment;
    if q == 1 {
      increment := terms[last].base;
      TimesOne(group, increment);
    } else {
      increment := ScalarMultiply(group, terms[last].base, q);
    }
    divided := divided[0 := divided[0].(base := group.add(divided[0].base, increment))];
    assert forall k :: 1 <= k < last ==> BelowParent(terms, k) ==> BelowParent(divided, k);
    DivideStepKeepsSum(group, terms, divided, increment, q);
  }

  lemma DivideStepKeepsSum<T(!new)>(g: Group<T>, terms: seq<Term<T>>, divided: seq<Term<T>>, increment: T, q: nat)
    requires IsCommutativeMonoid(g) && |terms| >= 3
    requires 0 < terms[0].exponent <= terms[|terms| - 1].exponent
    requires q == terms[|terms| - 1].exponent / terms[0].exponent
    requires increment == Times(g, terms[|terms| - 1].base, q)
    requires divided ==
             terms[|terms| - 1 := Term(terms[|terms| - 1].base, terms[|terms| - 1].exponent % terms[0].exponent)]
                             [0 := Term(g.add(terms[0].base, increment), terms[0].exponent)]
    ensures Sum(g, divided) == Sum(g, terms) && Total(divided) < Total(terms)
  {
    hide Sum, Times, Total;
    var last := |terms| - 1;
    var middle := Without(terms[..last], 0);
    SumTakesOut(g, terms, last);
    SumTakesOut(g, divided, last);
    assert Without(terms, last) == terms[..last] && Without(divided, last) == divided[..last];
    SumTakesOut(g, terms[..last], 0);
    SumTakesOut(g, divided[..last], 0);
    assert Without(divided[..last], 0) == middle;
    var b, t := terms[0].exponent, terms[last].exponent;
    var x, y := terms[0].base, terms[last].base;
    DivisionDecreases(t, b);
    // b(x + qy) + (t mod b)y = bx + ty
    TimesDistributes(g, x, increment, b);
    TimesTimes(g, y, q, b);
    TimesAdd(g, y, b * q, t % b);
    var s, bx, bqy, ry := Sum(g, middle), Times(g, x, b), Times(g, y, b * q), Times(g, y, t % b);
    assert g.AssociativeAt(s, g.add(bx, bqy), ry) && g.AssociativeAt(bx, bqy, ry);
    assert g.AssociativeAt(s, bx, Times(g, y, t));
  }

  lemma DivisionDecreases(t: nat, b: nat)
    requires 0 < b <= t
    ensures b * (t / b) + t % b == t && t % b < t
  {
  }

  /** With the largest of the others zero, only the last term counts. */
  lemma OnlyLastLeft<T(!new)>(g: Group<T>, terms: seq<Term<T>>, asked: seq<Term<T>>)
    requires IsCommutativeMonoid(g) && BetweenRounds(g, terms, asked) && terms[0].exponent == 0
    ensures Sum(g, asked) == Value(g, terms[|terms| - 1])
  {
    var last := |terms| - 1;
    forall k | 0 <= k < last
      ensures terms[k].exponent == 0
    {
      RootIsLargest(terms, last, k);
    }
    SumOfZeros(g, terms[..last]);
    assert g.NeutralAt(Value(g, terms[last]));
  }

  lemma {:induction false} SumOfZeros<T(!new)>(g: Group<T>, s: seq<Term<T>>)
    requires IsCommutativeMonoid(g) && forall k :: 0 <= k < |s| ==> s[k].exponent == 0
    ensures Sum(g, s) == g.identity
  {
    if |s| > 0 {
      SumOfZeros(g, s[..|s| - 1]);
      assert g.NeutralAt(g.identity);
    }
  }

  // The standard's promises can be kept: a vector sorted from the largest down is a heap.

  function Insert<T>(t: Term<T>, s: seq<Term<T>>): seq<Term<T>> {
    if |s| == 0 || t.exponent >= s[0].exponent then [t] + s else [s[0]] + Insert(t, s[1..])
  }

  function Sort<T>(s: seq<Term<T>>): seq<Term<T>> {
    if |s| == 0 then [] else Insert(s[0], Sort(s[1..]))
  }

  function SortingHeap<T>(): StdHeap<T> {
    StdHeap((s: seq<Term<T>>) => Sort(s), (s: seq<Term<T>>) => Sort(s),
            (s: seq<Term<T>>) => if |s| == 0 then s else Sort(s[1..]) + [s[0]])
  }

  ghost predicate Descending<T>(s: seq<Term<T>>) {
    forall i, j :: 0 <= i < j < |s| ==> s[i].exponent >= s[j].exponent
  }

  lemma {:induction false} InsertBounded<T>(t: Term<T>, s: seq<Term<T>>, bound: nat)
    requires t.exponent <= bound && forall k :: 0 <= k < |s| ==> s[k].exponent <= bound
    ensures forall k :: 0 <= k < |Insert(t, s)| ==> Insert(t, s)[k].exponent <= bound
  {
    if |s| > 0 && t.exponent < s[0].exponent {
      InsertBounded(t, s[1..], bound);
    }
  }

  lemma {:induction false} InsertIntoDescending<T>(t: Term<T>, s: seq<Term<T>>)
    requires Descending(s)
    ensures Descending(Insert(t, s))
  {
    if |s| > 0 && t.exponent < s[0].exponent {
      InsertIntoDescending(t, s[1..]);
      InsertBounded(t, s[1..], s[0].exponent);
    }
  }

  lemma {:induction false} InsertPermutes<T>(t: Term<T>, s: seq<Term<T>>)
    ensures |Insert(t, s)| == |s| + 1
    ensures multiset(Insert(t, s)) == multiset{t} + multiset(s)
  {
    if |s| > 0 && t.exponent < s[0].exponent {
      InsertPermutes(t, s[1..]);
      assert s == [s[0]] + s[1..];
    }
  }

  lemma {:induction false} SortDescends<T>(s: seq<Term<T>>)
    ensures Descending(Sort(s)) && Permuted(Sort(s), s)
  {
    if |s| > 0 {
      SortDescends(s[1..]);
      InsertIntoDescending(s[0], Sort(s[1..]));
      InsertPermutes(s[0], Sort(s[1..]));
      assert s == [s[0]] + s[1..];
    }
  }

  lemma DescendingIsHeap<T>(s: seq<Term<T>>, n: nat)
    requires n <= |s| && Descending(s[..n])
    ensures IsHeap(s, n)
  {
    forall k | 1 <= k < n
      ensures BelowParent(s, k)
    {
      assert s[..n][(k - 1) / 2] == s[(k - 1) / 2] && s[..n][k] == s[k];
    }
  }

  lemma SortMakesHeap<T>(s: seq<Term<T>>)
    ensures Permuted(Sort(s), s) && IsHeap(Sort(s), |s|)
  {
    SortDescends(s);
    assert Sort(s)[..|s|] == Sort(s);
    DescendingIsHeap(Sort(s), |s|);
  }

  lemma SortPopsHeap<T>(s: seq<Term<T>>)
    requires |s| > 0
    ensures var popped := Sort(s[1..]) + [s[0]];
            Permuted(popped, s) && popped[|s| - 1] == s[0] && IsHeap(popped, |s| - 1)
  {
    SortDescends(s[1..]);
    assert s == [s[0]] + s[1..];
    assert (Sort(s[1..]) + [s[0]])[..|s| - 1] == Sort(s[1..]);
    DescendingIsHeap(Sort(s[1..]) + [s[0]], |s| - 1);
  }

  lemma StdHeapExists<T(!new)>()
    ensures IsStdHeap(SortingHeap<T>())
  {
    hide Sort, Permuted, IsHeap;
    var h := SortingHeap<T>();
    forall s: seq<Term<T>>
      ensures h.MakesAt(s) && h.PushesAt(s)
    {
      SortMakesHeap(s);
    }
    forall s: seq<Term<T>>
      ensures h.PopsAt(s)
    {
      if |s| > 0 {
        SortPopsHeap(s);
      }
    }
  }
}
