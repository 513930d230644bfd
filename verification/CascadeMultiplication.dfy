/** `AbstractGroup::CascadeScalarMultiply`: a sum of two multiples by one pass over both exponents. */
module CascadeMultiplication {
  import opened Arithmetic
  import opened Groups

  /** The specification: a * x + b * y. */
  function Comb<T(!new)>(g: Group<T>, x: T, y: T, a: nat, b: nat): T {
    g.add(Times(g, x, a), Times(g, y, b))
  }

  ghost predicate IsCommutativeMonoid<T(!new)>(g: Group<T>) {
    IsMonoid(g) && IsCommutative(g)
  }

  lemma CombAdd<T(!new)>(g: Group<T>, x: T, y: T, a: nat, b: nat, c: nat, d: nat)
    requires IsCommutativeMonoid(g)
    ensures g.add(Comb(g, x, y, a, b), Comb(g, x, y, c, d)) == Comb(g, x, y, a + c, b + d)
  {
    Interchange(g, Times(g, x, a), Times(g, y, b), Times(g, x, c), Times(g, y, d));
    TimesAdd(g, x, a, c);
    TimesAdd(g, y, b, d);
  }

  lemma CombBases<T(!new)>(g: Group<T>, x: T, y: T)
    requires IsCommutativeMonoid(g)
    ensures Comb(g, x, y, 0, 0) == g.identity
    ensures Comb(g, x, y, 1, 0) == x && Comb(g, x, y, 0, 1) == y
  {
    TimesOne(g, x);
    TimesOne(g, y);
    assert g.NeutralAt(x) && g.NeutralAt(y) && g.NeutralAt(g.identity);
  }

  /** The slot of the power table for the window values p1 and p2; windows are 1 to 3 bits wide. */
  function Slot(w: nat, p1: nat, p2: nat): nat
    requires 1 <= w <= 3
  {
    if w == 1 then 2 * p2 + p1 else if w == 2 then 4 * p2 + p1 else 8 * p2 + p1
  }

  function TableSize(w: nat): (size: nat)
    requires 1 <= w <= 3
    ensures size == Pow2(w) && size % 2 == 0 && size >= 2
  {
    assert Pow2(1) == 2 && Pow2(2) == 4 && Pow2(3) == 8 by {
      assert Pow2(0) == 1;
    }
    if w == 1 then 2 else if w == 2 then 4 else 8
  }

  ghost predicate Filled<T(!new)>(g: Group<T>, x: T, y: T, table: array<T>, w: nat, p1: nat, p2: nat)
    requires 1 <= w <= 3
    reads table
  {
    && p1 < TableSize(w) && p2 < TableSize(w)
    && Slot(w, p1, p2) < table.Length
    && table[Slot(w, p1, p2)] == Comb(g, x, y, p1, p2)
  }

  /** Every slot with an odd coordinate is filled; the others may hold anything. */
  ghost predicate TableReady<T(!new)>(g: Group<T>, x: T, y: T, table: array<T>, w: nat)
    requires 1 <= w <= 3
    reads table
  {
    table.Length == TableSize(w) * TableSize(w) &&
    forall p1: nat, p2: nat ::
      p1 < TableSize(w) && p2 < TableSize(w) && (p1 % 2 == 1 || p2 % 2 == 1) ==> Filled(g, x, y, table, w, p1, p2)
  }

  /** Fills slot j with the sum of two filled ones. */
  method Fill<T(!new)>(group: Group<T>, x: T, y: T, table: array<T>, w: nat, j: nat, value: T, ghost p1: nat,
                       ghost p2: nat)
    requires 1 <= w <= 3 && table.Length == TableSize(w) * TableSize(w)
    requires p1 < TableSize(w) && p2 < TableSize(w) && j == Slot(w, p1, p2)
    requires value == Comb(group, x, y, p1, p2)
    modifies table
    ensures Filled(group, x, y, table, w, p1, p2)
    ensures forall q1: nat, q2: nat :: old(Filled(group, x, y, table, w, q1, q2)) ==>
              Filled(group, x, y, table, w, q1, q2)
  {
    table[j] := value;
  }

  /** The table of p1 * x + p2 * y, in the order the source fills it. */
  method FillPowerTable<T(!new)>(group: Group<T>, x: T, y: T, w: nat, blank: T) returns (table: array<T>)
    requires IsCommutativeMonoid(group) && 1 <= w <= 3
    ensures fresh(table)
    ensures TableReady(group, x, y, table, w)
  {
    hide Filled, Comb;
    var tableSize := TableSize(w);
    table := new T[tableSize * tableSize](_ => blank);
    CombBases(group, x, y);
    Fill(group, x, y, table, w, 1, x, 1, 0);
    Fill(group, x, y, table, w, tableSize, y, 0, 1);
    if w == 1 {
      CombAdd(group, x, y, 1, 0, 0, 1);
      Fill(group, x, y, table, w, 3, group.add(x, y), 1, 1);
    } else {
      CombAdd(group, x, y, 1, 0, 1, 0);
      CombAdd(group, x, y, 0, 1, 0, 1);
      Fill(group, x, y, table, w, 2, group.Double(x), 2, 0);
      Fill(group, x, y, table, w, 2 * tableSize, group.Double(y), 0, 2);
      FillOddX(group, x, y, table, w);
      FillOddXColumns(group, x, y, table, w);
      FillOddY(group, x, y, table, w);
      FillEvenX(group, x, y, table, w);
    }
  }

  /** Row p2 = 0: odd multiples of x. */
  method FillOddX<T(!new)>(group: Group<T>, x: T, y: T, table: array<T>, w: nat)
    requires IsCommutativeMonoid(group) && 2 <= w <= 3 && table.Length == TableSize(w) * TableSize(w)
    requires Filled(group, x, y, table, w, 1, 0) && Filled(group, x, y, table, w, 2, 0)
    modifies table
    ensures forall q1: nat, q2: nat :: old(Filled(group, x, y, table, w, q1, q2)) ==>
              Filled(group, x, y, table, w, q1, q2)
    ensures forall p: nat :: p < TableSize(w) && p % 2 == 1 ==> Filled(group, x, y, table, w, p, 0)
  {
    hide Comb;
    var i := 3;
    while i < TableSize(w)
      invariant i % 2 == 1 && 3 <= i
      invariant forall q1: nat, q2: nat :: old(Filled(group, x, y, table, w, q1, q2)) ==>
                  Filled(group, x, y, table, w, q1, q2)
      invariant forall p: nat :: p < i && p < TableSize(w) && p % 2 == 1 ==> Filled(group, x, y, table, w, p, 0)
    {
      assert Filled(group, x, y, table, w, i - 2, 0) && Filled(group, x, y, table, w, 2, 0);
      CombAdd(group, x, y, i - 2, 0, 2, 0);
      Fill(group, x, y, table, w, i, group.add(table[i - 2], table[2]), i, 0);
      i := i + 2;
    }
  }

  /** Columns of odd p1: add y row by row. */
  method FillOddXColumns<T(!new)>(group: Group<T>, x: T, y: T, table: array<T>, w: nat)
    requires IsCommutativeMonoid(group) && 2 <= w <= 3 && table.Length == TableSize(w) * TableSize(w)
    requires forall p: nat :: p < TableSize(w) && p % 2 == 1 ==> Filled(group, x, y, table, w, p, 0)
    modifies table
    ensures forall q1: nat, q2: nat :: old(Filled(group, x, y, table, w, q1, q2)) ==>
              Filled(group, x, y, table, w, q1, q2)
    ensures forall p: nat, q: nat :: p < TableSize(w) && q < TableSize(w) && p % 2 == 1 ==>
              Filled(group, x, y, table, w, p, q)
  {
    hide Comb, Filled;
    var tableSize := TableSize(w);
    CombBases(group, x, y);
    var i := 1;
    while i < tableSize
      invariant i % 2 == 1
      invariant forall q1: nat, q2: nat :: old(Filled(group, x, y, table, w, q1, q2)) ==>
                  Filled(group, x, y, table, w, q1, q2)
      invariant forall p: nat, q: nat :: p < i && p < tableSize && q < tableSize && p % 2 == 1 ==>
                  Filled(group, x, y, table, w, p, q)
    {
      var j := i + tableSize;
      ghost var q := 1;
      while j < tableSize * tableSize
        invariant q >= 1 && j == Slot(w, i, q)
        invariant forall q1: nat, q2: nat :: old(Filled(group, x, y, table, w, q1, q2)) ==>
                    Filled(group, x, y, table, w, q1, q2)
        invariant forall p: nat, r: nat :: p < i && p < tableSize && r < tableSize && p % 2 == 1 ==>
                    Filled(group, x, y, table, w, p, r)
        invariant forall r: nat :: r < q && r < tableSize ==> Filled(group, x, y, table, w, i, r)
      {
        assert Filled(group, x, y, table, w, i, q - 1);
        SlotValue(group, x, y, table, w, i, q - 1);
        CombAdd(group, x, y, i, q - 1, 0, 1);
        Fill(group, x, y, table, w, j, group.add(table[j - tableSize], y), i, q);
        j, q := j + tableSize, q + 1;
      }
      i := i + 2;
    }
  }

  lemma SlotValue<T(!new)>(g: Group<T>, x: T, y: T, table: array<T>, w: nat, p1: nat, p2: nat)
    requires 1 <= w <= 3 && Filled(g, x, y, table, w, p1, p2)
    ensures Slot(w, p1, p2) < table.Length && table[Slot(w, p1, p2)] == Comb(g, x, y, p1, p2)
  {
  }

  /** Column p1 = 0: odd multiples of y. */
  method FillOddY<T(!new)>(group: Group<T>, x: T, y: T, table: array<T>, w: nat)
    requires IsCommutativeMonoid(group) && 2 <= w <= 3 && table.Length == TableSize(w) * TableSize(w)
    requires Filled(group, x, y, table, w, 0, 1) && Filled(group, x, y, table, w, 0, 2)
    modifies table
    ensures forall q1: nat, q2: nat :: old(Filled(group, x, y, table, w, q1, q2)) ==>
              Filled(group, x, y, table, w, q1, q2)
    ensures forall q: nat :: q < TableSize(w) && q % 2 == 1 ==> Filled(group, x, y, table, w, 0, q)
  {
    hide Comb, Filled;
    var tableSize := TableSize(w);
    var i := 3 * tableSize;
    ghost var q := 3;
    while i < tableSize * tableSize
      invariant q >= 3 && q % 2 == 1 && i == Slot(w, 0, q)
      invariant forall q1: nat, q2: nat :: old(Filled(group, x, y, table, w, q1, q2)) ==>
                  Filled(group, x, y, table, w, q1, q2)
      invariant forall r: nat :: r < q && r < tableSize && r % 2 == 1 ==> Filled(group, x, y, table, w, 0, r)
    {
      SlotValue(group, x, y, table, w, 0, q - 2);
      SlotValue(group, x, y, table, w, 0, 2);
      CombAdd(group, x, y, 0, q - 2, 0, 2);
      Fill(group, x, y, table, w, i, group.add(table[i - 2 * tableSize], table[2 * tableSize]), 0, q);
      i, q := i + 2 * tableSize, q + 2;
    }
  }

  /** Rows of odd p2: even p1 from the odd one before it. */
  method FillEvenX<T(!new)>(group: Group<T>, x: T, y: T, table: array<T>, w: nat)
    requires IsCommutativeMonoid(group) && 2 <= w <= 3 && table.Length == TableSize(w) * TableSize(w)
    requires forall p: nat, q: nat :: p < TableSize(w) && q < TableSize(w) && p % 2 == 1 ==>
               Filled(group, x, y, table, w, p, q)
    requires forall q: nat :: q < TableSize(w) && q % 2 == 1 ==> Filled(group, x, y, table, w, 0, q)
    modifies table
    ensures TableReady(group, x, y, table, w)
  {
    hide Comb, Filled;
    var tableSize := TableSize(w);
    CombBases(group, x, y);
    var i := tableSize;
    ghost var q := 1;
    while i < tableSize * tableSize
      invariant q % 2 == 1 && i == Slot(w, 0, q)
      invariant forall q1: nat, q2: nat :: old(Filled(group, x, y, table, w, q1, q2)) ==>
                  Filled(group, x, y, table, w, q1, q2)
      invariant forall p: nat, r: nat :: p < tableSize && r < q && r < tableSize && r % 2 == 1 ==>
                  Filled(group, x, y, table, w, p, r)
    {
      var j := i + 2;
      ghost var p := 2;
      while j < i + tableSize
        invariant p >= 2 && p % 2 == 0 && j == Slot(w, p, q)
        invariant forall q1: nat, q2: nat :: old(Filled(group, x, y, table, w, q1, q2)) ==>
                    Filled(group, x, y, table, w, q1, q2)
        invariant forall p': nat, r: nat :: p' < tableSize && r < q && r < tableSize && r % 2 == 1 ==>
                    Filled(group, x, y, table, w, p', r)
        invariant forall p': nat :: p' < p && p' < tableSize ==> Filled(group, x, y, table, w, p', q)
      {
        assert Filled(group, x, y, table, w, p - 1, q);
        SlotValue(group, x, y, table, w, p - 1, q);
        CombAdd(group, x, y, p - 1, q, 1, 0);
        Fill(group, x, y, table, w, j, group.add(table[j - 1], x), p, q);
        j, p := j + 2, p + 2;
      }
      i, q := i + 2 * tableSize, q + 2;
    }
  }

  /** Doubles n times. */
  method DoubleTimes<T(!new)>(group: Group<T>, x: T, y: T, r: T, n: nat, ghost a: nat, ghost b: nat) returns (result: T)
    requires IsCommutativeMonoid(group) && r == Comb(group, x, y, a, b)
    ensures result == Comb(group, x, y, a * Pow2(n), b * Pow2(n))
  {
    hide Comb;
    result := r;
    ghost var c: nat, d: nat := a, b;
    var left := n;
    while left > 0
      invariant 0 <= left <= n
      invariant result == Comb(group, x, y, c, d)
      invariant c * Pow2(left) == a * Pow2(n) && d * Pow2(left) == b * Pow2(n)
    {
      CombAdd(group, x, y, c, d, c, d);
      Halve(c, Pow2(left - 1));
      Halve(d, Pow2(left - 1));
      result := group.Double(result);
      c, d, left := 2 * c, 2 * d, left - 1;
    }
  }

  lemma Halve(c: int, p: int)
    ensures c * (2 * p) == (2 * c) * p
  {
  }

  /** Takes the common factors of two out of the window values and postpones as many doublings. */
  method StripCommonTwos(power1: nat, power2: nat, squaresBefore: nat)
    returns (p1: nat, p2: nat, before: nat, after: nat)
    requires power1 < Pow2(squaresBefore + 1) && power2 < Pow2(squaresBefore + 1)
    ensures p1 * Pow2(after) == power1 && p2 * Pow2(after) == power2
    ensures before + after == squaresBefore
    ensures p1 <= power1 && p2 <= power2
    ensures p1 % 2 == 1 || p2 % 2 == 1 || (power1 == power2 == 0 && after == 0)
  {
    p1, p2, before, after := power1, power2, squaresBefore, 0;
    while (p1 > 0 || p2 > 0) && p1 % 2 == 0 && p2 % 2 == 0
      invariant p1 * Pow2(after) == power1 && p2 * Pow2(after) == power2
      invariant before + after == squaresBefore
      invariant p1 < Pow2(before + 1) && p2 < Pow2(before + 1)
      invariant p1 <= power1 && p2 <= power2
      invariant p1 > 0 || p2 > 0 || (power1 == power2 == 0 && after == 0)
      decreases p1 + p2
    {
      Halve(p1 / 2, Pow2(after));
      Halve(p2 / 2, Pow2(after));
      p1, p2, before, after := p1 / 2, p2 / 2, before - 1, after + 1;
    }
  }

  /** The bits of e from position i up are the folded ones from prevPosition up, then the window value. */
  ghost predicate Pending(e: nat, expLen: nat, i: nat, firstTime: bool, prevPosition: nat, power: nat) {
    if firstTime then
      i <= expLen && Shr(e, i) == power && power < Pow2(expLen - i)
    else
      && i <= prevPosition
      && Shr(e, i) == Shr(e, prevPosition) * Pow2(prevPosition - i) + power
      && power < Pow2(prevPosition - i)
  }

  /** How far the pass has come with the bits of e1 and e2 from position i up. */
  ghost predicate Progress<T(!new)>(g: Group<T>, x: T, y: T, e1: nat, e2: nat, expLen: nat, i: nat,
                                    firstTime: bool, prevPosition: nat, power1: nat, power2: nat, result: T)
  {
    && Pending(e1, expLen, i, firstTime, prevPosition, power1)
    && Pending(e2, expLen, i, firstTime, prevPosition, power2)
    && (firstTime ==> prevPosition + 1 == expLen && (i < expLen ==> power1 > 0 || power2 > 0))
    && (!firstTime ==> result == Comb(g, x, y, Shr(e1, prevPosition), Shr(e2, prevPosition)))
  }

  lemma PendingReadsBit(e: nat, expLen: nat, i: nat, firstTime: bool, prevPosition: nat, power: nat)
    requires Pending(e, expLen, i, firstTime, prevPosition, power) && i > 0
    ensures Pending(e, expLen, i - 1, firstTime, prevPosition, 2 * power + Bit(GetBit(e, i - 1)))
  {
    assert Shr(e, i) == Shr(e, i - 1) / 2;
    if !firstTime {
      Halve(Shr(e, prevPosition), Pow2(prevPosition - i));
      Twice(Shr(e, prevPosition), Pow2(prevPosition - i));
    }
  }

  lemma Twice(c: int, p: int)
    ensures c * (2 * p) == 2 * (c * p)
  {
  }

  /** Doubling before and after adding the stripped window value is the same as folding it in at once. */
  lemma PendingApplied(e: nat, expLen: nat, i: nat, firstTime: bool, prevPosition: nat, power: nat,
                       p: nat, before: nat, after: nat)
    requires Pending(e, expLen, i, firstTime, prevPosition, power) && i <= prevPosition
    requires p * Pow2(after) == power && before + after == prevPosition - i
    ensures firstTime ==> p * Pow2(after) == Shr(e, i)
    ensures !firstTime ==> (Shr(e, prevPosition) * Pow2(before) + p) * Pow2(after) == Shr(e, i)
  {
    if !firstTime {
      Pow2Add(before, after);
      MulDistributes(Shr(e, prevPosition) * Pow2(before), p, Pow2(after));
      MulAssociates(Shr(e, prevPosition), Pow2(before), Pow2(after));
    }
  }

  /** |e1| * x + |e2| * y. */
  method CascadeScalarMultiply<T(!new)>(group: Group<T>, x: T, e1: int, y: T, e2: int, blank: T) returns (result: T)
    requires IsCommutativeMonoid(group)
    ensures result == Comb(group, x, y, Abs(e1), Abs(e2))
  {
    hide Comb, Progress, TableReady, Pow2, Shr, Times, Abs, Bit, GetBit, BitCount, TableSize, IsCommutativeMonoid;
    var a1: nat, a2: nat := Abs(e1), Abs(e2);
    var expLen: nat := if BitCount(a1) >= BitCount(a2) then BitCount(a1) else BitCount(a2);
    if expLen == 0 {
      NoBits(group, x, y, a1, a2);
      return group.identity;
    }
    var w := if expLen <= 46 then 1 else if expLen <= 260 then 2 else 3;
    var tableSize := TableSize(w);
    var powerTable := FillPowerTable(group, x, y, w, blank);

    result := blank;
    var power1: nat, power2: nat, prevPosition: nat, firstTime := 0, 0, expLen - 1, true;
    var i: nat := expLen;
    ProgressStarts(group, x, y, a1, a2, expLen, blank);
    while i > 0
      invariant i <= expLen
      invariant 2 * power1 < tableSize && 2 * power2 < tableSize
      invariant Progress(group, x, y, a1, a2, expLen, i, firstTime, prevPosition, power1, power2, result)
      invariant i == 0 ==> !firstTime && prevPosition == 0
      invariant TableReady(group, x, y, powerTable, w)
    {
      ProgressReadsBit(group, x, y, a1, a2, expLen, i, firstTime, prevPosition, power1, power2, result);
      i := i - 1;
      WindowFits(w, power1, GetBit(a1, i));
      WindowFits(w, power2, GetBit(a2, i));
      power1 := 2 * power1 + Bit(GetBit(a1, i));
      power2 := 2 * power2 + Bit(GetBit(a2, i));
      if i == 0 || 2 * power1 >= tableSize || 2 * power2 >= tableSize {
        result := ApplyWindow(group, x, y, a1, a2, expLen, i, firstTime, prevPosition, power1, power2, result,
                              powerTable, w);
        prevPosition, firstTime, power1, power2 := i, false, 0, 0;
      }
    }
    ProgressEnds(group, x, y, a1, a2, expLen, power1, power2, result);
  }

  lemma WindowFits(w: nat, power: nat, bit: bool)
    requires 1 <= w <= 3 && 2 * power < TableSize(w)
    ensures 2 * power + Bit(bit) < TableSize(w)
  {
  }

  lemma NoBits<T(!new)>(g: Group<T>, x: T, y: T, e1: nat, e2: nat)
    requires IsCommutativeMonoid(g) && BitCount(e1) == BitCount(e2) == 0
    ensures Comb(g, x, y, e1, e2) == g.identity
  {
    CombBases(g, x, y);
  }

  lemma ProgressStarts<T(!new)>(g: Group<T>, x: T, y: T, e1: nat, e2: nat, expLen: nat, blank: T)
    requires BitCount(e1) <= expLen && BitCount(e2) <= expLen && expLen > 0
    ensures Progress(g, x, y, e1, e2, expLen, expLen, true, expLen - 1, 0, 0, blank)
  {
    ShrVanishes(e1, expLen);
    ShrVanishes(e2, expLen);
  }

  lemma ProgressReadsBit<T(!new)>(g: Group<T>, x: T, y: T, e1: nat, e2: nat, expLen: nat, i: nat,
                                  firstTime: bool, prevPosition: nat, power1: nat, power2: nat, result: T)
    requires Progress(g, x, y, e1, e2, expLen, i, firstTime, prevPosition, power1, power2, result) && i > 0
    requires expLen == BitCount(e1) || expLen == BitCount(e2)
    ensures Progress(g, x, y, e1, e2, expLen, i - 1, firstTime, prevPosition,
                     2 * power1 + Bit(GetBit(e1, i - 1)), 2 * power2 + Bit(GetBit(e2, i - 1)), result)
  {
    hide Comb;
    PendingReadsBit(e1, expLen, i, firstTime, prevPosition, power1);
    PendingReadsBit(e2, expLen, i, firstTime, prevPosition, power2);
    ShrVanishes(e1, i - 1);
    ShrVanishes(e2, i - 1);
  }

  lemma ProgressEnds<T(!new)>(g: Group<T>, x: T, y: T, e1: nat, e2: nat, expLen: nat, power1: nat, power2: nat,
                              result: T)
    requires Progress(g, x, y, e1, e2, expLen, 0, false, 0, power1, power2, result)
    ensures result == Comb(g, x, y, e1, e2)
  {
  }

  method ReadSlot<T(!new)>(group: Group<T>, x: T, y: T, powerTable: array<T>, w: nat, p1: nat, p2: nat)
    returns (value: T)
    requires 1 <= w <= 3 && TableReady(group, x, y, powerTable, w)
    requires p1 < TableSize(w) && p2 < TableSize(w) && (p1 % 2 == 1 || p2 % 2 == 1)
    ensures value == Comb(group, x, y, p1, p2)
  {
    hide Comb;
    assert Filled(group, x, y, powerTable, w, p1, p2);
    value := powerTable[Slot(w, p1, p2)];
  }

  /** Doubles, then adds the window's slot unless the window is empty. */
  method FoldWindow<T(!new)>(group: Group<T>, x: T, y: T, before: T, squaresBefore: nat, powerTable: array<T>, w: nat,
                             p1: nat, p2: nat, ghost a: nat, ghost b: nat) returns (result: T)
    requires IsCommutativeMonoid(group) && 1 <= w <= 3 && TableReady(group, x, y, powerTable, w)
    requires before == Comb(group, x, y, a, b) && p1 < TableSize(w) && p2 < TableSize(w)
    requires p1 % 2 == 1 || p2 % 2 == 1 || p1 == p2 == 0
    ensures result == Comb(group, x, y, a * Pow2(squaresBefore) + p1, b * Pow2(squaresBefore) + p2)
  {
    hide Comb, TableReady, Pow2;
    result := DoubleTimes(group, x, y, before, squaresBefore, a, b);
    if p1 > 0 || p2 > 0 {
      var value := ReadSlot(group, x, y, powerTable, w, p1, p2);
      CombAdd(group, x, y, a * Pow2(squaresBefore), b * Pow2(squaresBefore), p1, p2);
      result := group.add(result, value);
    }
  }

  /** Folds the pending window values into the result at bit position i. */
  method ApplyWindow<T(!new)>(group: Group<T>, x: T, y: T, ghost e1: nat, ghost e2: nat, ghost expLen: nat, i: nat,
                              firstTime: bool, prevPosition: nat, power1: nat, power2: nat, before: T,
                              powerTable: array<T>, w: nat)
    returns (result: T)
    requires IsCommutativeMonoid(group) && 1 <= w <= 3
    requires TableReady(group, x, y, powerTable, w)
    requires Progress(group, x, y, e1, e2, expLen, i, firstTime, prevPosition, power1, power2, before) && i < expLen
    requires power1 < TableSize(w) && power2 < TableSize(w)
    ensures Progress(group, x, y, e1, e2, expLen, i, false, i, 0, 0, result)
  {
    hide Comb, Shr, TableReady, Pow2;
    assert i <= prevPosition;
    Pow2Increasing(prevPosition - i, prevPosition - i + 1);
    var p1, p2, squaresBefore, squaresAfter := StripCommonTwos(power1, power2, prevPosition - i);
    PendingApplied(e1, expLen, i, firstTime, prevPosition, power1, p1, squaresBefore, squaresAfter);
    PendingApplied(e2, expLen, i, firstTime, prevPosition, power2, p2, squaresBefore, squaresAfter);
    ghost var a: nat, b: nat := p1, p2;
    if firstTime {
      result := ReadSlot(group, x, y, powerTable, w, p1, p2);
    } else {
      result := FoldWindow(group, x, y, before, squaresBefore, powerTable, w, p1, p2, Shr(e1, prevPosition),
                           Shr(e2, prevPosition));
      a, b := Shr(e1, prevPosition) * Pow2(squaresBefore) + p1, Shr(e2, prevPosition) * Pow2(squaresBefore) + p2;
    }
    result := DoubleTimes(group, x, y, result, squaresAfter, a, b);
    PendingNothing(e1, expLen, i);
    PendingNothing(e2, expLen, i);
  }

  lemma PendingNothing(e: nat, expLen: nat, i: nat)
    ensures Pending(e, expLen, i, false, i, 0)
  {
    assert Shr(e, i) * Pow2(0) == Shr(e, i);
  }

  /** The integers under addition. */
  function Integers(): Group<int> {
    Group(0, (a: int, b: int) => a + b, (a: int) => -a, true)
  }

  lemma {:induction false} TimesInteger(x: int, n: int)
    ensures Times(Integers(), x, n) == n * x
    decreases if n >= 0 then n else -n
  {
    if n > 0 {
      TimesInteger(x, n - 1);
      MulDistributes(n - 1, 1, x);
    } else if n < 0 {
      TimesInteger(x, n + 1);
      MulDistributes(n + 1, -1, x);
    }
  }

  /** The pass reads only the magnitudes of the exponents, so e1 * x + e2 * y is what it returns for
      all elements exactly when neither exponent is negative. */
  lemma CascadeMeetsSignedSum(e1: int, e2: int)
    ensures (forall x, y :: SignedSumAt(x, e1, y, e2)) <==> e1 >= 0 && e2 >= 0
  {
    if e1 >= 0 && e2 >= 0 {
    } else if e1 < 0 {
      SignedSumValue(1, e1, 0, e2);
      assert !SignedSumAt(1, e1, 0, e2);
    } else {
      SignedSumValue(0, e1, 1, e2);
      assert !SignedSumAt(0, e1, 1, e2);
    }
  }

  ghost predicate SignedSumAt(x: int, e1: int, y: int, e2: int) {
    Comb(Integers(), x, y, Abs(e1), Abs(e2)) == Times(Integers(), x, e1) + Times(Integers(), y, e2)
  }

  lemma SignedSumValue(x: int, e1: int, y: int, e2: int)
    ensures SignedSumAt(x, e1, y, e2) <==> Abs(e1) * x + Abs(e2) * y == e1 * x + e2 * y
  {
    TimesInteger(x, Abs(e1));
    TimesInteger(y, Abs(e2));
    TimesInteger(x, e1);
    TimesInteger(y, e2);
  }
}
