/** Allocation maps of native/map.cpp: state ranges are ordered, bucketed into cells and
  * overlaid.  Every counter is compared with the number of disk units in that state. */
module AllocationMap {
  import opened MachineInts
  import opened Wrappers
  import opened Units
  import opened RangeAlgebra
  import Sorting

  /** The largest cell count for which no boundary computation can leave 64 bits. */
  const MAX_EXACT_CELLS: nat := 0x1_0000_0000

  /** One record of the "cells" list; a key that is absent reads as zero. */
  datatype Cell = Cell(start: U64, end: U64, free: U64, used: U64, unknown: U64, outside: U64, bad: U64,
                       fragmented: U64, directory: U64)

  datatype StateRange = StateRange(start: U64, end: U64, state: U32)

  const FREE: nat := 0
  const USED: nat := 1
  const UNKNOWN: nat := 2
  const BAD: nat := 3

  // ---------------------------------------------------------------- cell boundaries

  /** Boundary i of count cells over total units; the product i * total is never formed. */
  function CellBoundary(index: nat, total: nat, count: nat): int
    requires count > 0
  {
    index * (total / count) + index * (total % count) / count
  }

  lemma BoundaryExact(index: nat, total: nat, count: nat)
    requires count > 0
    ensures index * (total / count) + index * (total % count) / count == index * total / count
  {
    var q, r := total / count, total % count;
    assert index * total == index * (q * count + r) == (index * q) * count + index * r;
    var d, m := index * r / count, index * r % count;
    assert index * r == d * count + m;
    assert (index * q) * count + d * count == (index * q + d) * count;
    DivModUnique(index * total, count, index * q + d, m);
  }

  /** No intermediate value of the boundary computation exceeds 64 bits for up to 2^32 cells. */
  lemma BoundaryFits(index: nat, total: U64, count: nat)
    requires 0 < count <= MAX_EXACT_CELLS && index <= count
    ensures 0 <= index * (total / count) <= total
    ensures 0 <= index * (total % count) <= U64_MAX
    ensures 0 <= CellBoundary(index, total, count) <= total
  {
    hide CellBoundary;
    BoundaryMonotone(0, index, total, count);
    BoundaryMonotone(index, count, total, count);
    BoundaryEnds(total, count);
    DivParts(total, count);
    ProductsFit(index, total, count, total / count, total % count);
  }

  lemma DivParts(x: nat, d: nat)
    requires d > 0
    ensures x / d * d + x % d == x && 0 <= x % d < d && 0 <= x / d
  {}

  lemma ProductsFit(index: nat, total: U64, count: nat, q: nat, r: nat)
    requires index <= count <= MAX_EXACT_CELLS
    requires q * count + r == total && r < count
    ensures 0 <= index * q <= total
    ensures 0 <= index * r <= U64_MAX
  {
    MulMonotone(index, count, q);
    MulMonotone(0, index, q);
    MulMonotone(0, index, r);
    MulMonotone(index, MAX_EXACT_CELLS, r);
  }

  /** The bound is sharp: the products fit for every total exactly when there are at most 2^32 cells. */
  lemma BoundaryFitsExactly(count: U64)
    requires count > 0
    ensures count <= MAX_EXACT_CELLS <==>
              forall total: U64, index: nat {:trigger index * (total % count)} :: index <= count ==> index * (total % count) <= U64_MAX
  {
    if count <= MAX_EXACT_CELLS {
      forall total: U64, index: nat {:trigger index * (total % count)} | index <= count
        ensures index * (total % count) <= U64_MAX
      {
        BoundaryFits(index, total, count);
      }
    } else {
      var total: U64 := count - 1;
      DivModUnique(total, count, 0, count - 1);
      MulMonotone(MAX_EXACT_CELLS, count - 1, count);
      assert count * (total % count) > U64_MAX;
    }
  }

  lemma BoundaryMonotone(i: nat, j: nat, total: nat, count: nat)
    requires 0 < count && i <= j
    ensures CellBoundary(i, total, count) <= CellBoundary(j, total, count)
  {
    BoundaryExact(i, total, count);
    BoundaryExact(j, total, count);
    MulMonotone(i, j, total);
    DivMonotone(i * total, j * total, count);
  }

  lemma BoundaryEnds(total: nat, count: nat)
    requires count > 0
    ensures CellBoundary(0, total, count) == 0
    ensures CellBoundary(count, total, count) == total
  {
    BoundaryExact(count, total, count);
    DivModUnique(count * total, count, total, 0);
  }

  lemma DivMonotone(a: nat, b: nat, d: nat)
    requires a <= b && d > 0
    ensures a / d <= b / d
  {
    var p, q := a / d, b / d;
    if q < p {
      MulMonotone(q + 1, p, d);
    }
  }

  /** Every cell has total/count units or one more. */
  lemma BoundaryWidth(index: nat, total: U64, count: nat)
    requires 0 < count <= MAX_EXACT_CELLS && index < count
    ensures total / count <= CellBoundary(index + 1, total, count) - CellBoundary(index, total, count) <= total / count + 1
  {
    var q, r := total / count, total % count;
    assert (index + 1) * q == index * q + q;
    assert (index + 1) * r == index * r + r;
    var d, m := index * r / count, index * r % count;
    assert index * r == d * count + m;
    if m + r < count {
      DivModUnique((index + 1) * r, count, d, m + r);
    } else {
      assert (d + 1) * count == d * count + count;
      DivModUnique((index + 1) * r, count, d + 1, m + r - count);
    }
  }

  lemma AtLeastOnePerCell(total: U64, count: nat)
    requires 0 < count <= total
    ensures total / count >= 1
  {
    DivMonotone(count, total, count);
    DivModUnique(count, count, 1, 0);
  }

  // ---------------------------------------------------------------- the per-unit model

  predicate Claims(r: StateRange, total: nat, u: int) {
    r.start <= u < r.end && u < total
  }

  ghost predicate ClaimedAs(rs: seq<StateRange>, total: nat, state: nat, u: int) {
    exists r :: r in rs && r.state == state && Claims(r, total, u)
  }

  /** The units below total that some range claims in the given state. */
  ghost function ClaimedUnits(rs: seq<StateRange>, total: nat, state: nat): iset<int> {
    iset u: int | ClaimedAs(rs, total, state, u)
  }

  /** The disk as a state per unit: what no range claims as free, used or bad is unknown. */
  ghost function StateUnits(rs: seq<StateRange>, total: nat, state: nat): iset<int> {
    if state == UNKNOWN then
      Interval(0, total) - ClaimedUnits(rs, total, FREE) - ClaimedUnits(rs, total, USED) - ClaimedUnits(rs, total, BAD)
    else ClaimedUnits(rs, total, state)
  }

  predicate NonEmptyBelow(r: StateRange, total: nat) {
    r.start < Min(r.end, total)
  }

  /** The two ranges share a unit below total. */
  predicate Clash(a: StateRange, b: StateRange, total: nat) {
    Max(a.start, b.start) < Min(Min(a.end, b.end), total)
  }

  /** Two entries of the list share a unit below total. */
  ghost predicate Overlapping(rs: seq<StateRange>, total: nat) {
    exists i, j :: 0 <= i < j < |rs| && Clash(rs[i], rs[j], total)
  }

  ghost predicate UnsupportedState(rs: seq<StateRange>, total: nat) {
    exists r :: r in rs && NonEmptyBelow(r, total) && r.state > 3
  }

  lemma {:induction false} PairInSequence(rs: seq<StateRange>, a: StateRange, b: StateRange) returns (i: nat, j: nat)
    requires multiset{a, b} <= multiset(rs)
    ensures i < |rs| && j < |rs| && i != j && rs[i] == a && rs[j] == b
  {
    assert a in multiset(rs) && b in multiset(rs);
    i :| 0 <= i < |rs| && rs[i] == a;
    if a != b {
      j :| 0 <= j < |rs| && rs[j] == b;
    } else {
      j := SecondOccurrence(rs, i);
    }
  }

  lemma SecondOccurrence(rs: seq<StateRange>, i: nat) returns (j: nat)
    requires i < |rs| && multiset(rs)[rs[i]] >= 2
    ensures j < |rs| && j != i && rs[j] == rs[i]
  {
    var before, after := rs[..i], rs[i + 1..];
    assert rs == before + [rs[i]] + after;
    assert rs[i] in multiset(before) || rs[i] in multiset(after);
    if rs[i] in before {
      j :| 0 <= j < i && before[j] == rs[i];
    } else {
      var k :| 0 <= k < |after| && after[k] == rs[i];
      j := i + 1 + k;
    }
  }

  lemma OverlapFromPair(rs: seq<StateRange>, total: nat, a: StateRange, b: StateRange)
    requires multiset{a, b} <= multiset(rs) && Clash(a, b, total)
    ensures Overlapping(rs, total)
  {
    var i, j := PairInSequence(rs, a, b);
    assert Clash(rs[Min(i, j)], rs[Max(i, j)], total);
  }

  lemma PairOfIndices(rs: seq<StateRange>, i: nat, j: nat)
    requires i < j < |rs|
    ensures multiset{rs[i], rs[j]} <= multiset(rs)
  {
    assert rs == rs[..i] + [rs[i]] + rs[i + 1..j] + [rs[j]] + rs[j + 1..];
  }

  /** Sorting changes neither the per-unit model nor the reasons for rejection. */
  lemma PermutationKeepsDisk(a: seq<StateRange>, b: seq<StateRange>, total: nat)
    requires multiset(a) == multiset(b)
    ensures forall s :: ClaimedUnits(a, total, s) == ClaimedUnits(b, total, s)
    ensures Overlapping(a, total) ==> Overlapping(b, total)
    ensures UnsupportedState(a, total) <==> UnsupportedState(b, total)
  {
    forall r
      ensures r in a <==> r in b
    {
      assert r in a <==> r in multiset(a);
      assert r in b <==> r in multiset(b);
    }
    if Overlapping(a, total) {
      var i, j :| 0 <= i < j < |a| && Clash(a[i], a[j], total);
      PairOfIndices(a, i, j);
      OverlapFromPair(b, total, a[i], a[j]);
    }
  }

  // ---------------------------------------------------------------- ordering

  /** What the ordering sweep produces: non-empty, ascending, disjoint, below total, known states. */
  ghost predicate Ordered(rs: seq<StateRange>, total: nat) {
    && (forall i :: 0 <= i < |rs| ==> rs[i].start < rs[i].end <= total && rs[i].state <= 3)
    && (forall i, j :: 0 <= i < j < |rs| ==> rs[i].end <= rs[j].start)
  }

  function StateKey(r: StateRange): Sorting.Key {
    (r.start, r.end, r.state)
  }

  function Clamp(r: StateRange, total: U64): StateRange {
    StateRange(Min(r.start, total), Min(r.end, total), r.state)
  }

  ghost function UnitsClaimed(r: StateRange, total: nat): iset<int> {
    iset u: int | Claims(r, total, u)
  }

  lemma ClaimedAppend(rs: seq<StateRange>, r: StateRange, total: nat, s: nat)
    ensures ClaimedUnits(rs + [r], total, s) == ClaimedUnits(rs, total, s) + if r.state == s then UnitsClaimed(r, total) else iset{}
  {
    forall u
      ensures ClaimedAs(rs + [r], total, s, u) <==> ClaimedAs(rs, total, s, u) || (r.state == s && Claims(r, total, u))
    {
      if ClaimedAs(rs, total, s, u) {
        var x :| x in rs && x.state == s && Claims(x, total, u);
        assert x in rs + [r];
      }
      if r.state == s && Claims(r, total, u) {
        assert r in rs + [r];
      }
    }
  }

  /** One step of the ordering sweep: join an adjacent range of the same state, or append. */
  function OrderStep(ordered: seq<StateRange>, r: StateRange): seq<StateRange> {
    if ordered != [] && r.start == ordered[|ordered| - 1].end && r.state == ordered[|ordered| - 1].state
    then ordered[..|ordered| - 1] + [ordered[|ordered| - 1].(end := r.end)]
    else ordered + [r]
  }

  lemma OrderStepKeepsDisk(ordered: seq<StateRange>, r: StateRange, total: U64, s: nat)
    requires Ordered(ordered, total)
    requires NonEmptyBelow(r, total) && r.state <= 3
    requires ordered != [] ==> ordered[|ordered| - 1].end <= r.start
    ensures Ordered(OrderStep(ordered, Clamp(r, total)), total)
    ensures ClaimedUnits(OrderStep(ordered, Clamp(r, total)), total, s)
         == ClaimedUnits(ordered, total, s) + if r.state == s then UnitsClaimed(r, total) else iset{}
  {
    hide ClaimedUnits;
    var c := Clamp(r, total);
    assert UnitsClaimed(c, total) == UnitsClaimed(r, total);
    if ordered != [] && c.start == ordered[|ordered| - 1].end && c.state == ordered[|ordered| - 1].state {
      var init, last := ordered[..|ordered| - 1], ordered[|ordered| - 1];
      assert ordered == init + [last];
      ClaimedAppend(init, last, total, s);
      ClaimedAppend(init, last.(end := c.end), total, s);
      assert UnitsClaimed(last.(end := c.end), total) == UnitsClaimed(last, total) + UnitsClaimed(c, total);
    } else {
      ClaimedAppend(ordered, c, total, s);
    }
  }

  /** What the ordering sweep knows after i of the sorted ranges. */
  ghost predicate OrderedSoFar(sorted: seq<StateRange>, total: U64, i: nat, ordered: seq<StateRange>) {
    && i <= |sorted|
    && Ordered(ordered, total)
    && (forall s {:trigger ClaimedUnits(ordered, total, s)} :: ClaimedUnits(ordered, total, s) == ClaimedUnits(sorted[..i], total, s))
    && (forall k :: 0 <= k < i && NonEmptyBelow(sorted[k], total) ==>
          sorted[k].state <= 3 && ordered != [] && Min(sorted[k].end, total) <= ordered[|ordered| - 1].end)
    && (ordered != [] ==> exists k :: 0 <= k < i && NonEmptyBelow(sorted[k], total) && Min(sorted[k].end, total) == ordered[|ordered| - 1].end)
    && !Overlapping(sorted[..i], total)
  }

  lemma OrderSkips(sorted: seq<StateRange>, total: U64, i: nat, ordered: seq<StateRange>)
    requires OrderedSoFar(sorted, total, i, ordered) && i < |sorted|
    requires !NonEmptyBelow(sorted[i], total)
    ensures OrderedSoFar(sorted, total, i + 1, ordered)
  {
    hide ClaimedUnits;
    assert sorted[..i + 1] == sorted[..i] + [sorted[i]];
    forall s
      ensures ClaimedUnits(ordered, total, s) == ClaimedUnits(sorted[..i + 1], total, s)
    {
      ClaimedAppend(sorted[..i], sorted[i], total, s);
      assert UnitsClaimed(sorted[i], total) == iset{};
    }
    NoNewOverlap(sorted, total, i);
  }

  lemma NoNewOverlap(sorted: seq<StateRange>, total: U64, i: nat)
    requires i < |sorted| && !Overlapping(sorted[..i], total)
    requires forall k :: 0 <= k < i ==> !Clash(sorted[k], sorted[i], total)
    ensures !Overlapping(sorted[..i + 1], total)
  {
    var now := sorted[..i + 1];
    forall p, q | 0 <= p < q < |now|
      ensures !Clash(now[p], now[q], total)
    {
      if q < i {
        assert sorted[..i][p] == now[p] && sorted[..i][q] == now[q];
      }
    }
  }

  lemma OrderTakes(sorted: seq<StateRange>, total: U64, i: nat, ordered: seq<StateRange>)
    requires Sorting.SortedBy(sorted, StateKey)
    requires OrderedSoFar(sorted, total, i, ordered) && i < |sorted|
    requires NonEmptyBelow(sorted[i], total) && sorted[i].state <= 3
    requires ordered != [] ==> ordered[|ordered| - 1].end <= sorted[i].start
    ensures OrderedSoFar(sorted, total, i + 1, OrderStep(ordered, Clamp(sorted[i], total)))
  {
    hide ClaimedUnits, Sorting.SortedBy;
    var next := OrderStep(ordered, Clamp(sorted[i], total));
    OrderStepKeepsDisk(ordered, sorted[i], total, 0);
    assert sorted[..i + 1] == sorted[..i] + [sorted[i]];
    forall s
      ensures ClaimedUnits(next, total, s) == ClaimedUnits(sorted[..i + 1], total, s)
    {
      OrderStepKeepsDisk(ordered, sorted[i], total, s);
      ClaimedAppend(sorted[..i], sorted[i], total, s);
      assert ClaimedUnits(ordered, total, s) == ClaimedUnits(sorted[..i], total, s);
    }
    forall k | 0 <= k < i
      ensures !Clash(sorted[k], sorted[i], total)
    {
      assert NonEmptyBelow(sorted[k], total) ==> Min(sorted[k].end, total) <= ordered[|ordered| - 1].end;
    }
    NoNewOverlap(sorted, total, i);
    assert next[|next| - 1].end == Min(sorted[i].end, total);
  }

  /** A range that starts before the last ordered end really clashes with an earlier entry. */
  lemma OrderClashes(sorted: seq<StateRange>, total: U64, i: nat, ordered: seq<StateRange>)
    requires Sorting.SortedBy(sorted, StateKey)
    requires OrderedSoFar(sorted, total, i, ordered) && i < |sorted|
    requires NonEmptyBelow(sorted[i], total)
    requires ordered != [] && sorted[i].start < ordered[|ordered| - 1].end
    ensures Overlapping(sorted, total)
  {
    var k :| 0 <= k < i && NonEmptyBelow(sorted[k], total) && Min(sorted[k].end, total) == ordered[|ordered| - 1].end;
    assert Sorting.KeyLeq(StateKey(sorted[k]), StateKey(sorted[i]));
    assert Clash(sorted[k], sorted[i], total);
  }

  /** Clamps, checks and joins the ranges; None stands for the two rejections. */
  method OrderRanges(total: U64, ranges: seq<StateRange>) returns (r: Option<seq<StateRange>>)
    ensures r.None? <==> Overlapping(ranges, total) || UnsupportedState(ranges, total)
    ensures r.Some? ==> Ordered(r.value, total)
    ensures r.Some? ==> forall s :: ClaimedUnits(r.value, total, s) == ClaimedUnits(ranges, total, s)
  {
    hide ClaimedUnits;
    var sorted := Sorting.Sort(ranges, StateKey);
    PermutationKeepsDisk(sorted, ranges, total);
    PermutationKeepsDisk(ranges, sorted, total);
    var ordered: seq<StateRange> := [];
    var i := 0;
    while i < |sorted|
      invariant OrderedSoFar(sorted, total, i, ordered)
    {
      var range := Clamp(sorted[i], total);
      if range.end <= range.start {
        OrderSkips(sorted, total, i, ordered);
        i := i + 1;
        continue;
      }
      if range.state > 3 {
        assert UnsupportedState(sorted, total);
        return None;
      }
      if ordered != [] && range.start < ordered[|ordered| - 1].end {
        OrderClashes(sorted, total, i, ordered);
        return None;
      }
      OrderTakes(sorted, total, i, ordered);
      if ordered != [] && range.start == ordered[|ordered| - 1].end && range.state == ordered[|ordered| - 1].state {
        ordered := ordered[..|ordered| - 1] + [ordered[|ordered| - 1].(end := range.end)];
      } else {
        ordered := ordered + [range];
      }
      i := i + 1;
    }
    assert sorted[..|sorted|] == sorted;
    r := Some(ordered);
  }

  // ---------------------------------------------------------------- bucketing

  /** Per-state unit counters of the units in [start, cursor). */
  ghost predicate Tallied(rs: seq<StateRange>, total: nat, start: int, cursor: int, counts: seq<int>) {
    && |counts| == 4 && start <= cursor
    && counts[FREE] == Count(StateUnits(rs, total, FREE), start, cursor)
    && counts[USED] == Count(StateUnits(rs, total, USED), start, cursor)
    && counts[UNKNOWN] == Count(StateUnits(rs, total, UNKNOWN), start, cursor)
    && counts[BAD] == Count(StateUnits(rs, total, BAD), start, cursor)
    && counts[FREE] + counts[USED] + counts[UNKNOWN] + counts[BAD] == cursor - start
  }

  /** The unit is in exactly one of the four states. */
  ghost predicate InState(rs: seq<StateRange>, total: nat, u: int, t: nat) {
    forall s {:trigger StateUnits(rs, total, s)} :: 0 <= s < 4 ==> (u in StateUnits(rs, total, s) <==> s == t)
  }

  lemma RangeDecides(rs: seq<StateRange>, total: nat, i: nat, u: int)
    requires Ordered(rs, total) && i < |rs| && rs[i].start <= u < rs[i].end
    ensures InState(rs, total, u, rs[i].state)
  {
    assert rs[i] in rs && Claims(rs[i], total, u);
    forall s: nat
      ensures ClaimedAs(rs, total, s, u) <==> s == rs[i].state
    {
      if r :| r in rs && r.state == s && Claims(r, total, u) {
        var k :| 0 <= k < |rs| && rs[k] == r;
      }
    }
  }

  lemma GapIsUnknown(rs: seq<StateRange>, total: nat, i: nat, u: int)
    requires Ordered(rs, total) && i <= |rs| && 0 <= u < total
    requires i > 0 ==> rs[i - 1].end <= u
    requires i < |rs| ==> u < rs[i].start
    ensures InState(rs, total, u, UNKNOWN)
  {
    forall k | 0 <= k < i
      ensures rs[k].end <= u
    {
      assert k < i - 1 ==> rs[k].end <= rs[i - 1].start;
    }
    forall k | i <= k < |rs|
      ensures u < rs[k].start
    {
      assert i < k ==> rs[i].end <= rs[k].start;
    }
  }

  /** Extending a tally over a stretch that is all in one state. */
  lemma TallyStretch(rs: seq<StateRange>, total: nat, start: int, a: int, b: int, counts: seq<int>, t: nat)
    requires Tallied(rs, total, start, a, counts) && a <= b && t < 4
    requires forall u :: a <= u < b ==> InState(rs, total, u, t)
    ensures Tallied(rs, total, start, b, counts[t := counts[t] + (b - a)])
  {
    StretchCount(rs, total, start, a, b, t, FREE);
    StretchCount(rs, total, start, a, b, t, USED);
    StretchCount(rs, total, start, a, b, t, UNKNOWN);
    StretchCount(rs, total, start, a, b, t, BAD);
  }

  lemma StretchCount(rs: seq<StateRange>, total: nat, start: int, a: int, b: int, t: nat, s: nat)
    requires start <= a <= b && s < 4
    requires forall u :: a <= u < b ==> InState(rs, total, u, t)
    ensures Count(StateUnits(rs, total, s), start, b) == Count(StateUnits(rs, total, s), start, a) + if s == t then b - a else 0
  {
    var S := StateUnits(rs, total, s);
    CountSplit(S, start, a, b);
    forall u | a <= u < b
      ensures u in S <==> s == t
    {
      assert InState(rs, total, u, t);
    }
    if s == t {
      CountAll(S, a, b);
    } else {
      CountNone(S, a, b);
    }
  }

  lemma TallyGap(rs: seq<StateRange>, total: nat, start: int, a: int, b: int, counts: seq<int>, i: nat)
    requires Ordered(rs, total) && Tallied(rs, total, start, a, counts) && i <= |rs| && 0 <= a <= b <= total
    requires i > 0 ==> rs[i - 1].end <= a
    requires i < |rs| ==> b <= rs[i].start
    ensures Tallied(rs, total, start, b, counts[UNKNOWN := counts[UNKNOWN] + (b - a)])
  {
    hide Ordered, StateUnits, InState;
    forall u | a <= u < b
      ensures InState(rs, total, u, UNKNOWN)
    {
      GapIsUnknown(rs, total, i, u);
    }
    TallyStretch(rs, total, start, a, b, counts, UNKNOWN);
  }

  lemma TallyRange(rs: seq<StateRange>, total: nat, start: int, a: int, b: int, counts: seq<int>, i: nat)
    requires Ordered(rs, total) && Tallied(rs, total, start, a, counts) && i < |rs|
    requires rs[i].start <= a <= b <= rs[i].end
    ensures rs[i].state < 4
    ensures Tallied(rs, total, start, b, counts[rs[i].state := counts[rs[i].state] + (b - a)])
  {
    forall u | a <= u < b
      ensures InState(rs, total, u, rs[i].state)
    {
      RangeDecides(rs, total, i, u);
    }
    TallyStretch(rs, total, start, a, b, counts, rs[i].state);
  }

  lemma OrderedAt(rs: seq<StateRange>, total: nat, i: nat)
    requires Ordered(rs, total) && i < |rs|
    ensures rs[i].start < rs[i].end <= total && rs[i].state <= 3
    ensures i > 0 ==> rs[i - 1].end <= rs[i].start
  {}

  /** Counts one cell by a sweep from the first range that can reach it. */
  method TallyCell(ordered: seq<StateRange>, ghost total: U64, rangeIndex: nat, start: U64, end: U64)
    returns (counts: seq<U64>, next: nat)
    requires Ordered(ordered, total) && start < end <= total
    requires rangeIndex <= |ordered| && (rangeIndex > 0 ==> ordered[rangeIndex - 1].end <= start)
    ensures Tallied(ordered, total, start, end, counts)
    ensures next <= |ordered| && (next > 0 ==> ordered[next - 1].end <= start)
  {
    hide StateUnits, Tallied, Ordered;
    next := rangeIndex;
    while next < |ordered| && ordered[next].end <= start
      invariant next <= |ordered| && (next > 0 ==> ordered[next - 1].end <= start)
    {
      next := next + 1;
    }
    counts := [0, 0, 0, 0];
    var cursor := start;
    EmptyTally(ordered, total, start);
    var check := next;
    while check < |ordered| && ordered[check].start < end
      invariant next <= check <= |ordered| && start <= cursor <= end
      invariant Tallied(ordered, total, start, cursor, counts)
      invariant check > 0 ==> ordered[check - 1].end <= cursor
      invariant cursor == start || (check > 0 && cursor == ordered[check - 1].end)
      invariant check == next < |ordered| ==> start < ordered[check].end
      decreases |ordered| - check
    {
      var range := ordered[check];
      OrderedAt(ordered, total, check);
      var overlapStart := Max(start, range.start);
      var overlapEnd := Min(end, range.end);
      TallyFits(ordered, total, start, cursor, counts);
      if overlapStart > cursor {
        TallyGap(ordered, total, start, cursor, overlapStart, counts, check);
        counts := counts[UNKNOWN := counts[UNKNOWN] + (overlapStart - cursor)];
        TallyFits(ordered, total, start, overlapStart, counts);
      }
      if overlapEnd > overlapStart {
        TallyRange(ordered, total, start, overlapStart, overlapEnd, counts, check);
        counts := counts[range.state := counts[range.state] + (overlapEnd - overlapStart)];
        cursor := Max(cursor, overlapEnd);
      }
      if range.end > end {
        break;
      }
      check := check + 1;
    }
    if cursor < end {
      TallyFits(ordered, total, start, cursor, counts);
      TallyGap(ordered, total, start, cursor, end, counts, check);
      counts := counts[UNKNOWN := counts[UNKNOWN] + (end - cursor)];
    }
  }

  lemma EmptyTally(rs: seq<StateRange>, total: nat, start: int)
    ensures Tallied(rs, total, start, start, [0, 0, 0, 0])
  {}

  lemma TallyFits(rs: seq<StateRange>, total: nat, start: int, cursor: int, counts: seq<int>)
    requires Tallied(rs, total, start, cursor, counts)
    ensures |counts| == 4 && start <= cursor
    ensures forall s :: 0 <= s < 4 ==> 0 <= counts[s] <= cursor - start
    ensures counts[FREE] + counts[USED] + counts[UNKNOWN] + counts[BAD] == cursor - start
  {
    assert counts[FREE] <= cursor - start && counts[USED] <= cursor - start;
    assert counts[UNKNOWN] <= cursor - start && counts[BAD] <= cursor - start;
  }

  /** The parts of a finished map that aggregation computes. */
  datatype Summary = Summary(cells: seq<Cell>, totalBytes: U64, freeBytes: U64, usedBytes: U64, unknownBytes: U64)

  /** Cell k of count: its boundaries, and per state the number of its units in that state. */
  ghost predicate CountsUnits(rs: seq<StateRange>, total: nat, count: nat, k: nat, cell: Cell)
    requires count > 0
  {
    && cell.start == CellBoundary(k, total, count)
    && cell.end + 1 == CellBoundary(k + 1, total, count)
    && cell.start <= cell.end
    && Tallied(rs, total, cell.start, cell.end + 1, [cell.free, cell.used, cell.unknown, cell.bad])
    && cell.outside == cell.fragmented == cell.directory == 0
  }

  ghost predicate IsSummary(rs: seq<StateRange>, total: nat, count: nat, unit: nat, m: Summary) {
    && |m.cells| == count > 0
    && (forall k :: 0 <= k < count ==> CountsUnits(rs, total, count, k, m.cells[k]))
    && m.totalBytes == total * unit
    && m.freeBytes == Count(StateUnits(rs, total, FREE), 0, total) * unit
    && m.usedBytes == Count(StateUnits(rs, total, USED), 0, total) * unit
    && m.unknownBytes == (Count(StateUnits(rs, total, UNKNOWN), 0, total) + Count(StateUnits(rs, total, BAD), 0, total)) * unit
  }

  lemma TallyAppend(rs: seq<StateRange>, total: nat, start: int, mid: int, end: int, a: seq<int>, b: seq<int>)
    requires Tallied(rs, total, start, mid, a) && Tallied(rs, total, mid, end, b)
    ensures Tallied(rs, total, start, end, [a[FREE] + b[FREE], a[USED] + b[USED], a[UNKNOWN] + b[UNKNOWN], a[BAD] + b[BAD]])
  {
    CountSplit(StateUnits(rs, total, FREE), start, mid, end);
    CountSplit(StateUnits(rs, total, USED), start, mid, end);
    CountSplit(StateUnits(rs, total, UNKNOWN), start, mid, end);
    CountSplit(StateUnits(rs, total, BAD), start, mid, end);
  }

  /** Aggregation of ranges that are already in order: always possible. */
  method FillCells(total: U64, count: U64, ordered: seq<StateRange>) returns (cells: seq<Cell>, totals: seq<U64>)
    requires 0 < count <= MAX_EXACT_CELLS && count <= total
    requires Ordered(ordered, total)
    ensures |cells| == count && forall k :: 0 <= k < count ==> CountsUnits(ordered, total, count, k, cells[k])
    ensures Tallied(ordered, total, 0, total, totals)
  {
    hide Ordered, Tallied, CellBoundary;
    cells, totals := [], [0, 0, 0, 0];
    EmptyTally(ordered, total, 0);
    BoundaryEnds(total, count);
    AtLeastOnePerCell(total, count);
    var rangeIndex: nat := 0;
    var index := 0;
    while index < count
      invariant 0 <= index <= count && |cells| == index
      invariant rangeIndex <= |ordered|
      invariant rangeIndex > 0 ==> ordered[rangeIndex - 1].end <= CellBoundary(index, total, count)
      invariant forall k :: 0 <= k < index ==> CountsUnits(ordered, total, count, k, cells[k])
      invariant Tallied(ordered, total, 0, CellBoundary(index, total, count), totals)
    {
      BoundaryFits(index, total, count);
      BoundaryFits(index + 1, total, count);
      BoundaryWidth(index, total, count);
      var start: U64 := CellBoundary(index, total, count);
      var end: U64 := CellBoundary(index + 1, total, count);
      var counts;
      counts, rangeIndex := TallyCell(ordered, total, rangeIndex, start, end);
      TallyFits(ordered, total, start, end, counts);
      TallyFits(ordered, total, 0, start, totals);
      TallyAppend(ordered, total, 0, start, end, totals, counts);
      totals := [totals[FREE] + counts[FREE], totals[USED] + counts[USED],
                 totals[UNKNOWN] + counts[UNKNOWN], totals[BAD] + counts[BAD]];
      assert counts == [counts[FREE], counts[USED], counts[UNKNOWN], counts[BAD]];
      cells := cells + [Cell(start, end - 1, counts[FREE], counts[USED], counts[UNKNOWN], 0, counts[BAD], 0, 0)];
      index := index + 1;
    }
  }

  lemma SameDisk(a: seq<StateRange>, b: seq<StateRange>, total: nat)
    requires forall s :: ClaimedUnits(a, total, s) == ClaimedUnits(b, total, s)
    ensures forall s :: StateUnits(a, total, s) == StateUnits(b, total, s)
  {}

  /** The product of two 64-bit values, unless it overflows. */
  function MultiplyChecked(left: nat, right: nat): Option<U64> {
    if left * right <= U64_MAX then Some(left * right) else None
  }

  /** Buckets state ranges into so many cells as asked for, but at least one and none without a
    * unit.  Rejects exactly when there are no units, two entries share a unit, an entry carries an
    * unknown state, or the capacity overflows. */
  method AggregateRanges(total: U64, cellCount: U64, unitSize: U64, ranges: seq<StateRange>)
    returns (r: Option<Summary>)
    requires Min(cellCount, total) <= MAX_EXACT_CELLS
    ensures r.None? <==> total == 0 || Overlapping(ranges, total) || UnsupportedState(ranges, total) || total * unitSize > U64_MAX
    ensures r.Some? ==> IsSummary(ranges, total, |r.value.cells|, unitSize, r.value)
    ensures r.Some? ==>
              && (1 <= cellCount <= total ==> |r.value.cells| == cellCount)
              && (cellCount > total ==> |r.value.cells| == total)
              && (cellCount == 0 ==> |r.value.cells| == 1)
  {
    hide CellBoundary, Overlapping, UnsupportedState;
    if total == 0 {
      return None;
    }
    var count: U64 := Max(1, Min(cellCount, total));
    var ordering := OrderRanges(total, ranges);
    if ordering.None? {
      return None;
    }
    var ordered := ordering.value;
    var cells, totals := FillCells(total, count, ordered);
    TallyFits(ordered, total, 0, total, totals);
    SameDisk(ordered, ranges, total);
    var capacity := MultiplyChecked(total, unitSize);
    if capacity.None? {
      return None;
    }
    MulMonotone(totals[FREE], total, unitSize);
    MulMonotone(totals[USED], total, unitSize);
    MulMonotone(totals[UNKNOWN] + totals[BAD], total, unitSize);
    var free, used := MultiplyChecked(totals[FREE], unitSize), MultiplyChecked(totals[USED], unitSize);
    var unknown := MultiplyChecked(totals[UNKNOWN] + totals[BAD], unitSize);
    assert free.Some? && used.Some? && unknown.Some?;
    forall k | 0 <= k < count
      ensures CountsUnits(ranges, total, count, k, cells[k])
    {
      assert CountsUnits(ordered, total, count, k, cells[k]);
    }
    r := Some(Summary(cells, capacity.value, free.value, used.value, unknown.value));
  }

  // ---------------------------------------------------------------- overlays

  datatype OverlayField = FragmentedField | DirectoryField | BadField

  function WithField(cell: Cell, field: OverlayField, value: U64): Cell {
    match field
    case FragmentedField => cell.(fragmented := value)
    case DirectoryField => cell.(directory := value)
    case BadField => cell.(bad := value)
  }

  /** Cells in ascending order with representable exclusive ends. */
  ghost predicate Ascending(cells: seq<Cell>) {
    && (forall i :: 0 <= i < |cells| ==> cells[i].start <= cells[i].end < U64_MAX)
    && (forall i, j :: 0 <= i < j < |cells| ==> cells[i].end < cells[j].start)
  }

  lemma NormalAt(rs: seq<UnitRange>, i: nat)
    requires Normal(rs) && i < |rs|
    ensures rs[i].start < rs[i].end
    ensures i > 0 ==> rs[i - 1].end < rs[i].start
  {}

  /** A stretch between two ranges of a normal form adds nothing, one within a range adds all its units. */
  lemma CoverStretch(merged: seq<UnitRange>, i: nat, start: int, a: int, b: int)
    requires Normal(merged) && i <= |merged| && start <= a <= b
    requires i > 0 ==> merged[i - 1].end <= a
    ensures (i < |merged| ==> b <= merged[i].start) ==> Count(Covered(merged), start, b) == Count(Covered(merged), start, a)
    ensures i < |merged| && merged[i].start <= a && b <= merged[i].end ==>
              Count(Covered(merged), start, b) == Count(Covered(merged), start, a) + (b - a)
  {
    var S := Covered(merged);
    CountSplit(S, start, a, b);
    if i < |merged| ==> b <= merged[i].start {
      forall u | a <= u < b
        ensures !CoveredAt(merged, u)
      {
        forall k | 0 <= k < i
          ensures merged[k].end <= u
        {
          assert k < i - 1 ==> merged[k].end < merged[i - 1].start;
        }
        forall k | i <= k < |merged|
          ensures u < merged[k].start
        {
          assert i < k ==> merged[i].end < merged[k].start;
        }
        UncoveredBetween(merged, i, u);
      }
      CountNone(S, a, b);
    }
    if i < |merged| && merged[i].start <= a && b <= merged[i].end {
      forall u | a <= u < b
        ensures CoveredAt(merged, u)
      {
        assert merged[i] in merged && Holds(merged[i], u);
      }
      CountAll(S, a, b);
    }
  }

  /** Units of one cell that the merged ranges cover. */
  method OverlapOf(merged: seq<UnitRange>, rangeIndex: nat, start: U64, end: U64)
    returns (overlap: U64, next: nat)
    requires Normal(merged) && start < end
    requires rangeIndex <= |merged| && (rangeIndex > 0 ==> merged[rangeIndex - 1].end <= start)
    ensures overlap == Count(Covered(merged), start, end)
    ensures next <= |merged| && (next > 0 ==> merged[next - 1].end <= start)
  {
    hide Normal, Covered;
    next := rangeIndex;
    while next < |merged| && merged[next].end <= start
      invariant next <= |merged| && (next > 0 ==> merged[next - 1].end <= start)
    {
      next := next + 1;
    }
    overlap := 0;
    ghost var cursor: int := start;
    var check := next;
    while check < |merged| && merged[check].start < end
      invariant next <= check <= |merged| && start <= cursor <= end
      invariant check > 0 ==> merged[check - 1].end <= cursor
      invariant if check == next then cursor == start else cursor == merged[check - 1].end
      invariant check == next < |merged| ==> start < merged[check].end
      invariant overlap == Count(Covered(merged), start, cursor)
      decreases |merged| - check
    {
      NormalAt(merged, check);
      var from, to := Max(start, merged[check].start), Min(end, merged[check].end);
      CoverStretch(merged, check, start, cursor, from);
      CoverStretch(merged, check, start, from, to);
      CountBound(Covered(merged), start, to);
      var shared: U64 := to - from;
      overlap := overlap + Max(0, shared);
      cursor := to;
      if merged[check].end > end {
        break;
      }
      check := check + 1;
    }
    CoverStretch(merged, check, start, cursor, end);
  }

  /** Sets the field of every cell to the overlapped part of its used units. */
  method OverlayRanges(cells: array<Cell>, ranges: seq<UnitRange>, field: OverlayField) returns (total: U64)
    requires Ascending(cells[..])
    modifies cells
    ensures total == Count(Covered(ranges), 0, U64_MAX)
    ensures forall i :: 0 <= i < cells.Length ==>
              cells[i] == WithField(old(cells[i]), field,
                                    Min(old(cells[i]).used, Count(Covered(ranges), old(cells[i]).start, old(cells[i]).end + 1)))
  {
    hide Normal, Covered, Count, Ascending;
    var merged := MergeRanges(ranges);
    total := TotalLength(merged);
    ghost var before := cells[..];
    var rangeIndex: nat := 0;
    var index := 0;
    while index < cells.Length
      invariant 0 <= index <= cells.Length && rangeIndex <= |merged|
      invariant rangeIndex > 0 && index < cells.Length ==> merged[rangeIndex - 1].end <= before[index].start
      invariant forall i :: 0 <= i < index ==>
                  cells[i] == WithField(before[i], field, Min(before[i].used, Count(Covered(ranges), before[i].start, before[i].end + 1)))
      invariant forall i :: index <= i < cells.Length ==> cells[i] == before[i]
    {
      var cell := cells[index];
      assert cell == before[index];
      AscendingAt(before, index);
      var start: U64, end: U64 := cell.start, cell.end + 1;
      var overlap;
      overlap, rangeIndex := OverlapOf(merged, rangeIndex, start, end);
      cells[index] := WithField(cell, field, Min(cell.used, overlap));
      index := index + 1;
      AscendingAt(before, index);
    }
  }

  lemma AscendingAt(cells: seq<Cell>, i: nat)
    requires Ascending(cells)
    ensures 0 < i < |cells| ==> cells[i - 1].end < cells[i].start
    ensures i < |cells| ==> cells[i].start <= cells[i].end < U64_MAX
  {}

  method TotalLength(merged: seq<UnitRange>) returns (total: U64)
    requires Normal(merged)
    ensures total == Count(Covered(merged), 0, U64_MAX)
  {
    hide Normal, Covered;
    total := 0;
    ghost var cursor: nat := 0;
    for i := 0 to |merged|
      invariant total == Count(Covered(merged), 0, cursor) && cursor <= U64_MAX
      invariant i > 0 ==> cursor == merged[i - 1].end
      invariant i == 0 ==> cursor == 0
    {
      NormalAt(merged, i);
      var range := merged[i];
      CoverStretch(merged, i, 0, cursor, range.start);
      CoverStretch(merged, i, 0, range.start, range.end);
      CountBound(Covered(merged), 0, range.end);
      total := total + (range.end - range.start);
      cursor := range.end;
    }
    CoverStretch(merged, |merged|, 0, cursor, U64_MAX);
  }
}
