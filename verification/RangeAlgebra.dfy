/** Unit ranges of native/map.cpp: merging into a normal form, and complement. */
module RangeAlgebra {
  import opened MachineInts
  import opened Units
  import Sorting

  datatype UnitRange = UnitRange(start: U64, end: U64)

  predicate Holds(r: UnitRange, u: int) {
    r.start <= u < r.end
  }

  ghost function UnitsOf(r: UnitRange): iset<int> {
    iset u: int | Holds(r, u)
  }

  ghost predicate CoveredAt(rs: seq<UnitRange>, u: int) {
    exists r :: r in rs && Holds(r, u)
  }

  /** The disk units that some range of the list covers. */
  ghost function Covered(rs: seq<UnitRange>): iset<int> {
    iset u: int | CoveredAt(rs, u)
  }

  /** Normal form: non-empty ranges in ascending order with a gap of at least one unit. */
  ghost predicate Normal(rs: seq<UnitRange>) {
    && (forall i :: 0 <= i < |rs| ==> rs[i].start < rs[i].end)
    && (forall i, j :: 0 <= i < j < |rs| ==> rs[i].end < rs[j].start)
  }

  lemma CoveredAppend(rs: seq<UnitRange>, r: UnitRange)
    ensures Covered(rs + [r]) == Covered(rs) + UnitsOf(r)
  {
    forall u
      ensures CoveredAt(rs + [r], u) <==> CoveredAt(rs, u) || Holds(r, u)
    {
      if CoveredAt(rs, u) {
        var x :| x in rs && Holds(x, u);
        assert x in rs + [r];
      }
      if Holds(r, u) {
        assert r in rs + [r];
      }
    }
  }

  lemma CoveredPermutation(a: seq<UnitRange>, b: seq<UnitRange>)
    requires multiset(a) == multiset(b)
    ensures Covered(a) == Covered(b)
  {
    forall r
      ensures r in a <==> r in b
    {
      assert r in a <==> r in multiset(a);
      assert r in b <==> r in multiset(b);
    }
  }

  /** The unit just outside a range of a normal form, or between two, is not covered. */
  lemma NotCoveredBefore(rs: seq<UnitRange>, k: nat)
    requires Normal(rs) && k < |rs|
    ensures !CoveredAt(rs[..k], rs[k].start - 1)
    ensures forall u :: CoveredAt(rs[..k], u) ==> u < rs[k].start
    ensures forall u :: u >= rs[|rs| - 1].end ==> !CoveredAt(rs, u)
  {}

  lemma PeelLast(rs: seq<UnitRange>)
    requires Normal(rs) && rs != []
    ensures Normal(rs[..|rs| - 1])
    ensures Covered(rs[..|rs| - 1]) == Covered(rs) - UnitsOf(rs[|rs| - 1])
  {
    var k := |rs| - 1;
    assert rs == rs[..k] + [rs[k]];
    CoveredAppend(rs[..k], rs[k]);
    NotCoveredBefore(rs, k);
  }

  lemma LastIsAtLeast(a: seq<UnitRange>, b: seq<UnitRange>)
    requires Normal(a) && Normal(b) && a != [] && b != []
    requires Covered(a) == Covered(b)
    ensures a[|a| - 1].end <= b[|b| - 1].end
    ensures a[|a| - 1].end == b[|b| - 1].end ==> a[|a| - 1].start >= b[|b| - 1].start
  {
    var i, j := |a| - 1, |b| - 1;
    NotCoveredBefore(b, j);
    assert Holds(a[i], a[i].end - 1) && a[i].end - 1 in Covered(a);
    assert a[i].start < b[j].start < a[i].end ==> Holds(a[i], b[j].start - 1) && b[j].start - 1 in Covered(a);
  }

  lemma EmptyCover(rs: seq<UnitRange>)
    requires Normal(rs)
    ensures rs == [] <==> Covered(rs) == iset{}
  {
    if rs != [] {
      assert Holds(rs[0], rs[0].start) && rs[0].start in Covered(rs);
    }
  }

  /** A set of units has at most one normal form. */
  lemma {:induction false} NormalFormUnique(a: seq<UnitRange>, b: seq<UnitRange>)
    requires Normal(a) && Normal(b)
    requires Covered(a) == Covered(b)
    ensures a == b
    decreases |a|
  {
    hide Covered, Normal;
    EmptyCover(a);
    EmptyCover(b);
    if a != [] {
      var i, j := |a| - 1, |b| - 1;
      LastIsAtLeast(a, b);
      LastIsAtLeast(b, a);
      PeelLast(a);
      PeelLast(b);
      NormalFormUnique(a[..i], b[..j]);
      assert a == a[..i] + [a[i]] && b == b[..j] + [b[j]];
    }
  }

  /** One step of the merging sweep: extend the last range or start a new one. */
  lemma MergeStep(merged: seq<UnitRange>, r: UnitRange, next: seq<UnitRange>)
    requires Normal(merged) && r.start < r.end
    requires merged != [] ==> merged[|merged| - 1].start <= r.start
    requires next == if merged != [] && r.start <= merged[|merged| - 1].end
                     then merged[..|merged| - 1] + [merged[|merged| - 1].(end := Max(merged[|merged| - 1].end, r.end))]
                     else merged + [r]
    ensures Normal(next)
    ensures Covered(next) == Covered(merged) + UnitsOf(r)
  {
    hide Covered;
    if merged != [] && r.start <= merged[|merged| - 1].end {
      var init, last := merged[..|merged| - 1], merged[|merged| - 1];
      assert merged == init + [last];
      CoveredAppend(init, last);
      CoveredAppend(init, next[|merged| - 1]);
      assert UnitsOf(next[|merged| - 1]) == UnitsOf(last) + UnitsOf(r);
    } else {
      CoveredAppend(merged, r);
    }
  }

  function UnitKey(r: UnitRange): Sorting.Key {
    (r.start, r.end, 0)
  }

  method MergeRanges(ranges: seq<UnitRange>) returns (merged: seq<UnitRange>)
    ensures Normal(merged)
    ensures Covered(merged) == Covered(ranges)
  {
    var sorted := Sorting.Sort(ranges, UnitKey);
    CoveredPermutation(sorted, ranges);
    merged := [];
    var i := 0;
    while i < |sorted|
      invariant 0 <= i <= |sorted|
      invariant Normal(merged)
      invariant Covered(merged) == Covered(sorted[..i])
      invariant forall k :: merged != [] && i <= k < |sorted| ==> merged[|merged| - 1].start <= sorted[k].start
    {
      var range := sorted[i];
      assert sorted[..i + 1] == sorted[..i] + [range];
      CoveredAppend(sorted[..i], range);
      forall k | i < k < |sorted|
        ensures range.start <= sorted[k].start
      {
        assert Sorting.KeyLeq(UnitKey(sorted[i]), UnitKey(sorted[k]));
      }
      i := i + 1;
      if range.end <= range.start {
        assert UnitsOf(range) == iset{};
        continue;
      }
      ghost var before := merged;
      if merged != [] && range.start <= merged[|merged| - 1].end {
        var back := merged[|merged| - 1];
        merged := merged[|merged| - 1 := back.(end := Max(back.end, range.end))];
        assert merged == before[..|before| - 1] + [back.(end := Max(back.end, range.end))];
      } else {
        merged := merged + [range];
      }
      MergeStep(before, range, merged);
    }
    assert sorted[..|sorted|] == sorted;
  }

  /** The gaps that occupied ranges leave in [0, total), as a normal form. */
  ghost predicate IsComplement(total: nat, occupied: seq<UnitRange>, gaps: seq<UnitRange>) {
    Normal(gaps) && Covered(gaps) == Interval(0, total) - Covered(occupied)
  }

  /** State of the complement sweep: everything below cursor is settled. */
  ghost predicate Swept(total: nat, merged: seq<UnitRange>, i: nat, cursor: nat, gaps: seq<UnitRange>) {
    && i <= |merged| && cursor <= total
    && Normal(gaps)
    && (forall g :: g in gaps ==> g.end <= cursor && (cursor < total ==> g.end < cursor))
    && Covered(gaps) == Interval(0, cursor) - Covered(merged)
    && (cursor < total ==> forall k :: 0 <= k < i ==> merged[k].end <= cursor)
    && (cursor < total ==> forall k :: i <= k < |merged| ==> i == 0 || cursor < merged[k].start)
    && (i == 0 ==> cursor == 0)
  }

  lemma SweepStep(total: U64, merged: seq<UnitRange>, i: nat, cursor: U64, gaps: seq<UnitRange>, next: seq<UnitRange>)
    requires Normal(merged) && i < |merged| && cursor < total
    requires Swept(total, merged, i, cursor, gaps)
    requires var start := Min(total, merged[i].start);
             next == if start > cursor then gaps + [UnitRange(cursor, start)] else gaps
    ensures Swept(total, merged, i + 1, Max(cursor, Min(total, merged[i].end)), next)
  {
    hide Covered;
    var start, end := Min(total, merged[i].start), Min(total, merged[i].end);
    if start > cursor {
      CoveredAppend(gaps, UnitRange(cursor, start));
    }
    SettledUnits(total, merged, i, cursor);
    assert Covered(next) == Interval(0, Max(cursor, end)) - Covered(merged);
  }

  /** Between the cursor and the end of range i exactly the units from its start on are covered. */
  lemma SettledUnits(total: U64, merged: seq<UnitRange>, i: nat, cursor: U64)
    requires i < |merged|
    requires forall k :: 0 <= k < i ==> merged[k].end <= cursor
    requires forall k :: i < k < |merged| ==> merged[i].end < merged[k].start
    ensures forall u :: cursor <= u < Max(cursor, Min(total, merged[i].end)) ==>
              (u in Covered(merged) <==> Min(total, merged[i].start) <= u)
  {
    forall u | cursor <= u < Max(cursor, Min(total, merged[i].end))
      ensures CoveredAt(merged, u) <==> Min(total, merged[i].start) <= u
    {
      if u < Min(total, merged[i].start) {
        UncoveredBetween(merged, i, u);
      } else {
        assert merged[i] in merged && Holds(merged[i], u);
      }
    }
  }

  lemma UncoveredBetween(merged: seq<UnitRange>, i: nat, u: int)
    requires i <= |merged|
    requires forall k :: 0 <= k < i ==> merged[k].end <= u
    requires forall k :: i <= k < |merged| ==> u < merged[k].start
    ensures !CoveredAt(merged, u)
  {}

  lemma SweepEnds(total: U64, merged: seq<UnitRange>, cursor: U64, gaps: seq<UnitRange>, i: nat, next: seq<UnitRange>)
    requires Normal(merged)
    requires Swept(total, merged, i, cursor, gaps)
    requires cursor < total ==> i == |merged|
    requires next == if cursor < total then gaps + [UnitRange(cursor, total)] else gaps
    ensures IsComplement(total, merged, next)
  {
    if cursor < total {
      CoveredAppend(gaps, UnitRange(cursor, total));
      forall u | cursor <= u < total
        ensures !CoveredAt(merged, u)
      {
        UncoveredBetween(merged, |merged|, u);
      }
    }
  }

  method ComplementRanges(totalUnits: U64, occupied: seq<UnitRange>) returns (gaps: seq<UnitRange>)
    ensures IsComplement(totalUnits, occupied, gaps)
  {
    gaps := [];
    var cursor: U64 := 0;
    var merged := MergeRanges(occupied);
    var i := 0;
    assert Swept(totalUnits, merged, 0, 0, []);
    while i < |merged|
      invariant Swept(totalUnits, merged, i, cursor, gaps)
      invariant i == 0 || cursor < totalUnits
    {
      ghost var before := gaps;
      var start := Min(totalUnits, merged[i].start);
      var end := Min(totalUnits, merged[i].end);
      if start > cursor {
        gaps := gaps + [UnitRange(cursor, start)];
      }
      if cursor < totalUnits {
        SweepStep(totalUnits, merged, i, cursor, before, gaps);
      }
      cursor := Max(cursor, end);
      i := i + 1;
      if cursor >= totalUnits {
        break;
      }
    }
    ghost var before := gaps;
    if cursor < totalUnits {
      gaps := gaps + [UnitRange(cursor, totalUnits)];
    }
    SweepEnds(totalUnits, merged, cursor, before, i, gaps);
  }

  /** Complementing twice clamps to [0, total) and normalises; a normal form inside
    * [0, total) comes back unchanged. */
  lemma ComplementTwice(total: nat, occupied: seq<UnitRange>, gaps: seq<UnitRange>, back: seq<UnitRange>)
    requires IsComplement(total, occupied, gaps)
    requires IsComplement(total, gaps, back)
    ensures Normal(back) && Covered(back) == Covered(occupied) * Interval(0, total)
    ensures Normal(occupied) && (forall r :: r in occupied ==> r.end <= total) ==> back == occupied
  {
    assert Covered(back) == Covered(occupied) * Interval(0, total);
    if Normal(occupied) && forall r :: r in occupied ==> r.end <= total {
      assert Covered(back) == Covered(occupied);
      NormalFormUnique(back, occupied);
    }
  }

  /** Merging any two lists that cover the same units gives the same list. */
  lemma MergeIsCanonical(a: seq<UnitRange>, b: seq<UnitRange>, mergedA: seq<UnitRange>, mergedB: seq<UnitRange>)
    requires Normal(mergedA) && Covered(mergedA) == Covered(a)
    requires Normal(mergedB) && Covered(mergedB) == Covered(b)
    ensures Covered(a) == Covered(b) <==> mergedA == mergedB
  {
    if Covered(a) == Covered(b) {
      NormalFormUnique(mergedA, mergedB);
    }
  }
}
