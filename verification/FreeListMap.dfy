/** The free-list pipeline of native/map.cpp (read pairs, complement, aggregate, overlay)
  * and the validator of natively produced cells. */
module FreeListMap {
  import opened MachineInts
  import opened Wrappers
  import opened Units
  import opened RangeAlgebra
  import opened AllocationMap

  // ---------------------------------------------------------------- cell validation

  /** One cell of a valid map: no empty span, counters that add up to it, overlays within used. */
  ghost predicate CellRule(cell: Cell, first: nat, total: nat) {
    && cell.start == first && cell.start <= cell.end < total
    && cell.free as int + cell.used + cell.unknown + cell.outside + cell.bad == cell.end - cell.start + 1
    && cell.fragmented <= cell.used && cell.directory <= cell.used
  }

  /** The cells cover [first, total) without gap and each obeys its rule. */
  ghost predicate CellRules(cells: seq<Cell>, first: nat, total: nat) {
    && (forall i {:trigger CellRule(cells[i], StartOf(cells, first, i), total)} :: 0 <= i < |cells| ==> CellRule(cells[i], StartOf(cells, first, i), total))
    && StartOf(cells, first, |cells|) == total
  }

  /** Where cell i has to start. */
  function StartOf(cells: seq<Cell>, first: nat, i: nat): nat
    requires i <= |cells|
  {
    if i == 0 then first else cells[i - 1].end + 1
  }

  lemma RulesFailAt(cells: seq<Cell>, first: nat, total: nat, i: nat)
    requires i < |cells| && !CellRule(cells[i], StartOf(cells, first, i), total)
    ensures !CellRules(cells, first, total)
  {}

  /** The counter checks of one cell; every partial sum is held in a 64-bit variable. */
  method CountersAddUp(cell: Cell, span: U64) returns (ok: bool)
    ensures ok <==> cell.free as int + cell.used + cell.unknown + cell.outside + cell.bad == span
                    && cell.fragmented <= cell.used && cell.directory <= cell.used
  {
    if cell.free > span || cell.used > span || cell.unknown > span || cell.outside > span || cell.bad > span
       || cell.fragmented > cell.used || cell.directory > cell.used || cell.free > U64_MAX - cell.used {
      return false;
    }
    var sum: U64 := cell.free + cell.used;
    if sum > U64_MAX - cell.unknown {
      return false;
    }
    sum := sum + cell.unknown;
    if sum > U64_MAX - cell.outside {
      return false;
    }
    sum := sum + cell.outside;
    if sum > U64_MAX - cell.bad {
      return false;
    }
    sum := sum + cell.bad;
    ok := sum == span;
  }

  /** Decides the cell rules; no intermediate value of the check leaves 64 bits. */
  method ValidateCells(totalUnits: U64, cells: seq<Cell>) returns (ok: bool)
    ensures ok <==> CellRules(cells, 0, totalUnits)
  {
    var expectedStart: U64 := 0;
    var i := 0;
    while i < |cells|
      invariant 0 <= i <= |cells|
      invariant expectedStart == StartOf(cells, 0, i)
      invariant forall k {:trigger CellRule(cells[k], StartOf(cells, 0, k), totalUnits)} :: 0 <= k < i ==> CellRule(cells[k], StartOf(cells, 0, k), totalUnits)
    {
      var cell := cells[i];
      if cell.start != expectedStart || cell.end < cell.start || cell.end >= totalUnits {
        RulesFailAt(cells, 0, totalUnits, i);
        return false;
      }
      var span: U64 := cell.end - cell.start + 1;
      var consistent := CountersAddUp(cell, span);
      if !consistent {
        RulesFailAt(cells, 0, totalUnits, i);
        return false;
      }
      expectedStart := cell.end + 1;
      i := i + 1;
    }
    ok := expectedStart == totalUnits;
  }

  /** The cell loop of the FAT mapper: cells from unit 2 on that hold free and used units
    * only, with bad units within used, and totals that match the declared free count. */
  ghost predicate FatCellRule(cell: Cell, first: nat, clusters: nat) {
    && cell.start == first && cell.start <= cell.end < clusters + 2
    && cell.free as int + cell.used == cell.end - cell.start + 1
    && cell.fragmented <= cell.used && cell.directory <= cell.used && cell.bad <= cell.used
  }

  function FreeSum(cells: seq<Cell>, k: nat): nat
    requires k <= |cells|
  {
    if k == 0 then 0 else FreeSum(cells, k - 1) + cells[k - 1].free
  }

  ghost predicate FatCellRules(cells: seq<Cell>, clusters: nat, declaredFree: nat) {
    && (forall i {:trigger FatCellRule(cells[i], StartOf(cells, 2, i), clusters)} :: 0 <= i < |cells| ==> FatCellRule(cells[i], StartOf(cells, 2, i), clusters))
    && StartOf(cells, 2, |cells|) == clusters + 2
    && FreeSum(cells, |cells|) == declaredFree
  }

  lemma FatRulesFailAt(cells: seq<Cell>, clusters: nat, declaredFree: nat, i: nat)
    requires i < |cells| && !FatCellRule(cells[i], StartOf(cells, 2, i), clusters)
    ensures !FatCellRules(cells, clusters, declaredFree)
  {}

  /** Decides the FAT cell rules.  The sum of a cell's counters is not guarded, and need not be. */
  method ValidateFatCells(total: U64, declaredFree: U64, cells: seq<Cell>) returns (ok: bool)
    requires total <= U64_MAX - 2 && declaredFree <= total
    ensures ok <==> FatCellRules(cells, total, declaredFree)
  {
    var expectedStart: U64, freeTotal: U64, usedTotal: U64 := 2, 0, 0;
    var i := 0;
    while i < |cells|
      invariant 0 <= i <= |cells|
      invariant expectedStart == StartOf(cells, 2, i) <= total + 2
      invariant freeTotal == FreeSum(cells, i)
      invariant freeTotal as int + usedTotal == expectedStart - 2
      invariant forall k {:trigger FatCellRule(cells[k], StartOf(cells, 2, k), total)} :: 0 <= k < i ==> FatCellRule(cells[k], StartOf(cells, 2, k), total)
    {
      var cell := cells[i];
      if cell.start != expectedStart || cell.end < cell.start || cell.end >= total + 2 {
        FatRulesFailAt(cells, total, declaredFree, i);
        return false;
      }
      var span: U64 := cell.end - cell.start + 1;
      if cell.free > span || cell.used > span || Wrap(cell.free + cell.used) != span
         || cell.fragmented > cell.used || cell.directory > cell.used || cell.bad > cell.used {
        FatRulesFailAt(cells, total, declaredFree, i);
        return false;
      }
      freeTotal := freeTotal + cell.free;
      usedTotal := usedTotal + cell.used;
      expectedStart := cell.end + 1;
      i := i + 1;
    }
    ok := expectedStart == total + 2 && freeTotal == declaredFree && usedTotal == total - declaredFree;
  }

  // ---------------------------------------------------------------- range lists of the analysers

  predicate IsPair(value: seq<U64>, total: nat) {
    |value| == 2 && value[0] < value[1] <= total
  }

  function AsRange(value: seq<U64>): UnitRange
    requires |value| == 2
  {
    UnitRange(value[0], value[1])
  }

  /** A list that an analyser may omit unless it is required. */
  ghost predicate Readable(raw: Option<seq<seq<U64>>>, total: nat, required: bool) {
    if raw.None? then !required else forall i :: 0 <= i < |raw.value| ==> IsPair(raw.value[i], total)
  }

  function RangesOf(raw: Option<seq<seq<U64>>>): seq<UnitRange>
    requires raw.Some? ==> forall i :: 0 <= i < |raw.value| ==> |raw.value[i]| == 2
  {
    if raw.None? then [] else seq(|raw.value|, i requires 0 <= i < |raw.value| => AsRange(raw.value[i]))
  }

  method PairRanges(raw: Option<seq<seq<U64>>>, total: U64, required: bool) returns (r: Option<seq<UnitRange>>)
    ensures r.Some? <==> Readable(raw, total, required)
    ensures r.Some? <==> if raw.None? then !required
                         else forall i :: 0 <= i < |raw.value| ==> |raw.value[i]| == 2 && raw.value[i][0] < raw.value[i][1] <= total
    ensures r.Some? ==> r.value == RangesOf(raw)
    ensures r.Some? && raw.Some? ==>
              |r.value| == |raw.value|
              && forall i :: 0 <= i < |r.value| ==> r.value[i].start == raw.value[i][0] && r.value[i].end == raw.value[i][1]
  {
    if raw.None? {
      return if required then None else Some([]);
    }
    var ranges: seq<UnitRange> := [];
    for i := 0 to |raw.value|
      invariant |ranges| == i
      invariant forall k :: 0 <= k < i ==> IsPair(raw.value[k], total) && ranges[k] == AsRange(raw.value[k])
    {
      var value := raw.value[i];
      if |value| != 2 || value[1] <= value[0] || value[1] > total {
        assert !IsPair(raw.value[i], total);
        return None;
      }
      ranges := ranges + [AsRange(value)];
    }
    r := Some(ranges);
  }

  // ---------------------------------------------------------------- free list to map

  /** Every range lies in [0, total) and is not empty. */
  ghost predicate Within(ranges: seq<UnitRange>, total: nat) {
    forall i :: 0 <= i < |ranges| ==> ranges[i].start < ranges[i].end <= total
  }

  ghost predicate SharedUnits(ranges: seq<UnitRange>) {
    exists i, j :: 0 <= i < j < |ranges| && Max(ranges[i].start, ranges[j].start) < Min(ranges[i].end, ranges[j].end)
  }

  function Tag(ranges: seq<UnitRange>, state: U32): seq<StateRange> {
    seq(|ranges|, i requires 0 <= i < |ranges| => StateRange(ranges[i].start, ranges[i].end, state))
  }

  lemma TagClaims(ranges: seq<UnitRange>, total: nat, state: U32, s: nat)
    requires Within(ranges, total)
    ensures ClaimedUnits(Tag(ranges, state), total, s) == if s == state then Covered(ranges) else iset{}
  {
    var tagged := Tag(ranges, state);
    forall u
      ensures ClaimedAs(tagged, total, s, u) <==> s == state && CoveredAt(ranges, u)
    {
      if ClaimedAs(tagged, total, s, u) {
        var r :| r in tagged && r.state == s && Claims(r, total, u);
        var i :| 0 <= i < |tagged| && tagged[i] == r;
        assert ranges[i] in ranges && Holds(ranges[i], u);
      }
      if s == state && CoveredAt(ranges, u) {
        var r :| r in ranges && Holds(r, u);
        var i :| 0 <= i < |ranges| && ranges[i] == r;
        assert tagged[i] in tagged && Claims(tagged[i], total, u);
      }
    }
  }

  lemma ClaimsConcat(a: seq<StateRange>, b: seq<StateRange>, total: nat, s: nat)
    ensures ClaimedUnits(a + b, total, s) == ClaimedUnits(a, total, s) + ClaimedUnits(b, total, s)
  {
    forall u
      ensures ClaimedAs(a + b, total, s, u) <==> ClaimedAs(a, total, s, u) || ClaimedAs(b, total, s, u)
    {
      if ClaimedAs(a, total, s, u) {
        var r :| r in a && r.state == s && Claims(r, total, u);
        assert r in a + b;
      }
      if ClaimedAs(b, total, s, u) {
        var r :| r in b && r.state == s && Claims(r, total, u);
        assert r in a + b;
      }
    }
  }

  lemma ComplementWithin(total: nat, occupied: seq<UnitRange>, gaps: seq<UnitRange>)
    requires IsComplement(total, occupied, gaps)
    ensures Within(gaps, total)
  {
    forall i | 0 <= i < |gaps|
      ensures gaps[i].end <= total
    {
      assert Holds(gaps[i], gaps[i].end - 1) && gaps[i].end - 1 in Covered(gaps);
    }
  }

  /** The per-unit disk that a free list and its complement describe: no unknown unit. */
  lemma FreeListDisk(total: nat, free: seq<UnitRange>, used: seq<UnitRange>)
    requires Within(free, total) && IsComplement(total, free, used)
    ensures var states := Tag(free, FREE) + Tag(used, USED);
            && StateUnits(states, total, FREE) == Covered(free)
            && StateUnits(states, total, USED) == Interval(0, total) - Covered(free)
            && StateUnits(states, total, UNKNOWN) == iset{}
            && StateUnits(states, total, BAD) == iset{}
  {
    hide ClaimedUnits, Covered;
    var states := Tag(free, FREE) + Tag(used, USED);
    ComplementWithin(total, free, used);
    forall s: nat
      ensures ClaimedUnits(states, total, s) == if s == FREE then Covered(free) else if s == USED then Covered(used) else iset{}
    {
      ClaimsConcat(Tag(free, FREE), Tag(used, USED), total, s);
      TagClaims(free, total, FREE, s);
      TagClaims(used, total, USED, s);
    }
  }

  /** Adding the complement introduces no overlap and no unsupported state. */
  lemma FreeListOverlap(total: nat, free: seq<UnitRange>, used: seq<UnitRange>)
    requires Within(free, total) && IsComplement(total, free, used)
    ensures var states := Tag(free, FREE) + Tag(used, USED);
            && (Overlapping(states, total) <==> SharedUnits(free))
            && !UnsupportedState(states, total)
  {
    var states := Tag(free, FREE) + Tag(used, USED);
    ComplementWithin(total, free, used);
    forall i, j | 0 <= i < j < |states|
      ensures Clash(states[i], states[j], total) <==>
                j < |free| && Max(free[i].start, free[j].start) < Min(free[i].end, free[j].end)
    {
      if j >= |free| && Clash(states[i], states[j], total) {
        if i < |free| {
          ApartFromComplement(total, free, used, i, j - |free|);
        }
        assert false;
      }
    }
    if SharedUnits(free) {
      var i, j :| 0 <= i < j < |free| && Max(free[i].start, free[j].start) < Min(free[i].end, free[j].end);
      assert Clash(states[i], states[j], total);
    }
  }

  lemma InCover(ranges: seq<UnitRange>, j: nat, u: int)
    requires j < |ranges| && Holds(ranges[j], u)
    ensures u in Covered(ranges)
  {
    assert ranges[j] in ranges;
  }

  lemma ApartFromComplement(total: nat, free: seq<UnitRange>, used: seq<UnitRange>, i: nat, j: nat)
    requires IsComplement(total, free, used) && i < |free| && j < |used|
    ensures Max(free[i].start, used[j].start) >= Min(free[i].end, used[j].end)
  {
    var u := Max(free[i].start, used[j].start);
    if u < Min(free[i].end, used[j].end) {
      InCover(free, i, u);
      InCover(used, j, u);
    }
  }

  datatype FreeMap = FreeMap(summary: Summary, fragmentedUnits: U64, directoryUnits: U64)

  /** The exact content of cell k of a map made from a free list. */
  ghost predicate ExactCell(free: seq<UnitRange>, fragmented: seq<UnitRange>, directory: seq<UnitRange>,
                            total: nat, count: nat, k: nat, cell: Cell)
    requires count > 0
  {
    && cell.start == CellBoundary(k, total, count) && cell.end + 1 == CellBoundary(k + 1, total, count)
    && cell.start <= cell.end < total
    && cell.free == Count(Covered(free), cell.start, cell.end + 1)
    && cell.used == cell.end - cell.start + 1 - cell.free
    && cell.fragmented == Min(cell.used, Count(Covered(fragmented), cell.start, cell.end + 1))
    && cell.directory == Min(cell.used, Count(Covered(directory), cell.start, cell.end + 1))
    && cell.unknown == cell.outside == cell.bad == 0
  }

  /** A map that agrees with the free list unit by unit. */
  ghost predicate ExactMap(free: seq<UnitRange>, fragmented: seq<UnitRange>, directory: seq<UnitRange>,
                           total: nat, count: nat, unit: nat, m: FreeMap)
  {
    && |m.summary.cells| == count > 0
    && (forall k :: 0 <= k < count ==> ExactCell(free, fragmented, directory, total, count, k, m.summary.cells[k]))
    && m.summary.totalBytes == total * unit
    && m.summary.freeBytes == Count(Covered(free), 0, total) * unit
    && m.summary.freeBytes as int + m.summary.usedBytes == m.summary.totalBytes
    && m.summary.unknownBytes == 0
    && m.fragmentedUnits == Count(Covered(fragmented), 0, U64_MAX)
    && m.directoryUnits == Count(Covered(directory), 0, U64_MAX)
  }

  /** Exact maps satisfy the rules that natively produced cells are checked against. */
  lemma ExactMapIsValid(free: seq<UnitRange>, fragmented: seq<UnitRange>, directory: seq<UnitRange>,
                        total: nat, count: nat, unit: nat, m: FreeMap)
    requires ExactMap(free, fragmented, directory, total, count, unit, m)
    ensures CellRules(m.summary.cells, 0, total)
  {
    hide CellBoundary, Covered;
    var cells := m.summary.cells;
    BoundaryEnds(total, count);
    forall i | 0 <= i < |cells|
      ensures CellRule(cells[i], StartOf(cells, 0, i), total)
    {
      assert ExactCell(free, fragmented, directory, total, count, i, cells[i]);
      assert i > 0 ==> ExactCell(free, fragmented, directory, total, count, i - 1, cells[i - 1]);
    }
    assert ExactCell(free, fragmented, directory, total, count, count - 1, cells[count - 1]);
  }

  // ---------------------------------------------------------------- the EXT overlay

  /** The EXT mapper overlays metadata as "bad": the cell then keeps the sum rule
    * exactly when it has no used unit or no metadata unit. */
  lemma BadOverlayKeepsRule(free: seq<UnitRange>, fragmented: seq<UnitRange>, directory: seq<UnitRange>, metadata: seq<UnitRange>,
                            total: nat, count: nat, k: nat, cell: Cell, overlaid: Cell)
    requires count > 0 && ExactCell(free, fragmented, directory, total, count, k, cell)
    requires overlaid == cell.(bad := Min(cell.used, Count(Covered(metadata), cell.start, cell.end + 1)))
    ensures CellRule(overlaid, cell.start, total) <==> cell.used == 0 || Count(Covered(metadata), cell.start, cell.end + 1) == 0
  {}

  /** Cell k holds a unit that is not free and a unit, the same one or another, that is metadata. */
  ghost predicate MixedCell(free: seq<UnitRange>, metadata: seq<UnitRange>, total: nat, count: nat, k: nat)
    requires count > 0
  {
    exists u, v :: u !in Covered(free) && v in Covered(metadata) && InCell(total, count, k, u) && InCell(total, count, k, v)
  }

  predicate InCell(total: nat, count: nat, k: nat, u: int)
    requires count > 0
  {
    CellBoundary(k, total, count) <= u < CellBoundary(k + 1, total, count)
  }

  /** The cells after the overlay of metadata. */
  ghost predicate MetadataOverlaid(plain: seq<Cell>, metadata: seq<UnitRange>, overlaid: seq<Cell>) {
    && |overlaid| == |plain|
    && forall k :: 0 <= k < |plain| ==>
         overlaid[k] == plain[k].(bad := Min(plain[k].used, Count(Covered(metadata), plain[k].start, plain[k].end + 1)))
  }

  lemma MixedIsCounted(free: seq<UnitRange>, fragmented: seq<UnitRange>, directory: seq<UnitRange>, metadata: seq<UnitRange>,
                       total: nat, count: nat, k: nat, cell: Cell)
    requires count > 0 && ExactCell(free, fragmented, directory, total, count, k, cell)
    ensures MixedCell(free, metadata, total, count, k) <==> cell.used > 0 && Count(Covered(metadata), cell.start, cell.end + 1) > 0
  {
    hide CellBoundary, Covered;
    var lo, hi := cell.start, cell.end + 1;
    if MixedCell(free, metadata, total, count, k) {
      var u, v :| u !in Covered(free) && v in Covered(metadata) && InCell(total, count, k, u) && InCell(total, count, k, v);
      CountMember(Covered(free), lo, u, hi);
      CountMember(Covered(metadata), lo, v, hi);
    }
    if cell.used > 0 && Count(Covered(metadata), lo, hi) > 0 {
      if forall u :: lo <= u < hi ==> u in Covered(free) {
        CountAll(Covered(free), lo, hi);
      }
      if forall v :: lo <= v < hi ==> v !in Covered(metadata) {
        CountNone(Covered(metadata), lo, hi);
      }
      var u :| lo <= u < hi && u !in Covered(free);
      var v :| lo <= v < hi && v in Covered(metadata);
      assert InCell(total, count, k, u) && InCell(total, count, k, v);
    }
  }

  /** An exact map keeps the rule through the overlay exactly when no cell mixes used units with metadata. */
  lemma MetadataMapKeepsRules(free: seq<UnitRange>, fragmented: seq<UnitRange>, directory: seq<UnitRange>, metadata: seq<UnitRange>,
                              total: nat, count: nat, unit: nat, m: FreeMap, overlaid: seq<Cell>)
    requires ExactMap(free, fragmented, directory, total, count, unit, m)
    requires MetadataOverlaid(m.summary.cells, metadata, overlaid)
    ensures CellRules(overlaid, 0, total) <==> forall k :: 0 <= k < count ==> !MixedCell(free, metadata, total, count, k)
  {
    hide CellBoundary, Covered, MixedCell;
    var cells := m.summary.cells;
    ExactMapIsValid(free, fragmented, directory, total, count, unit, m);
    forall k: nat | k < count
      ensures StartOf(overlaid, 0, k) == StartOf(cells, 0, k) == cells[k].start
      ensures CellRule(overlaid[k], StartOf(overlaid, 0, k), total) <==> !MixedCell(free, metadata, total, count, k)
    {
      assert CellRule(cells[k], StartOf(cells, 0, k), total);
      assert ExactCell(free, fragmented, directory, total, count, k, cells[k]);
      BadOverlayKeepsRule(free, fragmented, directory, metadata, total, count, k, cells[k], overlaid[k]);
      MixedIsCounted(free, fragmented, directory, metadata, total, count, k, cells[k]);
    }
  }

  /** Every unit lies in a cell. */
  lemma {:induction false} CellOf(total: nat, count: nat, u: int, top: nat) returns (k: nat)
    requires 0 < count && top <= count && 0 <= u < CellBoundary(top, total, count)
    ensures k < top && InCell(total, count, k, u)
  {
    if top == 0 {
      BoundaryEnds(total, count);
      assert false;
    } else if CellBoundary(top - 1, total, count) <= u {
      k := top - 1;
    } else {
      k := CellOf(total, count, u, top - 1);
    }
  }

  /** When metadata is never free, as a classifier and an allocation bitmap that agree would say,
    * the map keeps the rule only if there is no metadata at all. */
  lemma AllocatedMetadataBreaksRules(free: seq<UnitRange>, fragmented: seq<UnitRange>, directory: seq<UnitRange>, metadata: seq<UnitRange>,
                                     total: nat, count: nat, unit: nat, m: FreeMap, overlaid: seq<Cell>)
    requires ExactMap(free, fragmented, directory, total, count, unit, m)
    requires MetadataOverlaid(m.summary.cells, metadata, overlaid)
    requires Covered(metadata) !! Covered(free)
    ensures CellRules(overlaid, 0, total) <==> Covered(metadata) !! Interval(0, total)
  {
    hide CellBoundary, Covered;
    MetadataMapKeepsRules(free, fragmented, directory, metadata, total, count, unit, m, overlaid);
    BoundaryEnds(total, count);
    forall u | u in Covered(metadata) && u in Interval(0, total)
      ensures exists k :: 0 <= k < count && MixedCell(free, metadata, total, count, k)
    {
      var k := CellOf(total, count, u, count);
      assert u !in Covered(free) && InCell(total, count, k, u);
      assert MixedCell(free, metadata, total, count, k);
    }
    forall k | 0 <= k < count && MixedCell(free, metadata, total, count, k)
      ensures exists v :: v in Covered(metadata) && v in Interval(0, total)
    {
      var u, v :| u !in Covered(free) && v in Covered(metadata) && InCell(total, count, k, u) && InCell(total, count, k, v);
      BoundaryMonotone(0, k, total, count);
      BoundaryMonotone(k + 1, count, total, count);
      assert Between(0, v, total);
    }
  }

  /** A cell straight from aggregation of a free list and its complement. */
  lemma AggregatedCell(free: seq<UnitRange>, used: seq<UnitRange>, total: nat, count: nat, k: nat, cell: Cell)
    requires count > 0 && Within(free, total) && IsComplement(total, free, used)
    requires CountsUnits(Tag(free, FREE) + Tag(used, USED), total, count, k, cell)
    ensures cell.free == Count(Covered(free), cell.start, cell.end + 1)
    ensures cell.used == cell.end - cell.start + 1 - cell.free
    ensures cell.unknown == cell.outside == cell.bad == cell.fragmented == cell.directory == 0
  {
    hide StateUnits, CellBoundary, Covered;
    FreeListDisk(total, free, used);
    CountNone(iset{}, cell.start, cell.end + 1);
  }

  lemma AggregatedCells(free: seq<UnitRange>, used: seq<UnitRange>, total: nat, count: nat, unit: nat, m: Summary)
    requires Within(free, total) && IsComplement(total, free, used) && count <= total
    requires 0 < count <= MAX_EXACT_CELLS && total <= U64_MAX
    requires IsSummary(Tag(free, FREE) + Tag(used, USED), total, count, unit, m)
    ensures forall k :: 0 <= k < count ==>
              var cell := m.cells[k];
              && cell.free == Count(Covered(free), cell.start, cell.end + 1)
              && cell.used == cell.end - cell.start + 1 - cell.free
              && cell.unknown == cell.outside == cell.bad == cell.fragmented == cell.directory == 0
              && cell.start == CellBoundary(k, total, count) && cell.end + 1 == CellBoundary(k + 1, total, count)
              && cell.start <= cell.end < total
    ensures Ascending(m.cells)
  {
    hide CellBoundary, Covered, Tallied;
    forall k | 0 <= k < count
      ensures var cell := m.cells[k];
              && cell.free == Count(Covered(free), cell.start, cell.end + 1)
              && cell.used == cell.end - cell.start + 1 - cell.free
              && cell.unknown == cell.outside == cell.bad == cell.fragmented == cell.directory == 0
              && cell.end < total
    {
      assert CountsUnits(Tag(free, FREE) + Tag(used, USED), total, count, k, m.cells[k]);
      AggregatedCell(free, used, total, count, k, m.cells[k]);
      BoundaryFits(k + 1, total, count);
    }
    forall i, j | 0 <= i < j < count
      ensures m.cells[i].end < m.cells[j].start
    {
      assert CountsUnits(Tag(free, FREE) + Tag(used, USED), total, count, i, m.cells[i]);
      assert CountsUnits(Tag(free, FREE) + Tag(used, USED), total, count, j, m.cells[j]);
      BoundaryMonotone(i + 1, j, total, count);
    }
    forall i | 0 <= i < count
      ensures m.cells[i].start <= m.cells[i].end < U64_MAX
    {
      assert CountsUnits(Tag(free, FREE) + Tag(used, USED), total, count, i, m.cells[i]);
    }
  }

  lemma Distribute(a: nat, b: nat, k: nat)
    ensures a * k + b * k == (a + b) * k
  {}

  lemma AggregatedTotals(free: seq<UnitRange>, used: seq<UnitRange>, total: nat, count: nat, unit: nat, m: Summary)
    requires Within(free, total) && IsComplement(total, free, used)
    requires IsSummary(Tag(free, FREE) + Tag(used, USED), total, count, unit, m)
    ensures m.totalBytes == total * unit
    ensures m.freeBytes == Count(Covered(free), 0, total) * unit
    ensures m.freeBytes as int + m.usedBytes == m.totalBytes
    ensures m.unknownBytes == 0
  {
    hide StateUnits, Covered, CountsUnits, Tallied;
    FreeListDisk(total, free, used);
    CountNone(iset{}, 0, total);
    var F := Covered(free);
    CountDisjointUnion(F, Interval(0, total) - F, 0, total);
    CountAll(F + (Interval(0, total) - F), 0, total);
    var f, u := Count(F, 0, total), Count(Interval(0, total) - F, 0, total);
    Distribute(f, u, unit);
  }

  lemma CellsAscend(free: seq<UnitRange>, used: seq<UnitRange>, total: nat, count: nat, unit: nat, m: Summary)
    requires Within(free, total) && IsComplement(total, free, used) && count <= total
    requires 0 < count <= MAX_EXACT_CELLS && total <= U64_MAX
    requires IsSummary(Tag(free, FREE) + Tag(used, USED), total, count, unit, m)
    ensures Ascending(m.cells)
  {
    AggregatedCells(free, used, total, count, unit, m);
  }

  /** An aggregated free list whose cells have taken both overlays is exact. */
  lemma OverlaidIsExact(free: seq<UnitRange>, used: seq<UnitRange>, fragmented: seq<UnitRange>, directory: seq<UnitRange>,
                        total: nat, unit: nat, m: Summary, finished: FreeMap)
    requires Within(free, total) && IsComplement(total, free, used) && |m.cells| <= total
    requires 0 < |m.cells| <= MAX_EXACT_CELLS && total <= U64_MAX
    requires IsSummary(Tag(free, FREE) + Tag(used, USED), total, |m.cells|, unit, m)
    requires finished.summary == m.(cells := finished.summary.cells) && |finished.summary.cells| == |m.cells|
    requires forall i :: 0 <= i < |m.cells| ==>
               finished.summary.cells[i]
               == m.cells[i].(fragmented := Min(m.cells[i].used, Count(Covered(fragmented), m.cells[i].start, m.cells[i].end + 1)),
                              directory := Min(m.cells[i].used, Count(Covered(directory), m.cells[i].start, m.cells[i].end + 1)))
    requires finished.fragmentedUnits == Count(Covered(fragmented), 0, U64_MAX)
    requires finished.directoryUnits == Count(Covered(directory), 0, U64_MAX)
    ensures ExactMap(free, fragmented, directory, total, |m.cells|, unit, finished)
    ensures CellRules(finished.summary.cells, 0, total)
  {
    hide CellBoundary, Covered, IsComplement, CellRules, Ascending;
    AggregatedCells(free, used, total, |m.cells|, unit, m);
    AggregatedTotals(free, used, total, |m.cells|, unit, m);
    ExactMapIsValid(free, fragmented, directory, total, |m.cells|, unit, finished);
  }

  /** Builds a map from a list of free pairs: possible exactly when every list can be read,
    * there are units, no unit is free twice and the capacity is representable; the map is
    * then exact, unit by unit. */
  method GenericFreeRangeMap(freeRaw: Option<seq<seq<U64>>>, fragmentedRaw: Option<seq<seq<U64>>>, directoryRaw: Option<seq<seq<U64>>>,
                             cellCount: U64, total: U64, unitSize: U64)
    returns (r: Option<FreeMap>)
    requires Min(cellCount, total) <= MAX_EXACT_CELLS
    ensures r.Some? <==>
              && Readable(freeRaw, total, true) && Readable(fragmentedRaw, total, false) && Readable(directoryRaw, total, false)
              && total > 0 && !SharedUnits(RangesOf(freeRaw)) && total * unitSize <= U64_MAX
    ensures r.Some? ==>
              && (1 <= cellCount <= total ==> |r.value.summary.cells| == cellCount)
              && (cellCount > total ==> |r.value.summary.cells| == total)
              && (cellCount == 0 ==> |r.value.summary.cells| == 1)
              && ExactMap(RangesOf(freeRaw), RangesOf(fragmentedRaw), RangesOf(directoryRaw), total,
                          |r.value.summary.cells|, unitSize, r.value)
              && CellRules(r.value.summary.cells, 0, total)
  {
    hide CellBoundary, Covered, SharedUnits, Overlapping, UnsupportedState, IsComplement, CellRules, Ascending, ExactMap, IsSummary;
    var freeRead := PairRanges(freeRaw, total, true);
    if freeRead.None? {
      return None;
    }
    var free := freeRead.value;
    var used := ComplementRanges(total, free);
    FreeListOverlap(total, free, used);
    var aggregated := AggregateRanges(total, cellCount, unitSize, Tag(free, FREE) + Tag(used, USED));
    if aggregated.None? {
      return None;
    }
    var fragmented := PairRanges(fragmentedRaw, total, false);
    if fragmented.None? {
      return None;
    }
    var directory := PairRanges(directoryRaw, total, false);
    if directory.None? {
      return None;
    }
    var m := aggregated.value;
    CellsAscend(free, used, total, |m.cells|, unitSize, m);
    var overlaid, fragmentedUnits, directoryUnits := OverlayFragmentation(m.cells, fragmented.value, directory.value);
    var finished := FreeMap(m.(cells := overlaid), fragmentedUnits, directoryUnits);
    OverlaidIsExact(free, used, fragmented.value, directory.value, total, unitSize, m, finished);
    r := Some(finished);
  }

  /** Overlays both fragmentation lists on a fresh copy of the cells. */
  method OverlayFragmentation(cells: seq<Cell>, fragmented: seq<UnitRange>, directory: seq<UnitRange>)
    returns (overlaid: seq<Cell>, fragmentedUnits: U64, directoryUnits: U64)
    requires Ascending(cells)
    ensures fragmentedUnits == Count(Covered(fragmented), 0, U64_MAX)
    ensures directoryUnits == Count(Covered(directory), 0, U64_MAX)
    ensures |overlaid| == |cells|
    ensures forall i :: 0 <= i < |cells| ==>
              overlaid[i] == cells[i].(fragmented := Min(cells[i].used, Count(Covered(fragmented), cells[i].start, cells[i].end + 1)),
                                       directory := Min(cells[i].used, Count(Covered(directory), cells[i].start, cells[i].end + 1)))
  {
    hide Covered;
    var work := new Cell[|cells|](i requires 0 <= i < |cells| => cells[i]);
    assert work[..] == cells;
    fragmentedUnits := OverlayRanges(work, fragmented, FragmentedField);
    directoryUnits := OverlayRanges(work, directory, DirectoryField);
    overlaid := work[..];
  }

  /** The map of an EXT volume: a free-list map whose cells then take the metadata overlay.  The
    * result obeys the cell rules exactly when no cell mixes used units with metadata. */
  method MapExt(freeRaw: Option<seq<seq<U64>>>, fragmentedRaw: Option<seq<seq<U64>>>, directoryRaw: Option<seq<seq<U64>>>,
                metadataRaw: Option<seq<seq<U64>>>, cellCount: U64, total: U64, unitSize: U64)
    returns (r: Option<FreeMap>, metadataUnits: U64, ghost plain: FreeMap)
    requires Min(cellCount, total) <= MAX_EXACT_CELLS
    ensures r.Some? <==>
              && Readable(freeRaw, total, true) && Readable(fragmentedRaw, total, false) && Readable(directoryRaw, total, false)
              && total > 0 && !SharedUnits(RangesOf(freeRaw)) && total * unitSize <= U64_MAX
              && Readable(metadataRaw, total, true)
    ensures r.Some? ==>
              && (1 <= cellCount <= total ==> |r.value.summary.cells| == cellCount)
              && (cellCount > total ==> |r.value.summary.cells| == total)
              && (cellCount == 0 ==> |r.value.summary.cells| == 1)
              && ExactMap(RangesOf(freeRaw), RangesOf(fragmentedRaw), RangesOf(directoryRaw), total,
                          |r.value.summary.cells|, unitSize, plain)
              && MetadataOverlaid(plain.summary.cells, RangesOf(metadataRaw), r.value.summary.cells)
              && r.value == plain.(summary := plain.summary.(cells := r.value.summary.cells))
              && metadataUnits == Count(Covered(RangesOf(metadataRaw)), 0, U64_MAX)
              && (CellRules(r.value.summary.cells, 0, total) <==>
                  forall k :: 0 <= k < |r.value.summary.cells| ==>
                    !MixedCell(RangesOf(freeRaw), RangesOf(metadataRaw), total, |r.value.summary.cells|, k))
  {
    hide CellBoundary, Covered, SharedUnits, ExactCell, CellRules, MixedCell, Ascending;
    plain := FreeMap(Summary([], 0, 0, 0, 0), 0, 0);
    var mapped := GenericFreeRangeMap(freeRaw, fragmentedRaw, directoryRaw, cellCount, total, unitSize);
    if mapped.None? {
      return None, 0, plain;
    }
    var metadata := PairRanges(metadataRaw, total, true);
    if metadata.None? {
      return None, 0, plain;
    }
    plain := mapped.value;
    var unmarked := mapped.value;
    var cells := unmarked.summary.cells;
    RulesAscend(cells, total);
    var work := new Cell[|cells|](i requires 0 <= i < |cells| => cells[i]);
    assert work[..] == cells;
    metadataUnits := OverlayRanges(work, metadata.value, BadField);
    var overlaid := work[..];
    MetadataMapKeepsRules(RangesOf(freeRaw), RangesOf(fragmentedRaw), RangesOf(directoryRaw), metadata.value, total,
                          |cells|, unitSize, plain, overlaid);
    r := Some(unmarked.(summary := unmarked.summary.(cells := overlaid)));
  }

  lemma {:induction false} RulesOrder(cells: seq<Cell>, total: U64, i: nat, j: nat)
    requires CellRules(cells, 0, total) && i < j < |cells|
    ensures cells[i].end < cells[j].start
  {
    assert CellRule(cells[j], StartOf(cells, 0, j), total);
    if i < j - 1 {
      RulesOrder(cells, total, i, j - 1);
      assert CellRule(cells[j - 1], StartOf(cells, 0, j - 1), total);
    }
  }

  lemma RulesAscend(cells: seq<Cell>, total: U64)
    requires CellRules(cells, 0, total)
    ensures Ascending(cells)
  {
    forall i | 0 <= i < |cells|
      ensures cells[i].start <= cells[i].end < U64_MAX
    {
      assert CellRule(cells[i], StartOf(cells, 0, i), total);
    }
    forall i, j | 0 <= i < j < |cells|
      ensures cells[i].end < cells[j].start
    {
      RulesOrder(cells, total, i, j);
    }
  }
}
