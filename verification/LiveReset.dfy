/** The reset event of native/desktop_live_map.cpp: rebuilding every cell from the filesystem
  * extent and a list of used byte ranges. */
module LiveReset {
  import opened MachineInts
  import opened Wrappers
  import opened Units
  import opened LiveMap

  datatype ResetPayload = ResetPayload(hasReason: bool, unitSize: U64, filesystemUnits: Option<U64>, usedRanges: Option<seq<seq<U64>>>)

  /** Units of the cell below the end of the filesystem. */
  function Inside(cell: Cell, total: nat): nat {
    OverlapLength(0, total, cell.start, cell.end + 1)
  }

  /** A cell of the rebuilt map when so many units of it have been reported used. */
  function Rebuilt(cell: Cell, total: nat, reported: nat): Cell
    requires cell.start <= cell.end < U64_MAX
  {
    var inside := Inside(cell, total);
    cell.(free := inside - Min(inside, reported), used := Min(inside, reported), unknown := 0,
          outside := cell.end + 1 - cell.start - inside, fragmented := 0, directory := 0, bad := 0)
  }

  // ---------------------------------------------------------------- marking

  /** Units marked for one used range [begin, begin + length) in bytes, as [MarkFirst, MarkLast). */
  function MarkFirst(range: seq<U64>, unit: nat): nat
    requires |range| == 2 && unit > 0
  {
    FirstUnit(range[0], unit)
  }

  function MarkLast(range: seq<U64>, unit: nat, total: nat): nat
    requires |range| == 2 && unit > 0
  {
    if range[0] >= total * unit then MarkFirst(range, unit)
    else CeilingUnits(range[0] + Min(range[1], total * unit - range[0]), unit)
  }

  function MarkedBy(range: seq<U64>, unit: nat, total: nat, cell: Cell): nat
    requires |range| == 2 && unit > 0
  {
    OverlapLength(MarkFirst(range, unit), MarkLast(range, unit, total), cell.start, cell.end + 1)
  }

  /** Units of the cell that the k first ranges mark, counted once per range. */
  function Reported(ranges: seq<seq<U64>>, unit: nat, total: nat, cell: Cell, k: nat): nat
    requires k <= |ranges| && unit > 0
  {
    if k == 0 then 0
    else Reported(ranges, unit, total, cell, k - 1) + if |ranges[k - 1]| == 2 then MarkedBy(ranges[k - 1], unit, total, cell) else 0
  }

  lemma MarkBounds(range: seq<U64>, unit: nat, total: nat)
    requires |range| == 2 && unit > 0 && range[0] < total * unit <= U64_MAX
    ensures MarkFirst(range, unit) == FirstUnit(range[0], unit)
    ensures MarkLast(range, unit, total) == CeilingUnits(range[0] + Min(range[1], total * unit - range[0]), unit)
    ensures MarkFirst(range, unit) <= MarkLast(range, unit, total) <= U64_MAX
  {
    FirstUnitFits(range[0], unit);
    var length := Min(range[1], total * unit - range[0]);
    if length > 0 {
      UnitsOfBytes(range[0], length, unit);
    }
  }

  function MarkCell(cell: Cell, first: nat, last: nat): Cell
    requires cell.free as int + cell.used <= U64_MAX
  {
    var moved := Min(OverlapLength(first, last, cell.start, cell.end + 1), cell.free);
    cell.(free := cell.free - moved, used := cell.used + moved)
  }

  lemma MarkRebuilt(cell: Cell, total: nat, reported: nat, first: nat, last: nat)
    requires cell.start <= cell.end < U64_MAX
    ensures var c := Rebuilt(cell, total, reported);
            && c.free as int + c.used <= U64_MAX
            && MarkCell(c, first, last) == Rebuilt(cell, total, reported + OverlapLength(first, last, cell.start, cell.end + 1))
  {}

  /** Every cell has been rebuilt with the units that the k first ranges report. */
  ghost predicate RebuiltTo(before: seq<Cell>, now: seq<Cell>, ranges: seq<seq<U64>>, unit: nat, total: nat, k: nat)
    requires k <= |ranges| && unit > 0
  {
    && |now| == |before|
    && forall i :: 0 <= i < |before| ==>
         before[i].start <= before[i].end < U64_MAX && now[i] == Rebuilt(before[i], total, Reported(ranges, unit, total, before[i], k))
  }

  lemma RebuiltOrdered(before: seq<Cell>, now: seq<Cell>, ranges: seq<seq<U64>>, unit: nat, total: nat, k: nat)
    requires k <= |ranges| && unit > 0
    requires OrderedCells(before) && RebuiltTo(before, now, ranges, unit, total, k)
    ensures OrderedCells(now)
  {
    hide Inside, Reported;
  }

  /** The cells up to index carry one more marked interval than the others. */
  ghost predicate Marking(from: seq<Cell>, now: seq<Cell>, index: nat, first: nat, last: nat) {
    && |now| == |from| && index <= |from|
    && (forall i :: 0 <= i < |from| ==> from[i].free as int + from[i].used <= U64_MAX)
    && (forall i :: 0 <= i < index ==> now[i] == MarkCell(from[i], first, last))
    && (forall i :: index <= i < |from| ==> now[i] == from[i])
  }

  lemma MarkMisses(cell: Cell, first: nat, last: nat)
    requires cell.free as int + cell.used <= U64_MAX
    requires cell.end < first || last <= cell.start || last <= first
    ensures MarkCell(cell, first, last) == cell
  {}

  lemma MarkingEnds(from: seq<Cell>, now: seq<Cell>, index: nat, first: nat, last: nat)
    requires OrderedCells(from) && Marking(from, now, index, first, last)
    requires index < |from| ==> last <= now[index].start
    ensures Marking(from, now, |from|, first, last)
  {
    forall i | index <= i < |from|
      ensures MarkCell(from[i], first, last) == now[i]
    {
      assert index < i ==> from[index].end < from[i].start;
      MarkMisses(from[i], first, last);
    }
  }

  lemma MarkingStarts(from: seq<Cell>, bound: nat, first: nat, last: nat)
    requires bound <= |from|
    requires forall i :: 0 <= i < |from| ==> from[i].free as int + from[i].used <= U64_MAX
    requires forall i :: 0 <= i < bound ==> from[i].end < first
    ensures Marking(from, from, bound, first, last)
  {
    forall i | 0 <= i < bound
      ensures MarkCell(from[i], first, last) == from[i]
    {
      MarkMisses(from[i], first, last);
    }
  }

  /** A range that starts at or past the end of the filesystem marks nothing. */
  lemma NothingMarked(from: seq<Cell>, range: seq<U64>, unit: nat, total: nat)
    requires |range| == 2 && unit > 0 && range[0] >= total * unit
    requires forall i :: 0 <= i < |from| ==> from[i].free as int + from[i].used <= U64_MAX
    ensures Marking(from, from, |from|, MarkFirst(range, unit), MarkLast(range, unit, total))
  {
    forall i | 0 <= i < |from|
      ensures MarkCell(from[i], MarkFirst(range, unit), MarkLast(range, unit, total)) == from[i]
    {
      MarkMisses(from[i], MarkFirst(range, unit), MarkLast(range, unit, total));
    }
  }

  lemma MarkOne(from: seq<Cell>, now: seq<Cell>, index: nat, first: nat, last: nat, next: seq<Cell>)
    requires Marking(from, now, index, first, last) && index < |from|
    requires next == now[index := MarkCell(from[index], first, last)]
    ensures Marking(from, next, index + 1, first, last)
  {}

  /** Moves the units of one used range from free to used, in place. */
  method Mark(changed: array<Cell>, range: seq<U64>, unit: U64, total: U64)
    requires |range| == 2 && unit > 0 && total * unit <= U64_MAX
    requires OrderedCells(changed[..])
    requires forall i :: 0 <= i < changed.Length ==> changed[i].end < U64_MAX && changed[i].free as int + changed[i].used <= U64_MAX
    modifies changed
    ensures Marking(old(changed[..]), changed[..], changed.Length, MarkFirst(range, unit), MarkLast(range, unit, total))
  {
    hide OrderedCells, MarkFirst, MarkLast, FirstUnit, CeilingUnits, Marking;
    ghost var from := changed[..];
    var begin, length := range[0], range[1];
    var limit: U64 := total * unit;
    if begin >= limit {
      NothingMarked(from, range, unit, total);
      return;
    }
    MarkBounds(range, unit, total);
    var first: U64 := FirstUnit(begin, unit);
    var last: U64 := CeilingUnits(begin + Min(length, limit - begin), unit);
    var bound := LowerBound(changed, first);
    var index := bound;
    MarkingStarts(from, bound, first, last);
    while index < changed.Length && changed[index].start < last
      invariant bound <= index <= changed.Length
      invariant Marking(from, changed[..], index, first, last)
    {
      MarkUnderway(from, changed[..], bound, index, first, last);
      var cell := changed[index];
      var cellEnd: U64 := cell.end + 1;
      var overlap: U64 := Min(cellEnd, last) - Max(cell.start, first);
      ghost var now := changed[..];
      if overlap != 0 {
        var moved := Min(overlap, cell.free);
        changed[index] := cell.(free := cell.free - moved, used := cell.used + moved);
      }
      assert changed[..] == now[index := MarkCell(from[index], first, last)];
      MarkOne(from, now, index, first, last, changed[..]);
      index := index + 1;
    }
    MarkingEnds(from, changed[..], index, first, last);
  }

  lemma MarkUnderway(from: seq<Cell>, now: seq<Cell>, bound: nat, index: nat, first: nat, last: nat)
    requires OrderedCells(from) && Marking(from, now, index, first, last)
    requires bound <= index < |from| && first <= last
    requires forall i :: 0 <= i < |from| ==> from[i].end < U64_MAX
    requires forall i :: bound <= i < |from| ==> first <= from[i].end
    requires now[index].start < last
    ensures now[index] == from[index] && from[index].start <= from[index].end < U64_MAX
    ensures first <= from[index].end
    ensures from[index].free as int + from[index].used <= U64_MAX
    ensures Min(from[index].end + 1, last) - Max(from[index].start, first) == OverlapLength(first, last, from[index].start, from[index].end + 1)
  {}

  lemma RebuiltMarked(before: seq<Cell>, from: seq<Cell>, now: seq<Cell>, ranges: seq<seq<U64>>, unit: nat, total: nat, k: nat)
    requires k < |ranges| && unit > 0 && |ranges[k]| == 2
    requires RebuiltTo(before, from, ranges, unit, total, k)
    requires Marking(from, now, |from|, MarkFirst(ranges[k], unit), MarkLast(ranges[k], unit, total))
    ensures RebuiltTo(before, now, ranges, unit, total, k + 1)
  {
    hide Rebuilt, MarkFirst, MarkLast, MarkCell;
    forall i | 0 <= i < |before|
      ensures now[i] == Rebuilt(before[i], total, Reported(ranges, unit, total, before[i], k + 1))
    {
      MarkRebuilt(before[i], total, Reported(ranges, unit, total, before[i], k), MarkFirst(ranges[k], unit), MarkLast(ranges[k], unit, total));
    }
  }

  lemma RebuiltFits(before: seq<Cell>, now: seq<Cell>, ranges: seq<seq<U64>>, unit: nat, total: nat, k: nat)
    requires k <= |ranges| && unit > 0
    requires RebuiltTo(before, now, ranges, unit, total, k)
    ensures forall i :: 0 <= i < |now| ==> now[i].end < U64_MAX && now[i].free as int + now[i].used <= U64_MAX
  {
    hide Reported;
  }

  lemma RebuiltStarts(before: seq<Cell>, now: seq<Cell>, ranges: seq<seq<U64>>, unit: nat, total: nat)
    requires unit > 0 && |now| == |before|
    requires forall i :: 0 <= i < |before| ==> before[i].start <= before[i].end < U64_MAX && now[i] == Rebuilt(before[i], total, 0)
    ensures RebuiltTo(before, now, ranges, unit, total, 0)
  {}

  /** Walks the used-range list; fails at the first entry that is not a pair. */
  method MarkAll(changed: array<Cell>, ranges: seq<seq<U64>>, unit: U64, total: U64, ghost before: seq<Cell>) returns (ok: bool)
    requires unit > 0 && total * unit <= U64_MAX && OrderedCells(before)
    requires RebuiltTo(before, changed[..], ranges, unit, total, 0)
    modifies changed
    ensures ok <==> forall i :: 0 <= i < |ranges| ==> |ranges[i]| == 2
    ensures ok ==> RebuiltTo(before, changed[..], ranges, unit, total, |ranges|)
  {
    hide OrderedCells, Rebuilt, Marking, MarkFirst, MarkLast, RebuiltTo;
    var k := 0;
    while k < |ranges|
      invariant 0 <= k <= |ranges|
      invariant forall i :: 0 <= i < k ==> |ranges[i]| == 2
      invariant RebuiltTo(before, changed[..], ranges, unit, total, k)
    {
      if |ranges[k]| != 2 {
        return false;
      }
      ghost var from := changed[..];
      RebuiltOrdered(before, from, ranges, unit, total, k);
      RebuiltFits(before, from, ranges, unit, total, k);
      SameLength(before, from, ranges, unit, total, k);
      assert forall i :: 0 <= i < changed.Length ==> changed[i] == from[i];
      Mark(changed, ranges[k], unit, total);
      RebuiltMarked(before, from, changed[..], ranges, unit, total, k);
      k := k + 1;
    }
    ok := true;
  }

  lemma SameLength(before: seq<Cell>, now: seq<Cell>, ranges: seq<seq<U64>>, unit: nat, total: nat, k: nat)
    requires k <= |ranges| && unit > 0
    requires RebuiltTo(before, now, ranges, unit, total, k)
    ensures |now| == |before|
  {}

  // ---------------------------------------------------------------- the reset event

  /** validate_cells: the cells are in order. */
  method ValidateCells(cells: array<Cell>) returns (ok: bool)
    ensures ok <==> ValidCount(cells.Length) && OrderedCells(cells[..])
  {
    if !ValidCount(cells.Length) {
      return false;
    }
    var previous: U64 := 0;
    var index := 0;
    while index < cells.Length
      invariant 0 <= index <= cells.Length
      invariant OrderedCells(cells[..index])
      invariant index > 0 ==> previous == cells[index - 1].end
    {
      if cells[index].end < cells[index].start || (index > 0 && cells[index].start <= previous) {
        NotOrdered(cells[..], index);
        return false;
      }
      OrderGrows(cells[..index], cells[index]);
      assert cells[..index + 1] == cells[..index] + [cells[index]];
      previous := cells[index].end;
      index := index + 1;
    }
    assert cells[..index] == cells[..];
    ok := true;
  }

  lemma NotOrdered(cells: seq<Cell>, i: nat)
    requires i < |cells|
    requires cells[i].end < cells[i].start || (i > 0 && cells[i].start <= cells[i - 1].end)
    ensures !OrderedCells(cells)
  {}

  lemma OrderGrows(cells: seq<Cell>, cell: Cell)
    requires OrderedCells(cells) && cell.start <= cell.end
    requires cells != [] ==> cells[|cells| - 1].end < cell.start
    ensures OrderedCells(cells + [cell])
  {
    var grown := cells + [cell];
    forall i, j | 0 <= i < j < |grown|
      ensures grown[i].end < grown[j].start
    {
      if j == |cells| && i < |cells| - 1 {
        assert cells[i].end < cells[|cells| - 1].start;
      }
    }
  }

  /** The unit size that a reset works with. */
  function ResetUnit(fields: map<string, U64>, payload: ResetPayload): U64 {
    if payload.unitSize != 0 then payload.unitSize else UnitSize(fields)
  }

  function ResetTotal(payload: ResetPayload): U64 {
    if payload.filesystemUnits.Some? then payload.filesystemUnits.value else 0
  }

  function UnitsPast(fields: map<string, U64>, total: nat): nat {
    Max(0, Number(fields, "total_units") - total)
  }

  /** The unit size is that of the payload, or else of the map, where "cluster_size" stands in for
    * "unit_size". */
  lemma ResetUnitIs(fields: map<string, U64>, payload: ResetPayload)
    ensures payload.unitSize != 0 ==> ResetUnit(fields, payload) == payload.unitSize
    ensures payload.unitSize == 0 && "unit_size" in fields && fields["unit_size"] != 0 ==> ResetUnit(fields, payload) == fields["unit_size"]
    ensures payload.unitSize == 0 && ("unit_size" !in fields || fields["unit_size"] == 0) && "cluster_size" in fields ==>
              ResetUnit(fields, payload) == fields["cluster_size"]
    ensures payload.unitSize == 0 && ("unit_size" !in fields || fields["unit_size"] == 0) && "cluster_size" !in fields ==>
              ResetUnit(fields, payload) == 0
    ensures payload.filesystemUnits.Some? ==> ResetTotal(payload) == payload.filesystemUnits.value
    ensures payload.filesystemUnits.None? ==> ResetTotal(payload) == 0
  {}

  /** Units of the map past the filesystem end. */
  lemma UnitsPastIs(fields: map<string, U64>, total: nat)
    ensures "total_units" in fields && fields["total_units"] > total ==> total + UnitsPast(fields, total) == fields["total_units"]
    ensures "total_units" !in fields || fields["total_units"] <= total ==> UnitsPast(fields, total) == 0
  {}

  /** When a reset that asks for a change is accepted. */
  ghost predicate Acceptable(fields: map<string, U64>, cells: seq<Cell>, payload: ResetPayload) {
    var unit, total := ResetUnit(fields, payload), ResetTotal(payload);
    && unit != 0
    && cells != [] && cells[|cells| - 1].end < U64_MAX
    && 0 < total <= cells[|cells| - 1].end + 1
    && payload.usedRanges.Some? && |payload.usedRanges.value| <= MAX_CELLS
    && (forall i :: 0 <= i < |payload.usedRanges.value| ==> |payload.usedRanges.value[i]| == 2)
    && total * unit <= U64_MAX
    && UnitsPast(fields, total) * unit <= U64_MAX
  }

  /** A reset.  A notice or a rejection changes nothing; an accepted reset rebuilds every cell
    * from the reported ranges and the extent, whatever the cells counted before. */
  method DesktopLiveReset(info: MapInfo, cells: array<Cell>, payload: ResetPayload) returns (ok: bool)
    modifies info, cells
    ensures ok <==> ValidCount(cells.Length) && OrderedCells(old(cells[..]))
                    && ((payload.hasReason && payload.filesystemUnits.None?) || Acceptable(old(info.fields), old(cells[..]), payload))
    ensures !ok || (payload.hasReason && payload.filesystemUnits.None?) ==> cells[..] == old(cells[..]) && info.fields == old(info.fields)
    ensures ok && !(payload.hasReason && payload.filesystemUnits.None?) ==>
              var unit, total := ResetUnit(old(info.fields), payload), ResetTotal(payload);
              var ranges := payload.usedRanges.value;
              && RebuiltTo(old(cells[..]), cells[..], ranges, unit, total, |ranges|)
              && info.fields == old(info.fields)["filesystem_units" := total]["filesystem_bytes" := total * unit]
                                                ["outside_bytes" := UnitsPast(old(info.fields), total) * unit]
    ensures OrderedCells(old(cells[..])) ==> OrderedCells(cells[..])
  {
    hide OrderedCells, Rebuilt, RebuiltTo, ResetUnit, ResetTotal, UnitsPast, UnitSize, Number, Reported,
         MarkFirst, MarkLast, MarkedBy, Marking, CeilingUnits, FirstUnit, Inside, OverlapLength;
    ghost var before := cells[..];
    var valid := ValidateCells(cells);
    if !valid {
      return false;
    }
    if payload.hasReason && payload.filesystemUnits.None? {
      return true;
    }
    var unit := ResetUnit(info.fields, payload);
    var total := ResetTotal(payload);
    var lastEnd := cells[cells.Length - 1].end;
    if unit == 0 || lastEnd == U64_MAX || total == 0 || total > lastEnd + 1 {
      return false;
    }
    EndsBelow(before, cells.Length - 1);
    if payload.usedRanges.None? || |payload.usedRanges.value| > MAX_CELLS {
      return false;
    }
    var ranges := payload.usedRanges.value;
    if total * unit > U64_MAX {
      return false;
    }
    var marked, changed := RebuildCells(cells, ranges, unit, total);
    if !marked {
      return false;
    }
    var past := UnitsPast(info.fields, total);
    if past * unit > U64_MAX {
      return false;
    }
    RebuiltOrdered(before, changed[..], ranges, unit, total, |ranges|);
    SameLength(before, changed[..], ranges, unit, total, |ranges|);
    Swap(cells, changed);
    info.fields := info.fields["filesystem_units" := total]["filesystem_bytes" := total * unit]["outside_bytes" := past * unit];
    ok := true;
  }

  /** Rebuilds a copy of the cells from the ranges; fails at the first entry that is not a pair. */
  method RebuildCells(cells: array<Cell>, ranges: seq<seq<U64>>, unit: U64, total: U64) returns (ok: bool, changed: array<Cell>)
    requires unit > 0 && total * unit <= U64_MAX && OrderedCells(cells[..])
    requires forall i :: 0 <= i < cells.Length ==> cells[i].start <= cells[i].end < U64_MAX
    ensures fresh(changed) && changed.Length == cells.Length && cells[..] == old(cells[..])
    ensures ok <==> forall i :: 0 <= i < |ranges| ==> |ranges[i]| == 2
    ensures ok ==> RebuiltTo(cells[..], changed[..], ranges, unit, total, |ranges|)
  {
    hide OrderedCells, Rebuilt, RebuiltTo;
    changed := new Cell[cells.Length](i requires 0 <= i < cells.Length && cells[i].start <= cells[i].end < U64_MAX reads cells =>
                                        Rebuilt(cells[i], total, 0));
    RebuiltStarts(cells[..], changed[..], ranges, unit, total);
    ok := MarkAll(changed, ranges, unit, total, cells[..]);
  }

  lemma EndsBelow(cells: seq<Cell>, last: nat)
    requires OrderedCells(cells) && last == |cells| - 1 && cells[last].end < U64_MAX
    ensures forall i :: 0 <= i < |cells| ==> cells[i].start <= cells[i].end < U64_MAX
  {}

  /** cells.swap(changed): the live cells take over the rebuilt ones. */
  method Swap(cells: array<Cell>, changed: array<Cell>)
    requires cells.Length == changed.Length && cells != changed
    modifies cells
    ensures cells[..] == changed[..]
  {
    for i := 0 to cells.Length
      invariant forall k :: 0 <= k < i ==> cells[k] == changed[k]
    {
      cells[i] := changed[i];
    }
  }

  // ---------------------------------------------------------------- what a reset means

  /** Some byte of the range lies in the unit, and the unit below the end of the filesystem. */
  predicate CoversUnit(range: seq<U64>, unit: nat, total: nat, u: int)
    requires |range| == 2
  {
    range[1] > 0 && 0 <= u < total && range[0] < (u + 1) * unit && u * unit < range[0] as int + range[1]
  }

  lemma UnitReached(bytes: nat, unit: nat, u: nat)
    requires unit > 0
    ensures bytes / unit <= u <==> bytes < (u + 1) * unit
    ensures u < CeilingUnits(bytes, unit) <==> u * unit < bytes
  {
    var q, r := bytes / unit, bytes % unit;
    assert bytes == q * unit + r;
    if q <= u {
      MulMonotone(q + 1, u + 1, unit);
      MulMonotone(q, u, unit);
    } else {
      MulMonotone(u + 1, q, unit);
    }
    if u < q {
      MulMonotone(u + 1, q, unit);
    }
  }

  lemma BelowLimit(unit: nat, total: nat, u: nat)
    requires unit > 0
    ensures u < total <==> u * unit < total * unit
  {
    if u < total {
      MulMonotone(u + 1, total, unit);
    } else {
      MulMonotone(total, u, unit);
    }
  }

  /** A non-empty range marks exactly the units it covers, clipped at the filesystem end. */
  lemma MarkIsCover(range: seq<U64>, unit: nat, total: nat, u: int)
    requires |range| == 2 && unit > 0 && range[1] > 0
    ensures MarkFirst(range, unit) <= u < MarkLast(range, unit, total) <==> CoversUnit(range, unit, total, u)
  {
    if u >= 0 {
      UnitReached(range[0], unit, u);
      BelowLimit(unit, total, u);
      if range[0] < total * unit {
        UnitReached(range[0] + Min(range[1], total * unit - range[0]), unit, u);
      } else if u < total {
        MulMonotone(u + 1, total, unit);
      }
    }
  }

  /** An empty range covers no unit, and marks none exactly when it starts on a unit
    * boundary or past the end; elsewhere the unit it points into is marked. */
  lemma EmptyRangeMarks(range: seq<U64>, unit: nat, total: nat)
    requires |range| == 2 && unit > 0 && range[1] == 0
    ensures MarkFirst(range, unit) == MarkLast(range, unit, total) <==> range[0] % unit == 0 || range[0] >= total * unit
    ensures forall u :: !CoversUnit(range, unit, total, u)
  {}

  /** What a range has to be for the reset to read it right: non-empty, or empty at a unit
    * boundary or past the end. */
  predicate Harmless(range: seq<U64>, unit: nat, total: nat)
    requires |range| == 2 && unit > 0
  {
    range[1] > 0 || range[0] % unit == 0 || range[0] >= total * unit
  }

  /** Exactly the harmless ranges mark exactly the units they cover. */
  lemma MarksExactly(range: seq<U64>, unit: nat, total: nat)
    requires |range| == 2 && unit > 0
    ensures Harmless(range, unit, total) <==>
              forall u {:trigger CoversUnit(range, unit, total, u)} ::
                MarkFirst(range, unit) <= u < MarkLast(range, unit, total) <==> CoversUnit(range, unit, total, u)
  {
    hide CoversUnit, MarkFirst, MarkLast;
    if range[1] > 0 {
      forall u
        ensures MarkFirst(range, unit) <= u < MarkLast(range, unit, total) <==> CoversUnit(range, unit, total, u)
      {
        MarkIsCover(range, unit, total, u);
      }
    } else {
      EmptyRangeMarks(range, unit, total);
      MarkInOrder(range, unit, total);
      assert !CoversUnit(range, unit, total, MarkFirst(range, unit));
    }
  }

  lemma MarkInOrder(range: seq<U64>, unit: nat, total: nat)
    requires |range| == 2 && unit > 0
    ensures MarkFirst(range, unit) <= MarkLast(range, unit, total)
  {
    if range[0] < total * unit {
      var length := Min(range[1], total * unit - range[0]);
      if length > 0 {
        UnitsOfBytes(range[0], length, unit);
      }
    }
  }

  ghost predicate Covers(ranges: seq<seq<U64>>, unit: nat, total: nat, k: nat, u: int)
    requires k <= |ranges| && forall i :: 0 <= i < |ranges| ==> |ranges[i]| == 2
  {
    exists i :: 0 <= i < k && CoversUnit(ranges[i], unit, total, u)
  }

  /** Units below the filesystem end that the k first ranges cover. */
  ghost function CoveredUnits(ranges: seq<seq<U64>>, unit: nat, total: nat, k: nat): iset<int>
    requires k <= |ranges| && forall i :: 0 <= i < |ranges| ==> |ranges[i]| == 2
  {
    iset u: int | Covers(ranges, unit, total, k, u)
  }

  /** No unit is covered by two ranges. */
  ghost predicate UnitDisjoint(ranges: seq<seq<U64>>, unit: nat, total: nat)
    requires forall i :: 0 <= i < |ranges| ==> |ranges[i]| == 2
  {
    forall i, j, u :: 0 <= i < j < |ranges| && CoversUnit(ranges[i], unit, total, u) ==> !CoversUnit(ranges[j], unit, total, u)
  }

  lemma {:induction false} ReportedIsCount(ranges: seq<seq<U64>>, unit: nat, total: nat, cell: Cell, k: nat)
    requires k <= |ranges| && unit > 0 && cell.start <= cell.end
    requires forall i :: 0 <= i < |ranges| ==> |ranges[i]| == 2 && Harmless(ranges[i], unit, total)
    requires UnitDisjoint(ranges, unit, total)
    ensures Reported(ranges, unit, total, cell, k) == Count(CoveredUnits(ranges, unit, total, k), cell.start, cell.end + 1)
  {
    hide CoversUnit, MarkFirst, MarkLast, Harmless;
    var lo, hi := cell.start, cell.end + 1;
    if k == 0 {
      CountNone(CoveredUnits(ranges, unit, total, 0), lo, hi);
    } else {
      ReportedIsCount(ranges, unit, total, cell, k - 1);
      var earlier := CoveredUnits(ranges, unit, total, k - 1);
      var first, last := MarkFirst(ranges[k - 1], unit), MarkLast(ranges[k - 1], unit, total);
      var own := Interval(first, last);
      MarksExactly(ranges[k - 1], unit, total);
      assert forall u :: u in own <==> CoversUnit(ranges[k - 1], unit, total, u);
      CountInterval(own, first, last, lo, hi);
      CountDisjointUnion(earlier, own, lo, hi);
      assert CoveredUnits(ranges, unit, total, k) == earlier + own;
    }
  }

  /** Whatever the ranges are, they report at least the units they cover. */
  lemma {:induction false} ReportedCovers(ranges: seq<seq<U64>>, unit: nat, total: nat, cell: Cell, k: nat)
    requires k <= |ranges| && unit > 0 && cell.start <= cell.end
    requires forall i :: 0 <= i < |ranges| ==> |ranges[i]| == 2
    ensures Reported(ranges, unit, total, cell, k) >= Count(CoveredUnits(ranges, unit, total, k), cell.start, cell.end + 1)
  {
    hide CoversUnit, MarkFirst, MarkLast;
    var lo, hi := cell.start, cell.end + 1;
    if k == 0 {
      CountNone(CoveredUnits(ranges, unit, total, 0), lo, hi);
    } else {
      ReportedCovers(ranges, unit, total, cell, k - 1);
      var range := ranges[k - 1];
      var earlier := CoveredUnits(ranges, unit, total, k - 1);
      var first, last := MarkFirst(range, unit), MarkLast(range, unit, total);
      var own := Interval(first, last);
      forall u | CoversUnit(range, unit, total, u)
        ensures u in own
      {
        if range[1] > 0 {
          MarkIsCover(range, unit, total, u);
        } else {
          EmptyRangeMarks(range, unit, total);
          assert false;
        }
      }
      CountInterval(own, first, last, lo, hi);
      CountCovered(CoveredUnits(ranges, unit, total, k), earlier, own, lo, hi);
    }
  }

  /** A rebuilt cell never understates use: used is at least the covered units of the cell. */
  lemma ResetNeverUnderstates(ranges: seq<seq<U64>>, unit: nat, total: nat, cell: Cell)
    requires unit > 0 && cell.start <= cell.end < U64_MAX
    requires forall i :: 0 <= i < |ranges| ==> |ranges[i]| == 2
    ensures Rebuilt(cell, total, Reported(ranges, unit, total, cell, |ranges|)).used
            >= Count(CoveredUnits(ranges, unit, total, |ranges|), cell.start, cell.end + 1)
  {
    var U := CoveredUnits(ranges, unit, total, |ranges|);
    var lo, hi := cell.start, cell.end + 1;
    ReportedCovers(ranges, unit, total, cell, |ranges|);
    CountInterval(Interval(0, total), 0, total, lo, hi);
    CountCovered(U, Interval(0, total), iset{}, lo, hi);
    CountNone(iset{}, lo, hi);
  }

  /** With harmless, unit-disjoint ranges a rebuilt cell is exact: used counts the covered
    * units of the cell, and free, used and outside add up to its span. */
  lemma ResetIsExact(ranges: seq<seq<U64>>, unit: nat, total: nat, cell: Cell)
    requires unit > 0 && cell.start <= cell.end < U64_MAX
    requires forall i :: 0 <= i < |ranges| ==> |ranges[i]| == 2 && Harmless(ranges[i], unit, total)
    requires UnitDisjoint(ranges, unit, total)
    ensures var c := Rebuilt(cell, total, Reported(ranges, unit, total, cell, |ranges|));
            && c.used == Count(CoveredUnits(ranges, unit, total, |ranges|), cell.start, cell.end + 1)
            && c.free == Count(Interval(0, total) - CoveredUnits(ranges, unit, total, |ranges|), cell.start, cell.end + 1)
            && c.free as int + c.used + c.outside == cell.end - cell.start + 1
  {
    var U := CoveredUnits(ranges, unit, total, |ranges|);
    var lo, hi := cell.start, cell.end + 1;
    ReportedIsCount(ranges, unit, total, cell, |ranges|);
    assert U <= Interval(0, total);
    CountDisjointUnion(U, Interval(0, total) - U, lo, hi);
    assert U + (Interval(0, total) - U) == Interval(0, total);
    CountInterval(Interval(0, total), 0, total, lo, hi);
  }

  /** Whatever the ranges are, free, used and outside of a rebuilt cell add up to its span,
    * and everything past the filesystem end is outside. */
  lemma ResetConserves(cell: Cell, total: nat, reported: nat)
    requires cell.start <= cell.end < U64_MAX
    ensures var c := Rebuilt(cell, total, reported);
            && c.free as int + c.used + c.outside == cell.end - cell.start + 1
            && c.outside == Count((iset u: int | !Between(0, u, total)), cell.start, cell.end + 1)
  {
    var lo, hi := cell.start, cell.end + 1;
    var Past := iset u: int | !Between(0, u, total);
    CountInterval(Interval(0, total), 0, total, lo, hi);
    CountDisjointUnion(Interval(0, total), Past, lo, hi);
    CountAll(Interval(0, total) + Past, lo, hi);
  }

  // ---------------------------------------------------------------- runs of events

  datatype LiveEvent =
    | RangeEvent(rangePayload: RangePayload, plural: bool)
    | CellsEvent(cellsPayload: CellsPayload)
    | ResetEvent(resetPayload: ResetPayload)

  /** From ordered cells, every run of accepted and rejected events keeps them ordered. */
  method HandleEvents(info: MapInfo, cells: array<Cell>, events: seq<LiveEvent>, rounding: Rounding)
    requires OrderedCells(cells[..])
    modifies info, cells
    ensures OrderedCells(cells[..])
  {
    hide OrderedCells;
    for k := 0 to |events|
      invariant OrderedCells(cells[..])
    {
      var ok;
      match events[k] {
        case RangeEvent(payload, plural) => ok := DesktopLiveRanges(info, cells, payload, plural, rounding);
        case CellsEvent(payload) => ok := DesktopLiveCells(info, cells, payload);
        case ResetEvent(payload) => ok := DesktopLiveReset(info, cells, payload);
      }
    }
  }
}
