/** Live updates of the summarised map (native/desktop_live_map.cpp).  Range events are
  * staged as sparse patches and committed at the end; they are compared with the plain form
  * that changes every cell directly, and with the per-unit disk. */
module LiveMap {
  import opened MachineInts
  import opened Wrappers
  import opened Units
  import AllocationMap

  type Cell = AllocationMap.Cell
  type Patches = map<nat, Cell>

  /** std::round of moved * value / oldUsed in long double: no property depends on it. */
  type Rounding = (nat, nat, nat) -> nat

  const MAX_CELLS: nat := 1048576

  /** Each cell is a non-empty span, and spans ascend without touching. */
  ghost predicate OrderedCells(cells: seq<Cell>) {
    && (forall i :: 0 <= i < |cells| ==> cells[i].start <= cells[i].end)
    && (forall i, j :: 0 <= i < j < |cells| ==> cells[i].end < cells[j].start)
  }

  // ---------------------------------------------------------------- one cell

  function Proportional(rounding: Rounding, moved: nat, value: nat, oldUsed: nat): nat {
    Min(value, rounding(moved, value, oldUsed))
  }

  /** Releases so many of the used units; None if the free counter would overflow. */
  function Release(cell: Cell, overlap: nat, rounding: Rounding): Option<Cell> {
    var available := cell.used;
    var moved := Min(overlap, available);
    var oldUsed := Max(1, available);
    var fragments := Proportional(rounding, moved, cell.fragmented, oldUsed);
    var directories := Proportional(rounding, moved, cell.directory, oldUsed);
    if cell.free + moved > U64_MAX then None
    else Some(cell.(fragmented := Min(cell.fragmented - Min(cell.fragmented, fragments), available - moved),
                    directory := Min(cell.directory - Min(cell.directory, directories), available - moved),
                    used := available - moved,
                    free := cell.free + moved))
  }

  /** Allocates so many of the free units; None if the used counter would overflow. */
  function Allocate(cell: Cell, overlap: nat): Option<Cell> {
    var moved := Min(overlap, cell.free);
    if cell.used + moved > U64_MAX then None
    else Some(cell.(free := cell.free - moved, used := cell.used + moved))
  }

  /** r is the whole number nearest to x / d, either one half way. */
  predicate IsNearest(r: int, x: int, d: int) {
    -d <= 2 * (r * d - x) <= d
  }

  lemma NearestWithin(r: int, x: int, d: nat, bound: int)
    requires d > 0 && IsNearest(r, x, d) && x <= bound * d
    ensures r <= bound
  {
    if r > bound {
      MulMonotone(bound + 1, r, d);
    }
  }

  lemma Complement(f: int, u: int, m: int, r: int)
    ensures (f - r) * u - (u - m) * f == m * f - r * u
  {}

  /** Releasing m of u used units leaves an overlay of f units in proportion, up to rounding; the cap
    * at the units still used does nothing then. */
  lemma OverlayScales(f: nat, u: nat, m: nat, r: nat)
    requires f <= u && m <= u && u > 0 && IsNearest(r, m * f, u)
    ensures r <= f && IsNearest(f - r, (u - m) * f, u) && f - r <= u - m
  {
    MulMonotone(m, u, f);
    assert u * f == f * u;
    NearestWithin(r, m * f, u, f);
    Complement(f, u, m, r);
    assert r * u == u * r;
    MulMonotone(f, u, u - m);
    assert f * (u - m) == (u - m) * f && u * (u - m) == (u - m) * u;
    NearestWithin(f - r, (u - m) * f, u, u - m);
  }

  /** A release of used units scales both overlays when the rounding is to the nearest. */
  lemma ReleaseScales(cell: Cell, overlap: nat, rounding: Rounding)
    requires cell.used > 0 && cell.fragmented <= cell.used && cell.directory <= cell.used
    requires Release(cell, overlap, rounding).Some?
    requires var m := Min(overlap, cell.used);
             && IsNearest(rounding(m, cell.fragmented, cell.used), m * cell.fragmented, cell.used)
             && IsNearest(rounding(m, cell.directory, cell.used), m * cell.directory, cell.used)
    ensures var c := Release(cell, overlap, rounding).value;
            && c.used == cell.used - Min(overlap, cell.used)
            && IsNearest(c.fragmented, c.used * cell.fragmented, cell.used)
            && IsNearest(c.directory, c.used * cell.directory, cell.used)
  {
    hide IsNearest;
    var m := Min(overlap, cell.used);
    OverlayScales(cell.fragmented, cell.used, m, rounding(m, cell.fragmented, cell.used));
    OverlayScales(cell.directory, cell.used, m, rounding(m, cell.directory, cell.used));
  }

  predicate Touched(cell: Cell, first: nat, last: nat) {
    first <= cell.end && cell.start < last
  }

  /** The plain form on one cell: untouched cells stay, others lose or gain their overlap. */
  function ChangeCell(cell: Cell, first: nat, last: nat, used: bool, rounding: Rounding): Option<Cell> {
    if !Touched(cell, first, last) then Some(cell)
    else if cell.end == U64_MAX then None
    else
      var overlap := OverlapLength(first, last, cell.start, cell.end + 1);
      if used then Allocate(cell, overlap) else Release(cell, overlap, rounding)
  }

  /** The plain form on the whole map. */
  ghost function ChangeAll(cells: seq<Cell>, first: nat, last: nat, used: bool, rounding: Rounding): Option<seq<Cell>> {
    if exists i :: 0 <= i < |cells| && ChangeCell(cells[i], first, last, used, rounding).None? then None
    else Some(seq(|cells|, i requires 0 <= i < |cells| && ChangeCell(cells[i], first, last, used, rounding).Some? =>
                             ChangeCell(cells[i], first, last, used, rounding).value))
  }

  function FirstUnit(firstByte: nat, unit: nat): nat
    requires unit > 0
  {
    firstByte / unit
  }

  /** Units up to the end of a byte range, a partial last unit included. */
  function CeilingUnits(bytes: nat, unit: nat): nat
    requires unit > 0
  {
    bytes / unit + if bytes % unit != 0 then 1 else 0
  }

  /** A byte range applied to the whole map in place. */
  ghost function ChangeBytes(cells: seq<Cell>, firstByte: nat, length: nat, unit: nat, used: bool, rounding: Rounding): Option<seq<Cell>>
    requires unit > 0
  {
    if length == 0 then Some(cells)
    else if firstByte + length > U64_MAX then None
    else ChangeAll(cells, FirstUnit(firstByte, unit), CeilingUnits(firstByte + length, unit), used, rounding)
  }

  /** A non-empty byte range covers at least one whole or partial unit. */
  lemma UnitsOfBytes(firstByte: nat, length: nat, unit: nat)
    requires unit > 0 && length > 0
    ensures FirstUnit(firstByte, unit) < CeilingUnits(firstByte + length, unit)
    ensures CeilingUnits(firstByte + length, unit) <= firstByte + length
  {
    var end := firstByte + length;
    var f, q, r := firstByte / unit, end / unit, end % unit;
    assert firstByte == f * unit + firstByte % unit;
    assert end == q * unit + r;
    if q < f {
      MulMonotone(q + 1, f, unit);
    }
    MulMonotone(1, unit, q);
  }

  // ---------------------------------------------------------------- staging

  /** The map as it would be if the staged patches were committed now. */
  ghost function Effective(cells: seq<Cell>, patches: Patches): seq<Cell> {
    seq(|cells|, i requires 0 <= i < |cells| => if i in patches then patches[i] else cells[i])
  }

  /** Staged patches are for existing cells and do not move them. */
  ghost predicate InPlace(cells: seq<Cell>, patches: Patches) {
    forall i :: i in patches ==> i < |cells| && patches[i].start == cells[i].start && patches[i].end == cells[i].end
  }

  /** std::lower_bound: the first cell whose end is not below the unit. */
  method LowerBound(cells: array<Cell>, unit: nat) returns (index: nat)
    requires OrderedCells(cells[..])
    ensures index <= cells.Length
    ensures forall i :: 0 <= i < index ==> cells[i].end < unit
    ensures forall i :: index <= i < cells.Length ==> unit <= cells[i].end
  {
    var lo, hi := 0, cells.Length;
    while lo < hi
      invariant 0 <= lo <= hi <= cells.Length
      invariant forall i :: 0 <= i < lo ==> cells[i].end < unit
      invariant forall i :: hi <= i < cells.Length ==> unit <= cells[i].end
    {
      var mid := (lo + hi) / 2;
      assert forall i :: 0 <= i < mid ==> cells[..][i].end < cells[..][mid].start <= cells[..][mid].end;
      assert forall i :: mid < i < cells.Length ==> cells[..][mid].end < cells[..][i].start <= cells[..][i].end;
      if cells[mid].end < unit {
        lo := mid + 1;
      } else {
        hi := mid;
      }
    }
    index := lo;
  }

  /** State of the staging loop: the cells before index have been changed, the others not yet. */
  ghost predicate StagedTo(before: seq<Cell>, after: seq<Cell>, index: nat, first: nat, last: nat, used: bool, rounding: Rounding) {
    && |before| == |after| && index <= |before|
    && (forall k :: 0 <= k < index ==> ChangeCell(before[k], first, last, used, rounding) == Some(after[k]))
    && (forall k :: index <= k < |before| ==> after[k] == before[k])
  }

  lemma StagedAll(before: seq<Cell>, after: seq<Cell>, index: nat, first: nat, last: nat, used: bool, rounding: Rounding)
    requires StagedTo(before, after, index, first, last, used, rounding)
    requires forall k :: index <= k < |before| ==> !Touched(before[k], first, last)
    ensures ChangeAll(before, first, last, used, rounding) == Some(after)
  {
    forall k | 0 <= k < |before|
      ensures ChangeCell(before[k], first, last, used, rounding) == Some(after[k])
    {}
    assert ChangeAll(before, first, last, used, rounding).value == after;
  }

  lemma StagedFails(before: seq<Cell>, index: nat, first: nat, last: nat, used: bool, rounding: Rounding)
    requires index < |before| && ChangeCell(before[index], first, last, used, rounding).None?
    ensures ChangeAll(before, first, last, used, rounding).None?
  {}

  lemma ChangeKeepsSpan(cell: Cell, first: nat, last: nat, used: bool, rounding: Rounding)
    requires ChangeCell(cell, first, last, used, rounding).Some?
    ensures ChangeCell(cell, first, last, used, rounding).value.start == cell.start
    ensures ChangeCell(cell, first, last, used, rounding).value.end == cell.end
  {}

  /** One step of the staging loop on the effective map. */
  lemma StageOne(cells: seq<Cell>, patches: Patches, before: seq<Cell>, index: nat, changed: Cell,
                 first: nat, last: nat, used: bool, rounding: Rounding)
    requires InPlace(cells, patches) && index < |cells|
    requires StagedTo(before, Effective(cells, patches), index, first, last, used, rounding)
    requires ChangeCell(before[index], first, last, used, rounding) == Some(changed)
    ensures InPlace(cells, patches[index := changed])
    ensures StagedTo(before, Effective(cells, patches[index := changed]), index + 1, first, last, used, rounding)
  {
    ChangeKeepsSpan(before[index], first, last, used, rounding);
    var now, next := Effective(cells, patches), Effective(cells, patches[index := changed]);
    assert before[index] == now[index];
    assert forall k :: 0 <= k < |cells| && k != index ==> next[k] == now[k];
  }

  lemma FirstUnitFits(firstByte: nat, unit: nat)
    requires unit > 0
    ensures FirstUnit(firstByte, unit) <= firstByte
  {
    var q := firstByte / unit;
    assert firstByte == q * unit + firstByte % unit;
    MulMonotone(1, unit, q);
  }

  /** Cells before the lower bound lie below the range. */
  lemma StagingStarts(cells: seq<Cell>, patches: Patches, index: nat, first: nat, last: nat, used: bool, rounding: Rounding)
    requires InPlace(cells, patches) && index <= |cells|
    requires forall i :: 0 <= i < index ==> cells[i].end < first
    ensures StagedTo(Effective(cells, patches), Effective(cells, patches), index, first, last, used, rounding)
    ensures |Effective(cells, patches)| == |cells|
  {}

  /** The cell under way is the original effective one; it meets the range. */
  lemma CellUnderway(cells: seq<Cell>, patches: Patches, staged: Patches, index: nat,
                     first: nat, last: nat, used: bool, rounding: Rounding)
    requires InPlace(cells, patches) && InPlace(cells, staged) && index < |cells|
    requires StagedTo(Effective(cells, patches), Effective(cells, staged), index, first, last, used, rounding)
    ensures var cell := if index in staged then staged[index] else cells[index];
            && cell == Effective(cells, patches)[index]
            && cell.start == cells[index].start && cell.end == cells[index].end
  {}

  /** Cells from the first one at or past the end of the range lie above it. */
  lemma StagingEnds(cells: seq<Cell>, patches: Patches, staged: Patches, index: nat,
                    first: nat, last: nat, used: bool, rounding: Rounding)
    requires OrderedCells(cells) && InPlace(cells, patches) && InPlace(cells, staged)
    requires StagedTo(Effective(cells, patches), Effective(cells, staged), index, first, last, used, rounding)
    requires index < |cells| ==> last <= cells[index].start
    ensures ChangeAll(Effective(cells, patches), first, last, used, rounding) == Some(Effective(cells, staged))
  {
    var before := Effective(cells, patches);
    forall k | index <= k < |before|
      ensures !Touched(before[k], first, last)
    {
      assert before[k].start == cells[k].start;
      assert index < k ==> cells[index].end < cells[k].start;
    }
    StagedAll(before, Effective(cells, staged), index, first, last, used, rounding);
  }

  lemma EndsFromBound(cells: seq<Cell>, bound: nat, index: nat, first: nat)
    requires bound <= index < |cells|
    requires OrderedCells(cells) && forall i :: bound <= i < |cells| ==> first <= cells[i].end
    ensures first <= cells[index].end && cells[index].start <= cells[index].end
  {}

  /** Stages one byte range.  The effective map afterwards is what the plain form gives, and
    * staging fails exactly when the plain form does. */
  method ApplyRange(cells: array<Cell>, patches: Patches, firstByte: U64, length: U64, unit: U64, used: bool, rounding: Rounding)
    returns (r: Option<Patches>)
    requires OrderedCells(cells[..]) && InPlace(cells[..], patches) && unit > 0
    ensures ChangeBytes(Effective(cells[..], patches), firstByte, length, unit, used, rounding)
         == if r.None? then None else Some(Effective(cells[..], r.value))
    ensures r.Some? ==> InPlace(cells[..], r.value)
  {
    hide ChangeAll, OrderedCells, Effective, InPlace, FirstUnit, CeilingUnits, StagedTo, Release, Allocate;
    if length == 0 {
      return Some(patches);
    }
    FirstUnitFits(firstByte, unit);
    var first: U64 := FirstUnit(firstByte, unit);
    if firstByte > U64_MAX - length {
      return None;
    }
    UnitsOfBytes(firstByte, length, unit);
    var last: U64 := CeilingUnits(firstByte + length, unit);
    var bound := LowerBound(cells, first);
    var index := bound;
    ghost var all := cells[..];
    ghost var before := Effective(all, patches);
    StagingStarts(all, patches, index, first, last, used, rounding);
    var staged: Patches := patches;
    while index < cells.Length && cells[index].start < last
      invariant bound <= index <= cells.Length
      invariant InPlace(all, staged)
      invariant StagedTo(before, Effective(all, staged), index, first, last, used, rounding)
    {
      CellUnderway(all, patches, staged, index, first, last, used, rounding);
      EndsFromBound(all, bound, index, first);
      var changed := if index in staged then staged[index] else cells[index];
      if changed.end == U64_MAX {
        StagedFails(before, index, first, last, used, rounding);
        return None;
      }
      var overlap: U64 := Min(changed.end + 1, last) - Max(changed.start, first);
      var edited := if used then Allocate(changed, overlap) else Release(changed, overlap, rounding);
      assert edited == ChangeCell(before[index], first, last, used, rounding);
      if edited.None? {
        StagedFails(before, index, first, last, used, rounding);
        return None;
      }
      StageOne(all, staged, before, index, edited.value, first, last, used, rounding);
      staged := staged[index := edited.value];
      index := index + 1;
    }
    StagingEnds(all, patches, staged, index, first, last, used, rounding);
    r := Some(staged);
  }

  // ---------------------------------------------------------------- range events

  datatype Move = Move(source: U64, destination: U64, length: U64)

  /** The plain form of one move: release the source unless the mode says otherwise, then
    * allocate the destination. */
  ghost function ApplyMove(cells: seq<Cell>, m: Move, unit: nat, allocateOnly: bool, rounding: Rounding): Option<seq<Cell>>
    requires unit > 0
  {
    var released := if allocateOnly then Some(cells) else ChangeBytes(cells, m.source, m.length, unit, false, rounding);
    if released.None? then None else ChangeBytes(released.value, m.destination, m.length, unit, true, rounding)
  }

  ghost function ApplyMoves(cells: seq<Cell>, moves: seq<Move>, unit: nat, allocateOnly: bool, rounding: Rounding): Option<seq<Cell>>
    requires unit > 0
    decreases |moves|
  {
    if moves == [] then Some(cells)
    else
      var after := ApplyMove(cells, moves[0], unit, allocateOnly, rounding);
      if after.None? then None else ApplyMoves(after.value, moves[1..], unit, allocateOnly, rounding)
  }

  /** Numeric fields of the map object; a missing key reads as zero. */
  class MapInfo {
    var fields: map<string, U64>
    constructor (fields: map<string, U64>)
      ensures this.fields == fields
    {
      this.fields := fields;
    }
  }

  function Number(fields: map<string, U64>, key: string): U64 {
    if key in fields then fields[key] else 0
  }

  function UnitSize(fields: map<string, U64>): U64 {
    if Number(fields, "unit_size") != 0 then Number(fields, "unit_size") else Number(fields, "cluster_size")
  }

  predicate ValidCount(count: nat) {
    0 < count <= MAX_CELLS
  }

  datatype RangePayload = RangePayload(allocateOnly: bool, single: Move, ranges: Option<seq<seq<U64>>>)

  /** Entries that are not triples are ignored. */
  function MovesOf(ranges: seq<seq<U64>>): seq<Move> {
    if ranges == [] then []
    else (if |ranges[0]| == 3 then [Move(ranges[0][0], ranges[0][1], ranges[0][2])] else []) + MovesOf(ranges[1..])
  }

  /** A triple is read as source, destination and length, in list order; any other entry is skipped. */
  lemma {:induction false} MovesOfOneMore(ranges: seq<seq<U64>>, range: seq<U64>)
    ensures MovesOf(ranges + [range]) ==
            MovesOf(ranges) + if |range| == 3 then [Move(range[0], range[1], range[2])] else []
    decreases |ranges|
  {
    if ranges == [] {
      assert [range][1..] == [];
    } else {
      MovesOfOneMore(ranges[1..], range);
      assert (ranges + [range])[1..] == ranges[1..] + [range];
    }
  }

  function EventMoves(payload: RangePayload, plural: bool): seq<Move> {
    if !plural then [payload.single] else if payload.ranges.None? then [] else MovesOf(payload.ranges.value)
  }

  method StageMove(cells: array<Cell>, patches: Patches, m: Move, unit: U64, allocateOnly: bool, rounding: Rounding)
    returns (r: Option<Patches>)
    requires OrderedCells(cells[..]) && InPlace(cells[..], patches) && unit > 0
    ensures ApplyMove(Effective(cells[..], patches), m, unit, allocateOnly, rounding)
         == if r.None? then None else Some(Effective(cells[..], r.value))
    ensures r.Some? ==> InPlace(cells[..], r.value)
  {
    hide ChangeBytes, Effective, OrderedCells, InPlace;
    var released: Option<Patches> := Some(patches);
    if !allocateOnly {
      released := ApplyRange(cells, patches, m.source, m.length, unit, false, rounding);
    }
    if released.None? {
      return None;
    }
    r := ApplyRange(cells, released.value, m.destination, m.length, unit, true, rounding);
  }

  method CommitPatches(cells: array<Cell>, patches: Patches)
    modifies cells
    ensures cells[..] == Effective(old(cells[..]), patches)
  {
    var index := 0;
    while index < cells.Length
      invariant 0 <= index <= cells.Length
      invariant forall i :: 0 <= i < index ==> cells[i] == Effective(old(cells[..]), patches)[i]
      invariant forall i :: index <= i < cells.Length ==> cells[i] == old(cells[i])
    {
      if index in patches {
        cells[index] := patches[index];
      }
      index := index + 1;
    }
  }

  lemma NothingStaged(cells: seq<Cell>)
    ensures Effective(cells, map[]) == cells
    ensures InPlace(cells, map[])
  {}

  lemma StagedKeepsOrder(cells: seq<Cell>, patches: Patches)
    requires OrderedCells(cells) && InPlace(cells, patches)
    ensures OrderedCells(Effective(cells, patches))
  {}

  /** Stages the triples of a range list one after another. */
  method StageRanges(cells: array<Cell>, ranges: seq<seq<U64>>, unit: U64, allocateOnly: bool, rounding: Rounding)
    returns (r: Option<Patches>)
    requires OrderedCells(cells[..]) && unit > 0
    ensures ApplyMoves(cells[..], MovesOf(ranges), unit, allocateOnly, rounding)
         == if r.None? then None else Some(Effective(cells[..], r.value))
    ensures r.Some? ==> InPlace(cells[..], r.value)
  {
    hide ApplyMove, Effective, OrderedCells, InPlace;
    var patches: Patches := map[];
    NothingStaged(cells[..]);
    ghost var whole := ApplyMoves(cells[..], MovesOf(ranges), unit, allocateOnly, rounding);
    assert ranges[0..] == ranges;
    var i := 0;
    while i < |ranges|
      invariant 0 <= i <= |ranges|
      invariant InPlace(cells[..], patches)
      invariant whole == ApplyMoves(Effective(cells[..], patches), MovesOf(ranges[i..]), unit, allocateOnly, rounding)
    {
      var range := ranges[i];
      assert ranges[i..][1..] == ranges[i + 1..];
      if |range| == 3 {
        var m := Move(range[0], range[1], range[2]);
        assert MovesOf(ranges[i..])[0] == m && MovesOf(ranges[i..])[1..] == MovesOf(ranges[i + 1..]);
        var staged := StageMove(cells, patches, m, unit, allocateOnly, rounding);
        if staged.None? {
          return None;
        }
        patches := staged.value;
      } else {
        assert MovesOf(ranges[i..]) == MovesOf(ranges[i + 1..]);
      }
      i := i + 1;
    }
    r := Some(patches);
  }

  /** One triple of a range event: the bytes at its first number are released unless the mode says
    * otherwise, then the bytes at its second number are allocated, as many as its third says. */
  lemma TripleMoves(cells: seq<Cell>, range: seq<U64>, unit: nat, allocateOnly: bool, rounding: Rounding)
    requires |range| == 3 && unit > 0
    ensures var released := if allocateOnly then Some(cells) else ChangeBytes(cells, range[0], range[2], unit, false, rounding);
            ApplyMoves(cells, MovesOf([range]), unit, allocateOnly, rounding)
            == if released.None? then None else ChangeBytes(released.value, range[1], range[2], unit, true, rounding)
  {
    hide ChangeBytes;
    MovesOfOneMore([], range);
    assert [] + [range] == [range];
    var m := Move(range[0], range[1], range[2]);
    assert MovesOf([range]) == [m];
    assert [m][1..] == [];
  }

  /** A range event.  It succeeds exactly when the plain form does, with the same cells;
    * otherwise the cells are as before. */
  method DesktopLiveRanges(info: MapInfo, cells: array<Cell>, payload: RangePayload, plural: bool, rounding: Rounding)
    returns (ok: bool)
    requires OrderedCells(cells[..])
    modifies cells
    ensures ok <==>
              && ValidCount(cells.Length) && UnitSize(info.fields) != 0
              && (plural && payload.ranges.Some? ==> |payload.ranges.value| <= MAX_CELLS)
              && ApplyMoves(old(cells[..]), EventMoves(payload, plural), UnitSize(info.fields), payload.allocateOnly, rounding).Some?
    ensures ok ==>
              ApplyMoves(old(cells[..]), EventMoves(payload, plural), UnitSize(info.fields), payload.allocateOnly, rounding)
              == Some(cells[..])
    ensures !ok ==> cells[..] == old(cells[..])
    ensures OrderedCells(cells[..])
  {
    hide ApplyMove, OrderedCells, Effective, InPlace;
    var unit := UnitSize(info.fields);
    if !ValidCount(cells.Length) || unit == 0 {
      return false;
    }
    var staged: Option<Patches> := Some(map[]);
    NothingStaged(cells[..]);
    if !plural {
      staged := StageMove(cells, map[], payload.single, unit, payload.allocateOnly, rounding);
      assert EventMoves(payload, plural)[1..] == [];
    } else if payload.ranges.Some? {
      if |payload.ranges.value| > MAX_CELLS {
        return false;
      }
      staged := StageRanges(cells, payload.ranges.value, unit, payload.allocateOnly, rounding);
    }
    if staged.None? {
      return false;
    }
    StagedKeepsOrder(cells[..], staged.value);
    CommitPatches(cells, staged.value);
    ok := true;
  }

  // ---------------------------------------------------------------- what range events keep

  /** Nothing but free, used, fragmented and directory changes; free + used is kept, and
    * overlays within the used units stay within them. */
  ghost predicate CellKept(before: Cell, after: Cell) {
    && after.(free := 0, used := 0, fragmented := 0, directory := 0) == before.(free := 0, used := 0, fragmented := 0, directory := 0)
    && after.free as int + after.used == before.free as int + before.used
    && (before.fragmented <= before.used ==> after.fragmented <= after.used)
    && (before.directory <= before.used ==> after.directory <= after.used)
  }

  ghost predicate Kept(before: seq<Cell>, after: seq<Cell>) {
    |after| == |before| && forall i :: 0 <= i < |before| ==> CellKept(before[i], after[i])
  }

  lemma ChangeKeeps(cell: Cell, first: nat, last: nat, used: bool, rounding: Rounding)
    requires ChangeCell(cell, first, last, used, rounding).Some?
    ensures CellKept(cell, ChangeCell(cell, first, last, used, rounding).value)
  {}

  lemma ChangeBytesKeeps(cells: seq<Cell>, firstByte: nat, length: nat, unit: nat, used: bool, rounding: Rounding)
    requires unit > 0 && ChangeBytes(cells, firstByte, length, unit, used, rounding).Some?
    ensures Kept(cells, ChangeBytes(cells, firstByte, length, unit, used, rounding).value)
  {
    hide ChangeCell, CellKept;
    var after := ChangeBytes(cells, firstByte, length, unit, used, rounding).value;
    forall i | 0 <= i < |cells|
      ensures CellKept(cells[i], after[i])
    {
      if length == 0 {
        CellKeptByNothing(cells[i]);
      } else {
        ChangeKeeps(cells[i], FirstUnit(firstByte, unit), CeilingUnits(firstByte + length, unit), used, rounding);
      }
    }
  }

  lemma CellKeptByNothing(cell: Cell)
    ensures CellKept(cell, cell)
  {}

  lemma KeptTransitive(a: seq<Cell>, b: seq<Cell>, c: seq<Cell>)
    requires Kept(a, b) && Kept(b, c)
    ensures Kept(a, c)
  {
    forall i | 0 <= i < |a|
      ensures CellKept(a[i], c[i])
    {
      assert CellKept(a[i], b[i]) && CellKept(b[i], c[i]);
    }
  }

  /** Every range event, whatever the rounding does, conserves free + used cell by cell. */
  lemma {:induction false} EventConserves(cells: seq<Cell>, moves: seq<Move>, unit: nat, allocateOnly: bool, rounding: Rounding)
    requires unit > 0 && ApplyMoves(cells, moves, unit, allocateOnly, rounding).Some?
    ensures Kept(cells, ApplyMoves(cells, moves, unit, allocateOnly, rounding).value)
    decreases |moves|
  {
    hide ChangeBytes, Kept;
    if moves == [] {
      KeptByNothing(cells);
    } else {
      var m := moves[0];
      var released := if allocateOnly then Some(cells) else ChangeBytes(cells, m.source, m.length, unit, false, rounding);
      var after := ChangeBytes(released.value, m.destination, m.length, unit, true, rounding);
      if allocateOnly {
        KeptByNothing(cells);
      } else {
        ChangeBytesKeeps(cells, m.source, m.length, unit, false, rounding);
      }
      ChangeBytesKeeps(released.value, m.destination, m.length, unit, true, rounding);
      KeptTransitive(cells, released.value, after.value);
      EventConserves(after.value, moves[1..], unit, allocateOnly, rounding);
      KeptTransitive(cells, after.value, ApplyMoves(after.value, moves[1..], unit, allocateOnly, rounding).value);
    }
  }

  lemma KeptByNothing(cells: seq<Cell>)
    ensures Kept(cells, cells)
  {
    forall i | 0 <= i < |cells|
      ensures CellKept(cells[i], cells[i])
    {
      CellKeptByNothing(cells[i]);
    }
  }

  // ---------------------------------------------------------------- range events and the disk

  ghost predicate CellTracks(cell: Cell, used: iset<int>, free: iset<int>) {
    && cell.start <= cell.end < U64_MAX
    && cell.used == Count(used, cell.start, cell.end + 1)
    && cell.free == Count(free, cell.start, cell.end + 1)
  }

  /** The cells count the used and the free units of a disk. */
  ghost predicate Tracks(cells: seq<Cell>, used: iset<int>, free: iset<int>) {
    forall i :: 0 <= i < |cells| ==> CellTracks(cells[i], used, free)
  }

  lemma CountUnion(S: iset<int>, first: nat, last: nat, lo: nat, hi: nat)
    requires first < last && lo <= hi
    ensures S !! Interval(first, last) ==>
              Count(S + Interval(first, last), lo, hi) == Count(S, lo, hi) + OverlapLength(first, last, lo, hi)
    ensures Interval(first, last) <= S ==>
              Count(S, lo, hi) == Count(S - Interval(first, last), lo, hi) + OverlapLength(first, last, lo, hi)
  {
    var R := Interval(first, last);
    CountInterval(R, first, last, lo, hi);
    if S !! R {
      CountDisjointUnion(S, R, lo, hi);
    }
    if R <= S {
      CountDisjointUnion(S - R, R, lo, hi);
      assert (S - R) + R == S;
    }
  }

  /** Taking units of one kind and giving them to the other keeps the cell in step. */
  lemma ChangeTracks(cell: Cell, first: nat, last: nat, allocate: bool, rounding: Rounding, used: iset<int>, free: iset<int>)
    requires first < last && CellTracks(cell, used, free) && used !! free
    requires Interval(first, last) <= if allocate then free else used
    ensures var c := ChangeCell(cell, first, last, allocate, rounding);
            var R := Interval(first, last);
            c.Some? && if allocate then CellTracks(c.value, used + R, free - R) else CellTracks(c.value, used - R, free + R)
  {
    hide Count, Interval;
    var R := Interval(first, last);
    var lo, hi := cell.start, cell.end + 1;
    if allocate {
      CountUnion(used, first, last, lo, hi);
      CountUnion(free, first, last, lo, hi);
      CountBound(used + R, lo, hi);
    } else {
      CountUnion(used, first, last, lo, hi);
      CountUnion(free, first, last, lo, hi);
      CountBound(free + R, lo, hi);
    }
    assert !Touched(cell, first, last) ==> OverlapLength(first, last, lo, hi) == 0;
  }

  /** Units of a byte range; an empty range has none. */
  ghost function ByteUnits(firstByte: nat, length: nat, unit: nat): iset<int>
    requires unit > 0
  {
    if length == 0 then iset{} else Interval(FirstUnit(firstByte, unit), CeilingUnits(firstByte + length, unit))
  }

  lemma ChangeBytesTracks(cells: seq<Cell>, firstByte: nat, length: nat, unit: nat, allocate: bool, rounding: Rounding,
                          used: iset<int>, free: iset<int>)
    requires unit > 0 && firstByte + length <= U64_MAX && Tracks(cells, used, free) && used !! free
    requires ByteUnits(firstByte, length, unit) <= if allocate then free else used
    ensures var c := ChangeBytes(cells, firstByte, length, unit, allocate, rounding);
            var R := ByteUnits(firstByte, length, unit);
            c.Some? && if allocate then Tracks(c.value, used + R, free - R) else Tracks(c.value, used - R, free + R)
  {
    hide ChangeCell, CellTracks, FirstUnit, CeilingUnits;
    if length == 0 {
      assert used + iset{} == used && used - iset{} == used && free + iset{} == free && free - iset{} == free;
    } else {
      UnitsOfBytes(firstByte, length, unit);
      var first, last := FirstUnit(firstByte, unit), CeilingUnits(firstByte + length, unit);
      forall i | 0 <= i < |cells|
        ensures var c := ChangeCell(cells[i], first, last, allocate, rounding);
                var R := Interval(first, last);
                c.Some? && if allocate then CellTracks(c.value, used + R, free - R) else CellTracks(c.value, used - R, free + R)
      {
        ChangeTracks(cells[i], first, last, allocate, rounding, used, free);
      }
    }
  }

  /** The disk after one move: the source units become free, then the destination units used. */
  ghost function ReleasedUnits(m: Move, unit: nat, allocateOnly: bool): iset<int>
    requires unit > 0
  {
    if allocateOnly then iset{} else ByteUnits(m.source, m.length, unit)
  }

  ghost function UsedAfter(used: iset<int>, m: Move, unit: nat, allocateOnly: bool): iset<int>
    requires unit > 0
  {
    used - ReleasedUnits(m, unit, allocateOnly) + ByteUnits(m.destination, m.length, unit)
  }

  ghost function FreeAfter(free: iset<int>, m: Move, unit: nat, allocateOnly: bool): iset<int>
    requires unit > 0
  {
    free + ReleasedUnits(m, unit, allocateOnly) - ByteUnits(m.destination, m.length, unit)
  }

  /** A move the disk can make: representable, from used units, to units that are free once
    * the source is released. */
  ghost predicate PossibleMove(m: Move, unit: nat, allocateOnly: bool, used: iset<int>, free: iset<int>)
    requires unit > 0
  {
    && m.source + m.length <= U64_MAX && m.destination + m.length <= U64_MAX
    && ReleasedUnits(m, unit, allocateOnly) <= used
    && ByteUnits(m.destination, m.length, unit) <= free + ReleasedUnits(m, unit, allocateOnly)
  }

  ghost predicate PossibleMoves(moves: seq<Move>, unit: nat, allocateOnly: bool, used: iset<int>, free: iset<int>)
    requires unit > 0
    decreases |moves|
  {
    moves == []
    || (PossibleMove(moves[0], unit, allocateOnly, used, free)
        && PossibleMoves(moves[1..], unit, allocateOnly,
                         UsedAfter(used, moves[0], unit, allocateOnly), FreeAfter(free, moves[0], unit, allocateOnly)))
  }

  ghost function DiskAfter(moves: seq<Move>, unit: nat, allocateOnly: bool, used: iset<int>, free: iset<int>): (iset<int>, iset<int>)
    requires unit > 0
    decreases |moves|
  {
    if moves == [] then (used, free)
    else DiskAfter(moves[1..], unit, allocateOnly,
                   UsedAfter(used, moves[0], unit, allocateOnly), FreeAfter(free, moves[0], unit, allocateOnly))
  }

  lemma MoveTracks(cells: seq<Cell>, m: Move, unit: nat, allocateOnly: bool, rounding: Rounding, used: iset<int>, free: iset<int>)
    requires unit > 0 && Tracks(cells, used, free) && used !! free
    requires PossibleMove(m, unit, allocateOnly, used, free)
    ensures var c := ApplyMove(cells, m, unit, allocateOnly, rounding);
            c.Some? && Tracks(c.value, UsedAfter(used, m, unit, allocateOnly), FreeAfter(free, m, unit, allocateOnly))
    ensures UsedAfter(used, m, unit, allocateOnly) !! FreeAfter(free, m, unit, allocateOnly)
  {
    hide ChangeBytes, Tracks, ByteUnits;
    if allocateOnly {
      assert used - iset{} == used && free + iset{} == free;
      ChangeBytesTracks(cells, m.destination, m.length, unit, true, rounding, used, free);
    } else {
      ChangeBytesTracks(cells, m.source, m.length, unit, false, rounding, used, free);
      var S := ByteUnits(m.source, m.length, unit);
      var released := ChangeBytes(cells, m.source, m.length, unit, false, rounding).value;
      ChangeBytesTracks(released, m.destination, m.length, unit, true, rounding, used - S, free + S);
    }
  }

  /** Live range events track the disk: from cells that count a disk, possible moves always
    * succeed and leave cells that count the moved disk. */
  lemma {:induction false} EventTracksDisk(cells: seq<Cell>, moves: seq<Move>, unit: nat, allocateOnly: bool, rounding: Rounding,
                                           used: iset<int>, free: iset<int>)
    requires unit > 0 && Tracks(cells, used, free) && used !! free
    requires PossibleMoves(moves, unit, allocateOnly, used, free)
    ensures var c := ApplyMoves(cells, moves, unit, allocateOnly, rounding);
            var disk := DiskAfter(moves, unit, allocateOnly, used, free);
            c.Some? && Tracks(c.value, disk.0, disk.1) && disk.0 !! disk.1
    decreases |moves|
  {
    hide ApplyMove, Tracks, PossibleMove, UsedAfter, FreeAfter;
    if moves != [] {
      MoveTracks(cells, moves[0], unit, allocateOnly, rounding, used, free);
      var after := ApplyMove(cells, moves[0], unit, allocateOnly, rounding).value;
      EventTracksDisk(after, moves[1..], unit, allocateOnly, rounding,
                      UsedAfter(used, moves[0], unit, allocateOnly), FreeAfter(free, moves[0], unit, allocateOnly));
    }
  }

  // ---------------------------------------------------------------- cell updates

  /** The check around one patch: a proper span, after the cell before, before the cell after. */
  ghost predicate PatchFits(cells: seq<Cell>, patches: Patches, index: nat)
    requires index < |cells|
  {
    var now := Effective(cells, patches);
    && now[index].start <= now[index].end
    && (index > 0 ==> now[index - 1].end < now[index].start)
    && (index + 1 < |cells| ==> now[index].end < now[index + 1].start)
  }

  ghost predicate OrderedLocally(cells: seq<Cell>) {
    && (forall i :: 0 <= i < |cells| ==> cells[i].start <= cells[i].end)
    && (forall i {:trigger Follows(cells, i)} :: 0 < i < |cells| ==> Follows(cells, i))
  }

  predicate Follows(cells: seq<Cell>, i: nat)
    requires 0 < i < |cells|
  {
    cells[i - 1].end < cells[i].start
  }

  lemma {:induction false} LocalOrderChain(cells: seq<Cell>, i: nat, j: nat)
    requires OrderedLocally(cells) && i < j < |cells|
    ensures cells[i].end < cells[j].start
    decreases j
  {
    assert Follows(cells, j);
    if i < j - 1 {
      LocalOrderChain(cells, i, j - 1);
    }
  }

  lemma LocalOrderIsOrder(cells: seq<Cell>)
    ensures OrderedLocally(cells) <==> OrderedCells(cells)
  {
    if OrderedLocally(cells) {
      forall i, j | 0 <= i < j < |cells|
        ensures cells[i].end < cells[j].start
      {
        LocalOrderChain(cells, i, j);
      }
    }
  }

  /** What the local check leaves to the cells it does not look at. */
  ghost predicate RestInOrder(cells: seq<Cell>, patches: Patches) {
    && (forall i :: 0 <= i < |cells| && i !in patches ==> cells[i].start <= cells[i].end)
    && (forall i {:trigger Follows(cells, i)} :: 0 < i < |cells| && i !in patches && i - 1 !in patches ==> Follows(cells, i))
  }

  /** Whatever order the cells are in, a patched map that passes the local check is in order
    * exactly when the pairs of cells that the patches do not reach are. */
  lemma PatchedOrder(cells: seq<Cell>, patches: Patches)
    requires forall i :: i in patches ==> i < |cells| && PatchFits(cells, patches, i)
    ensures OrderedCells(Effective(cells, patches)) <==> RestInOrder(cells, patches)
  {
    var now := Effective(cells, patches);
    LocalOrderIsOrder(now);
    if RestInOrder(cells, patches) {
      forall i | 0 < i < |now|
        ensures Follows(now, i)
      {
        if i in patches {
          assert PatchFits(cells, patches, i);
        } else if i - 1 in patches {
          assert PatchFits(cells, patches, i - 1);
        } else {
          assert Follows(cells, i);
        }
      }
      forall i | 0 <= i < |now|
        ensures now[i].start <= now[i].end
      {
        assert i in patches ==> PatchFits(cells, patches, i);
      }
    }
    if OrderedLocally(now) {
      forall i: nat | 0 < i < |cells| && i !in patches && i - 1 !in patches
        ensures Follows(cells, i)
      {
        assert Follows(now, i);
      }
      forall i | 0 <= i < |cells| && i !in patches
        ensures cells[i].start <= cells[i].end
      {
        assert now[i] == cells[i];
      }
    }
  }

  /** From ordered cells, checking the patched cells and their neighbours is checking the
    * whole patched map. */
  lemma LocalCheckSuffices(cells: seq<Cell>, patches: Patches)
    requires OrderedCells(cells)
    requires forall i :: i in patches ==> i < |cells|
    ensures (forall i :: i in patches ==> PatchFits(cells, patches, i)) <==> OrderedCells(Effective(cells, patches))
  {
    if forall i :: i in patches ==> PatchFits(cells, patches, i) {
      LocalOrderIsOrder(cells);
      PatchedOrder(cells, patches);
    }
  }

  /** validate_patched_cell_order: walks the patches in index order. */
  method ValidatePatchedOrder(cells: array<Cell>, patches: Patches) returns (ok: bool)
    requires forall i :: i in patches ==> i < cells.Length
    ensures ok <==> forall i :: i in patches ==> PatchFits(cells[..], patches, i)
  {
    var index := 0;
    while index < cells.Length
      invariant 0 <= index <= cells.Length
      invariant forall i :: i in patches && i < index ==> PatchFits(cells[..], patches, i)
    {
      if index in patches {
        var cell := patches[index];
        ghost var now := Effective(cells[..], patches);
        assert now[index] == cell;
        if cell.end < cell.start {
          assert !PatchFits(cells[..], patches, index);
          return false;
        }
        if index > 0 {
          var before := if index - 1 in patches then patches[index - 1] else cells[index - 1];
          assert before == now[index - 1];
          if before.end >= cell.start {
            assert !PatchFits(cells[..], patches, index);
            return false;
          }
        }
        if index + 1 < cells.Length {
          var after := if index + 1 in patches then patches[index + 1] else cells[index + 1];
          assert after == now[index + 1];
          if after.start <= cell.end {
            assert !PatchFits(cells[..], patches, index);
            return false;
          }
        }
      }
      index := index + 1;
    }
    ok := true;
  }

  datatype CellUpdate = CellUpdate(i: U64, cell: Cell)

  /** Patches of a cell event: entries that are no objects or name no cell are ignored, and
    * the last entry for a cell counts. */
  function UpdatePatches(updates: seq<Option<CellUpdate>>, count: nat): (patches: Patches)
    ensures forall i :: i in patches ==> i < count
  {
    if updates == [] then map[]
    else
      var k := |updates| - 1;
      var patches := UpdatePatches(updates[..k], count);
      if updates[k].Some? && updates[k].value.i < count then patches[updates[k].value.i as nat := updates[k].value.cell]
      else patches
  }

  /** Summary numbers that a cell event may replace. */
  const REPORTED: set<string> := {"fragmented_files", "fragmented_directories", "free_clusters", "free_gaps_below_highest"}

  datatype CellsPayload = CellsPayload(updates: Option<seq<Option<CellUpdate>>>, fields: map<string, U64>)

  /** A cell event.  It is accepted exactly when every updated cell fits its neighbours, which
    * from ordered cells means that the updated map is in order, and then puts every updated cell
    * in place; otherwise map and cells are as before. */
  method DesktopLiveCells(info: MapInfo, cells: array<Cell>, payload: CellsPayload) returns (ok: bool)
    modifies info, cells
    ensures var reported := {"fragmented_files", "fragmented_directories", "free_clusters", "free_gaps_below_highest"};
            var updates := if payload.updates.Some? then payload.updates.value else [];
            var patches := UpdatePatches(updates, cells.Length);
            var result := Effective(old(cells[..]), patches);
            && (ok <==> ValidCount(cells.Length) && |updates| <= cells.Length
                        && forall i :: i in patches ==> PatchFits(old(cells[..]), patches, i))
            && (OrderedCells(old(cells[..])) ==> (ok <==> ValidCount(cells.Length) && |updates| <= cells.Length && OrderedCells(result)))
            && (ok ==> (OrderedCells(result) <==> RestInOrder(old(cells[..]), patches)))
            && (ok ==> cells[..] == result)
            && (ok ==> info.fields == old(info.fields) + (map key | key in payload.fields && key in reported :: payload.fields[key]))
    ensures !ok ==> cells[..] == old(cells[..]) && info.fields == old(info.fields)
    ensures OrderedCells(old(cells[..])) ==> OrderedCells(cells[..])
  {
    hide OrderedCells, PatchFits, Effective, RestInOrder;
    if !ValidCount(cells.Length) {
      return false;
    }
    var updates := if payload.updates.Some? then payload.updates.value else [];
    if |updates| > cells.Length {
      return false;
    }
    var patches: Patches := map[];
    for k := 0 to |updates|
      invariant patches == UpdatePatches(updates[..k], cells.Length)
    {
      assert updates[..k + 1][..k] == updates[..k];
      if updates[k].Some? && updates[k].value.i < cells.Length {
        patches := patches[updates[k].value.i as nat := updates[k].value.cell];
      }
    }
    assert updates[..|updates|] == updates;
    if OrderedCells(cells[..]) {
      LocalCheckSuffices(cells[..], patches);
    }
    var fits := ValidatePatchedOrder(cells, patches);
    if !fits {
      return false;
    }
    PatchedOrder(cells[..], patches);
    CommitPatches(cells, patches);
    info.fields := info.fields + (map key | key in payload.fields && key in REPORTED :: payload.fields[key]);
    ok := true;
  }
}
