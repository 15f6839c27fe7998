/** Filesystem-independent placement policy (src/core/ld_generic_layout.c): packing
  * whole objects into one region, and splitting one file over certified free ranges. */
module GenericLayout {
  import opened MachineInts
  import opened Wrappers

  datatype Status = Ok | Invalid | NoSpace | Unsupported | OutputTooSmall

  datatype LayoutObject = LayoutObject(id: U64, units: U64, alignment: U64, flags: U32)
  datatype Placement = Placement(id: U64, first: U64, units: U64, gap: U64)
  datatype FreeExtent = FreeExtent(first: U64, length: U64)
  datatype PlannedExtent = PlannedExtent(first: U64, units: U64, gap: U64)

  // ---------------------------------------------------------------- growth reserve

  /** The growth reserve in exact arithmetic: percent of units, rounded up. */
  function Reserve(units: nat, percent: nat): nat {
    CeilDiv(units * percent, 100)
  }

  /** The reserve is the least number of units that is at least the percentage. */
  lemma ReserveLeast(units: nat, percent: nat, r: nat)
    ensures r * 100 >= units * percent <==> r >= Reserve(units, percent)
  {
    CeilDivLeast(units * percent, 100);
  }

  lemma ReserveSplits(units: nat, percent: nat)
    ensures Reserve(units, percent) == units / 100 * percent + (units % 100 * percent + 99) / 100
  {
    var w, r := units / 100, units % 100;
    assert units * percent == (100 * w + r) * percent == 100 * (w * percent) + r * percent;
    assert (100 * (w * percent) + r * percent + 99) / 100 == w * percent + (r * percent + 99) / 100;
  }

  lemma DivisionGuard(whole: nat, percent: nat)
    requires percent > 0
    ensures whole > U64_MAX / percent <==> whole * percent > U64_MAX
  {
    var q := U64_MAX / percent;
    if whole > q {
      MulMonotone(q + 1, whole, percent);
    } else {
      MulMonotone(whole, q, percent);
    }
  }

  lemma TenPercentFits(units: U64)
    ensures Reserve(units, 10) <= units
    ensures Reserve(units, 0) == 0
  {}

  /** Succeeds exactly when the exact reserve is representable, although the product
    * units * percent need not be. */
  method ReserveUnits(units: U64, percent: U32) returns (status: Status, reserve: U64)
    requires percent > 0
    ensures status == if Reserve(units, percent) <= U64_MAX then Ok else Invalid
    ensures status == Ok ==> reserve == Reserve(units, percent)
  {
    reserve := 0;
    ReserveSplits(units, percent);
    var whole: U64 := units / 100;
    var remainder: U64 := units % 100;
    DivisionGuard(whole, percent);
    if whole > U64_MAX / percent {
      return Invalid, reserve;
    }
    var first: U64 := whole * percent;
    MulMonotone(remainder, 99, percent);
    var product: U64 := remainder * percent + 99;
    var last: U64 := product / 100;
    if first > U64_MAX - last {
      return Invalid, reserve;
    }
    reserve := first + last;
    status := Ok;
  }

  // ---------------------------------------------------------------- alignment

  function Padding(first: nat, alignment: nat): nat {
    if alignment == 0 || first % alignment == 0 then 0 else alignment - first % alignment
  }

  function AlignUp(first: nat, alignment: nat): nat {
    first + Padding(first, alignment)
  }

  /** AlignUp is the least multiple of alignment at or after first. */
  lemma AlignUpLeast(first: nat, alignment: nat, at: nat)
    requires alignment > 0
    ensures AlignUp(first, alignment) % alignment == 0
    ensures first <= at && at % alignment == 0 ==> AlignUp(first, alignment) <= at
  {
    var q := first / alignment;
    var up := AlignUp(first, alignment);
    assert up == q * alignment || up == (q + 1) * alignment by {
      assert first == q * alignment + first % alignment;
    }
    MultipleModZero(q, alignment);
    MultipleModZero(q + 1, alignment);
    if first <= at && at % alignment == 0 && at < up {
      var k := at / alignment;
      assert at == k * alignment;
      assert first % alignment != 0;
      if k <= q {
        MulMonotone(k, q, alignment);
      } else {
        MulMonotone(q + 1, k, alignment);
      }
    }
  }

  // ---------------------------------------------------------------- contiguous packing

  /** Object k violates the inventory rules: zero or non-ascending id, no units, no alignment. */
  predicate Malformed(objs: seq<LayoutObject>, k: nat)
    requires k < |objs|
  {
    objs[k].id <= (if k == 0 then 0 else objs[k - 1].id) || objs[k].units == 0 || objs[k].alignment == 0
  }

  /** An inventory as the planner asks for it: ids positive and ascending, units and alignments positive. */
  ghost predicate WellFormed(objs: seq<LayoutObject>) {
    && (forall k :: 0 <= k < |objs| ==> objs[k].id > 0 && objs[k].units > 0 && objs[k].alignment > 0)
    && (forall i, j :: 0 <= i < j < |objs| ==> objs[i].id < objs[j].id)
  }

  ghost predicate Unflagged(objs: seq<LayoutObject>) {
    forall k :: 0 <= k < |objs| ==> objs[k].flags == 0
  }

  ghost predicate Movable(objs: seq<LayoutObject>) {
    WellFormed(objs) && Unflagged(objs)
  }

  lemma {:induction false} IdsAscend(objs: seq<LayoutObject>, i: nat, j: nat)
    requires i < j < |objs| && forall k {:trigger Malformed(objs, k)} :: 0 <= k < |objs| ==> !Malformed(objs, k)
    ensures objs[i].id < objs[j].id
  {
    assert !Malformed(objs, j);
    if i < j - 1 {
      IdsAscend(objs, i, j - 1);
    }
  }

  /** Looking at each object and the one before it decides the whole inventory. */
  lemma WellFormedLocally(objs: seq<LayoutObject>)
    ensures WellFormed(objs) <==> forall k {:trigger Malformed(objs, k)} :: 0 <= k < |objs| ==> !Malformed(objs, k)
  {
    if forall k {:trigger Malformed(objs, k)} :: 0 <= k < |objs| ==> !Malformed(objs, k) {
      forall k | 0 <= k < |objs|
        ensures objs[k].id > 0 && objs[k].units > 0 && objs[k].alignment > 0
      {
        assert !Malformed(objs, k);
      }
      forall i, j | 0 <= i < j < |objs|
        ensures objs[i].id < objs[j].id
      {
        IdsAscend(objs, i, j);
      }
    }
  }

  function Footprint(obj: LayoutObject, percent: nat): nat {
    obj.units + Reserve(obj.units, percent)
  }

  /** Object k starts aligned, after the reserve of the object before it. */
  ghost predicate WellPlaced(objs: seq<LayoutObject>, starts: seq<nat>, first: nat, percent: nat, k: nat)
    requires k < |objs| == |starts|
  {
    && objs[k].alignment > 0
    && starts[k] % objs[k].alignment == 0
    && starts[k] >= if k == 0 then first else starts[k - 1] + Footprint(objs[k - 1], percent)
  }

  /** A layout of all objects, in order, as their start units: aligned, inside
    * [first, limit), each followed by its own reserve before the next one starts. */
  ghost predicate Feasible(objs: seq<LayoutObject>, starts: seq<nat>, first: nat, limit: nat, percent: nat) {
    && |starts| == |objs|
    && (forall k {:trigger WellPlaced(objs, starts, first, percent, k)} :: 0 <= k < |objs| ==> WellPlaced(objs, starts, first, percent, k))
    && (|objs| > 0 ==> starts[|objs| - 1] + Footprint(objs[|objs| - 1], percent) <= limit)
  }

  /** First unit after the k first objects when each is put at the earliest aligned unit. */
  function PackEnd(objs: seq<LayoutObject>, first: nat, percent: nat, k: nat): nat
    requires k <= |objs|
    decreases k, 0
  {
    if k == 0 then first else PackStart(objs, first, percent, k - 1) + Footprint(objs[k - 1], percent)
  }

  function PackStart(objs: seq<LayoutObject>, first: nat, percent: nat, k: nat): nat
    requires k < |objs|
    decreases k, 1
  {
    AlignUp(PackEnd(objs, first, percent, k), objs[k].alignment)
  }

  lemma {:induction false} PackEndGrows(objs: seq<LayoutObject>, first: nat, percent: nat, j: nat, k: nat)
    requires j <= k <= |objs|
    ensures PackEnd(objs, first, percent, j) <= PackEnd(objs, first, percent, k)
  {
    if j < k {
      PackEndGrows(objs, first, percent, j, k - 1);
    }
  }

  /** Exchange argument: packing early is never later than any feasible layout. */
  lemma {:induction false} PackingIsEarliest(objs: seq<LayoutObject>, starts: seq<nat>, first: nat, limit: nat, percent: nat, k: nat)
    requires Feasible(objs, starts, first, limit, percent)
    requires k < |objs|
    ensures PackStart(objs, first, percent, k) <= starts[k]
  {
    if k > 0 {
      PackingIsEarliest(objs, starts, first, limit, percent, k - 1);
    }
    assert WellPlaced(objs, starts, first, percent, k);
    AlignUpLeast(PackEnd(objs, first, percent, k), objs[k].alignment, starts[k]);
  }

  function PackStarts(objs: seq<LayoutObject>, first: nat, percent: nat): seq<nat> {
    seq(|objs|, k requires 0 <= k < |objs| => PackStart(objs, first, percent, k))
  }

  /** A layout exists exactly when early packing ends within the limit, and it is then
    * itself feasible and pointwise least. */
  lemma FeasibleIffPackingFits(objs: seq<LayoutObject>, first: nat, limit: nat, percent: nat)
    requires Movable(objs) && first <= limit
    ensures (exists starts :: Feasible(objs, starts, first, limit, percent)) <==> PackEnd(objs, first, percent, |objs|) <= limit
    ensures PackEnd(objs, first, percent, |objs|) <= limit ==> Feasible(objs, PackStarts(objs, first, percent), first, limit, percent)
  {
    var packed := PackStarts(objs, first, percent);
    forall k | 0 <= k < |objs|
      ensures WellPlaced(objs, packed, first, percent, k)
    {
      assert !Malformed(objs, k);
      AlignUpLeast(PackEnd(objs, first, percent, k), objs[k].alignment, 0);
    }
    assert PackEnd(objs, first, percent, |objs|) <= limit ==> Feasible(objs, packed, first, limit, percent);
    if starts :| Feasible(objs, starts, first, limit, percent) {
      if |objs| > 0 {
        PackingIsEarliest(objs, starts, first, limit, percent, |objs| - 1);
      }
    }
  }

  /** The verdict on objects k onwards: the first offending object decides. */
  function Verdict(objs: seq<LayoutObject>, first: nat, limit: nat, percent: nat, k: nat): Status
    requires k <= |objs|
    decreases |objs| - k
  {
    if k == |objs| then Ok
    else if Malformed(objs, k) then Invalid
    else if objs[k].flags != 0 then Unsupported
    else if PackEnd(objs, first, percent, k + 1) > limit then NoSpace
    else Verdict(objs, first, limit, percent, k + 1)
  }

  lemma {:induction false} VerdictExact(objs: seq<LayoutObject>, first: nat, limit: nat, percent: nat, k: nat)
    requires k <= |objs|
    requires forall j {:trigger Malformed(objs, j)} :: 0 <= j < k ==> !Malformed(objs, j) && objs[j].flags == 0
    requires PackEnd(objs, first, percent, k) <= limit
    ensures Verdict(objs, first, limit, percent, k) == Ok <==> Movable(objs) && PackEnd(objs, first, percent, |objs|) <= limit
    ensures WellFormed(objs) ==> Verdict(objs, first, limit, percent, k) != Invalid
    ensures Unflagged(objs) ==> Verdict(objs, first, limit, percent, k) != Unsupported
    ensures Verdict(objs, first, limit, percent, k) in {Ok, Invalid, Unsupported, NoSpace}
    decreases |objs| - k
  {
    WellFormedLocally(objs);
    forall j | 0 <= j < k
      ensures objs[j].flags == 0
    {
      assert !Malformed(objs, j);
    }
    if k < |objs| && !Malformed(objs, k) && objs[k].flags == 0 {
      PackEndGrows(objs, first, percent, k + 1, |objs|);
      if PackEnd(objs, first, percent, k + 1) <= limit {
        VerdictExact(objs, first, limit, percent, k + 1);
      }
    }
  }

  ghost predicate PlacementAt(objs: seq<LayoutObject>, first: nat, percent: nat, k: nat, p: Placement)
    requires k < |objs|
  {
    && p.id == objs[k].id
    && p.first == PackStart(objs, first, percent, k)
    && p.units == objs[k].units
    && p.gap == Reserve(objs[k].units, percent)
  }

  /** The first placements of an output are those of the packing. */
  ghost predicate Placed(objs: seq<LayoutObject>, first: nat, percent: nat, placed: seq<Placement>, n: nat) {
    n <= |placed| && n <= |objs| && forall k :: 0 <= k < n ==> PlacementAt(objs, first, percent, k, placed[k])
  }

  lemma AllPlaced(objs: seq<LayoutObject>, first: nat, percent: nat, placed: seq<Placement>)
    requires Placed(objs, first, percent, placed, |objs|)
    ensures forall k :: 0 <= k < |objs| ==> PlacementAt(objs, first, percent, k, placed[k])
  {}

  lemma NonePlaced(objs: seq<LayoutObject>, first: nat, percent: nat, placed: seq<Placement>)
    ensures Placed(objs, first, percent, placed, 0)
  {}

  lemma PlacedGrows(objs: seq<LayoutObject>, first: nat, percent: nat, placed: seq<Placement>, n: nat, p: Placement)
    requires n < |objs| && n < |placed| && Placed(objs, first, percent, placed, n)
    requires p.id == objs[n].id && p.units == objs[n].units
    requires p.first == PackStart(objs, first, percent, n) && p.gap == Reserve(objs[n].units, percent)
    ensures Placed(objs, first, percent, placed[n := p], n + 1)
  {}

  /** One object of a pass: how the verdict and the packing go on. */
  lemma VerdictStep(objs: seq<LayoutObject>, first: nat, limit: nat, percent: nat, k: nat)
    requires k < |objs|
    ensures PackStart(objs, first, percent, k) == AlignUp(PackEnd(objs, first, percent, k), objs[k].alignment)
    ensures PackEnd(objs, first, percent, k + 1) == PackStart(objs, first, percent, k) + objs[k].units + Reserve(objs[k].units, percent)
    ensures var bad := objs[k].id == 0 || objs[k].id <= (if k == 0 then 0 else objs[k - 1].id) || objs[k].units == 0 || objs[k].alignment == 0;
            Verdict(objs, first, limit, percent, k) ==
            (if bad then Invalid
             else if objs[k].flags != 0 then Unsupported
             else if PackEnd(objs, first, percent, k + 1) > limit then NoSpace
             else Verdict(objs, first, limit, percent, k + 1))
  {}

  lemma PackEndZero(objs: seq<LayoutObject>, first: nat, limit: nat, percent: nat)
    ensures PackEnd(objs, first, percent, 0) == first
    ensures Verdict(objs, first, limit, percent, |objs|) == Ok
  {}

  /** The inventory rules for one object. */
  method AdmitObject(obj: LayoutObject, previousId: U64) returns (status: Status)
    ensures status == Invalid <==> obj.id == 0 || obj.id <= previousId || obj.units == 0 || obj.alignment == 0
    ensures status == Unsupported <==> obj.id > previousId && obj.units > 0 && obj.alignment > 0 && obj.flags != 0
    ensures status in {Ok, Invalid, Unsupported}
  {
    if obj.id == 0 || obj.id <= previousId || obj.units == 0 || obj.alignment == 0 {
      return Invalid;
    }
    return if obj.flags != 0 then Unsupported else Ok;
  }

  /** One object of a planning pass: start, reserve and data end from the cursor, or no space. */
  method PlaceObject(obj: LayoutObject, cursor: U64, limitUnit: U64, percent: U32)
    returns (status: Status, start: U64, reserve: U64, end: U64)
    requires obj.alignment > 0 && cursor <= limitUnit
    requires percent == 0 || percent == 10
    ensures status == if AlignUp(cursor, obj.alignment) + obj.units <= limitUnit then Ok else NoSpace
    ensures status == Ok ==>
              && start == AlignUp(cursor, obj.alignment)
              && reserve == Reserve(obj.units, percent)
              && end == start + obj.units <= limitUnit
  {
    start, reserve, end := 0, 0, 0;
    var remainder: U64 := cursor % obj.alignment;
    var pad: U64 := if remainder != 0 then obj.alignment - remainder else 0;
    if cursor > limitUnit || pad > limitUnit - cursor {
      return NoSpace, start, reserve, end;
    }
    start := cursor + pad;
    if obj.units > limitUnit - start {
      return NoSpace, start, reserve, end;
    }
    TenPercentFits(obj.units);
    if percent != 0 {
      var reserved: Status;
      reserved, reserve := ReserveUnits(obj.units, percent);
      assert reserved == Ok;
    }
    end := start + obj.units;
    status := Ok;
  }

  /** One planning pass; writes only when an output array is supplied. */
  method LayoutPass(objects: array?<LayoutObject>, count: nat, firstUnit: U64, limitUnit: U64, percent: U32,
                    out: array?<Placement>)
    returns (status: Status)
    requires count != 0 ==> objects != null && count <= objects.Length
    requires out != null ==> count <= out.Length
    requires firstUnit <= limitUnit
    requires percent == 0 || percent == 10
    modifies out
    ensures count != 0 ==> status == Verdict(objects[..count], firstUnit, limitUnit, percent, 0)
    ensures count == 0 ==> status == Ok
    ensures out != null && status == Ok ==>
              forall k :: 0 <= k < count ==> PlacementAt(objects[..count], firstUnit, percent, k, out[k])
    ensures out != null ==> forall k :: count <= k < out.Length ==> out[k] == old(out[k])
  {
    if count == 0 {
      return Ok;
    }
    hide Verdict, PackEnd, PackStart, AlignUp, Footprint, Reserve, Placed, Malformed, PlacementAt;
    ghost var objs := objects[..count];
    assert PackEnd(objs, firstUnit, percent, 0) == firstUnit by { PackEndZero(objs, firstUnit, limitUnit, percent); }
    var cursor: U64 := firstUnit;
    var previousId: U64 := 0;
    var index := 0;
    if out != null {
      NonePlaced(objs, firstUnit, percent, out[..]);
    }
    while index < count
      invariant 0 <= index <= count
      invariant objects[..count] == objs
      invariant previousId == if index == 0 then 0 else objs[index - 1].id
      invariant cursor == PackEnd(objs, firstUnit, percent, index) <= limitUnit
      invariant Verdict(objs, firstUnit, limitUnit, percent, 0) == Verdict(objs, firstUnit, limitUnit, percent, index)
      invariant out != null ==> Placed(objs, firstUnit, percent, out[..], index)
      invariant out != null ==> forall k :: count <= k < out.Length ==> out[k] == old(out[k])
    {
      var obj := objects[index];
      assert obj == objs[index];
      VerdictStep(objs, firstUnit, limitUnit, percent, index);
      status := AdmitObject(obj, previousId);
      if status != Ok {
        return;
      }
      previousId := obj.id;
      var start, reserve, end;
      status, start, reserve, end := PlaceObject(obj, cursor, limitUnit, percent);
      if status != Ok {
        return;
      }
      if out != null {
        PlacedGrows(objs, firstUnit, percent, out[..], index, Placement(obj.id, start, obj.units, reserve));
        out[index] := Placement(obj.id, start, obj.units, reserve);
      }
      if reserve > limitUnit - end {
        return NoSpace;
      }
      cursor := end + reserve;
      index := index + 1;
    }
    PackEndZero(objs, firstUnit, limitUnit, percent);
    if out != null {
      AllPlaced(objs, firstUnit, percent, out[..]);
    }
    status := Ok;
  }

  /** Packs objects into [firstUnit, limitUnit): succeeds exactly when the inventory is
    * well formed and movable and any in-order layout fits, and then writes the layout
    * in which every object starts as early as in any other; otherwise writes nothing. */
  method Plan(objects: array?<LayoutObject>, count: nat, firstUnit: U64, limitUnit: U64, percent: U32,
              placements: array?<Placement>)
    returns (status: Status)
    requires objects != null ==> count <= objects.Length
    requires placements != null ==> count <= placements.Length
    modifies placements
    ensures (count != 0 && (objects == null || placements == null)) || firstUnit > limitUnit || percent !in {0, 10}
            ==> status == Invalid
    ensures status == Ok && count != 0 ==> objects != null && placements != null
    ensures objects != null && (count == 0 || placements != null) && firstUnit <= limitUnit && percent in {0, 10} ==>
              var objs := objects[..count];
              && status == Verdict(objs, firstUnit, limitUnit, percent, 0)
              && (status == Ok <==> Movable(objs) && exists s :: Feasible(objs, s, firstUnit, limitUnit, percent))
              && (WellFormed(objs) ==> status != Invalid) && (Unflagged(objs) ==> status != Unsupported)
              && status in {Ok, Invalid, Unsupported, NoSpace}
    ensures status == Ok && count != 0 ==>
              var objs := objects[..count];
              var starts := seq(count, k requires 0 <= k < count reads placements => placements[k].first as nat);
              && Feasible(objs, starts, firstUnit, limitUnit, percent)
              && (forall s, k :: Feasible(objs, s, firstUnit, limitUnit, percent) && 0 <= k < count ==> starts[k] <= s[k])
              && (forall k :: 0 <= k < count ==>
                    placements[k].id == objs[k].id && placements[k].units == objs[k].units
                    && placements[k].gap == Reserve(objs[k].units, percent))
    ensures placements != null ==>
              forall k :: (if status == Ok then count else 0) <= k < placements.Length ==> placements[k] == old(placements[k])
  {
    if (count != 0 && (objects == null || placements == null)) || firstUnit > limitUnit
       || (percent != 0 && percent != 10) {
      return Invalid;
    }
    ghost var objs: seq<LayoutObject> := if objects == null then [] else objects[..count];
    VerdictExact(objs, firstUnit, limitUnit, percent, 0);
    if Movable(objs) {
      FeasibleIffPackingFits(objs, firstUnit, limitUnit, percent);
    }
    var valid := LayoutPass(objects, count, firstUnit, limitUnit, percent, null);
    if valid != Ok {
      return valid;
    }
    status := LayoutPass(objects, count, firstUnit, limitUnit, percent, placements);
    if count != 0 {
      ghost var starts := seq(count, k requires 0 <= k < count reads placements => placements[k].first as nat);
      assert starts == PackStarts(objs, firstUnit, percent);
      forall s, k | Feasible(objs, s, firstUnit, limitUnit, percent) && 0 <= k < count
        ensures starts[k] <= s[k]
      {
        PackingIsEarliest(objs, s, firstUnit, limitUnit, percent, k);
      }
    }
  }

  // ---------------------------------------------------------------- one file over free ranges

  function EndOf(range: FreeExtent): nat {
    range.first + range.length
  }

  /** What a provider certifies: non-empty ranges with representable ends, ascending and disjoint. */
  ghost predicate Certified(free: seq<FreeExtent>) {
    && (forall i {:trigger free[i]} :: 0 <= i < |free| ==> free[i].length > 0 && EndOf(free[i]) <= U64_MAX)
    && (forall i, j {:trigger free[i], free[j]} :: 0 <= i < j < |free| ==> EndOf(free[i]) <= free[j].first)
  }

  /** First aligned unit of a range, and the units from there to its end. */
  function UsableFirst(range: FreeExtent, alignment: nat): nat {
    if Padding(range.first, alignment) > range.length then range.first else AlignUp(range.first, alignment)
  }

  function Capacity(range: FreeExtent, alignment: nat): nat {
    if Padding(range.first, alignment) > range.length then 0 else range.length - Padding(range.first, alignment)
  }

  /** Usable units of the k first ranges. */
  function CapacitySum(free: seq<FreeExtent>, alignment: nat, k: nat): nat
    requires k <= |free|
  {
    if k == 0 then 0 else CapacitySum(free, alignment, k - 1) + Capacity(free[k - 1], alignment)
  }

  lemma {:induction false} CapacitySumGrows(free: seq<FreeExtent>, alignment: nat, j: nat, k: nat)
    requires j <= k <= |free|
    ensures CapacitySum(free, alignment, j) <= CapacitySum(free, alignment, k)
  {
    if j < k {
      CapacitySumGrows(free, alignment, j, k - 1);
    }
  }

  /** Data units of the k first extents of a plan. */
  function UnitsOf(plan: seq<PlannedExtent>, k: nat): nat
    requires k <= |plan|
  {
    if k == 0 then 0 else UnitsOf(plan, k - 1) + plan[k - 1].units
  }

  ghost predicate Inside(range: FreeExtent, lo: nat, hi: nat) {
    range.first <= lo && hi <= EndOf(range)
  }

  /** Extent j of a plan: aligned data, followed by the gap if it is the last one, within
    * a single free range and before the next extent. */
  ghost predicate SoundExtent(plan: seq<PlannedExtent>, free: seq<FreeExtent>, alignment: nat, gap: nat, j: nat)
    requires j < |plan| && alignment > 0
  {
    && plan[j].units > 0
    && plan[j].first % alignment == 0
    && plan[j].gap == (if j == |plan| - 1 then gap else 0)
    && (exists i :: 0 <= i < |free| && Inside(free[i], plan[j].first, plan[j].first + plan[j].units + plan[j].gap))
    && (j > 0 ==> plan[j - 1].first + plan[j - 1].units <= plan[j].first)
  }

  /** Any ascending choice of aligned extents in free ranges that totals the file and
    * leaves the reserve right after the last extent, in that extent's range. */
  ghost predicate ValidPlan(plan: seq<PlannedExtent>, free: seq<FreeExtent>, units: nat, alignment: nat, gap: nat)
    requires alignment > 0
  {
    && |plan| > 0
    && (forall j {:trigger SoundExtent(plan, free, alignment, gap, j)} :: 0 <= j < |plan| ==> SoundExtent(plan, free, alignment, gap, j))
    && UnitsOf(plan, |plan|) == units
  }

  /** The last extent of a plan and its reserve lie in range i. */
  ghost predicate EndsIn(plan: seq<PlannedExtent>, free: seq<FreeExtent>, i: nat)
    requires |plan| > 0 && i < |free|
  {
    var last := plan[|plan| - 1];
    Inside(free[i], last.first, last.first + last.units + last.gap)
  }

  /** Whether a file of so many units can end in range i: room for one unit and the
    * reserve there, and for the whole file and the reserve up to its end. */
  predicate CanEnd(free: seq<FreeExtent>, units: nat, alignment: nat, gap: nat, i: nat)
    requires i < |free|
  {
    && 1 + gap <= Capacity(free[i], alignment)
    && units + gap <= CapacitySum(free, alignment, i + 1)
  }

  lemma UsableAt(range: FreeExtent, alignment: nat, at: nat)
    requires alignment > 0
    requires range.first <= at < EndOf(range) && at % alignment == 0
    ensures UsableFirst(range, alignment) <= at
    ensures UsableFirst(range, alignment) + Capacity(range, alignment) == EndOf(range)
  {
    AlignUpLeast(range.first, alignment, at);
  }

  /** Counting argument behind completeness: the extents up to one in range i never hold
    * more than the usable units before that range plus what lies before their end in it. */
  lemma {:induction false} PlanIsBounded(plan: seq<PlannedExtent>, free: seq<FreeExtent>, units: nat, alignment: nat, gap: nat, k: nat, i: nat)
    requires alignment > 0 && Certified(free)
    requires ValidPlan(plan, free, units, alignment, gap)
    requires 0 < k <= |plan| && i < |free|
    requires Inside(free[i], plan[k - 1].first, plan[k - 1].first + plan[k - 1].units + plan[k - 1].gap)
    ensures UsableFirst(free[i], alignment) <= plan[k - 1].first
    ensures UsableFirst(free[i], alignment) + Capacity(free[i], alignment) == EndOf(free[i])
    ensures UnitsOf(plan, k) <= CapacitySum(free, alignment, i) + plan[k - 1].first + plan[k - 1].units - UsableFirst(free[i], alignment)
  {
    var e := plan[k - 1];
    assert SoundExtent(plan, free, alignment, gap, k - 1);
    UsableAt(free[i], alignment, e.first);
    if k > 1 {
      var d := plan[k - 2];
      assert SoundExtent(plan, free, alignment, gap, k - 2);
      var i' :| 0 <= i' < |free| && Inside(free[i'], d.first, d.first + d.units + d.gap);
      PlanIsBounded(plan, free, units, alignment, gap, k - 1, i');
      assert i' <= i;
      if i' < i {
        CapacitySumGrows(free, alignment, i' + 1, i);
      }
    }
  }

  lemma ValidPlanCanEnd(plan: seq<PlannedExtent>, free: seq<FreeExtent>, units: nat, alignment: nat, gap: nat, i: nat)
    requires alignment > 0 && Certified(free) && i < |free|
    requires ValidPlan(plan, free, units, alignment, gap)
    requires EndsIn(plan, free, i)
    ensures CanEnd(free, units, alignment, gap, i)
  {
    assert SoundExtent(plan, free, alignment, gap, |plan| - 1);
    PlanIsBounded(plan, free, units, alignment, gap, |plan|, i);
  }

  /** Units taken before range i by the greedy split: all usable ones, but never the last unit. */
  function Taken(free: seq<FreeExtent>, units: nat, alignment: nat, i: nat): int
    requires i <= |free|
  {
    Min(units - 1, CapacitySum(free, alignment, i))
  }

  /** The greedy split of the remaining units over the ranges from i on. */
  function SplitFrom(free: seq<FreeExtent>, alignment: nat, gap: nat, i: nat, remaining: nat): Option<seq<PlannedExtent>>
    requires Certified(free) && gap <= U64_MAX && remaining <= U64_MAX && i <= |free|
    decreases |free| - i
  {
    if i == |free| || remaining == 0 then None
    else
      var first, capacity := UsableFirst(free[i], alignment), Capacity(free[i], alignment);
      if capacity == 0 then SplitFrom(free, alignment, gap, i + 1, remaining)
      else if remaining + gap <= capacity then Some([PlannedExtent(first, remaining, gap)])
      else
        var take := Min(capacity, remaining - 1);
        if take == 0 then SplitFrom(free, alignment, gap, i + 1, remaining)
        else
          match SplitFrom(free, alignment, gap, i + 1, remaining - take)
          case None => None
          case Some(rest) => Some([PlannedExtent(first, take, 0)] + rest)
  }

  lemma {:induction false} UnitsOfPrepend(e: PlannedExtent, plan: seq<PlannedExtent>, k: nat)
    requires k <= |plan|
    ensures UnitsOf([e] + plan, k + 1) == e.units + UnitsOf(plan, k)
  {
    if k > 0 {
      UnitsOfPrepend(e, plan, k - 1);
    }
  }

  /** Putting an extent of range i in front of a valid plan over later ranges. */
  lemma PrependExtent(free: seq<FreeExtent>, alignment: nat, gap: nat, i: nat, e: PlannedExtent, plan: seq<PlannedExtent>, units: nat)
    requires alignment > 0 && Certified(free) && i < |free|
    requires e.units > 0 && e.gap == 0 && e.first % alignment == 0
    requires Inside(free[i], e.first, e.first + e.units)
    requires ValidPlan(plan, free, units, alignment, gap)
    requires EndOf(free[i]) <= plan[0].first
    ensures ValidPlan([e] + plan, free, e.units + units, alignment, gap)
  {
    var whole := [e] + plan;
    UnitsOfPrepend(e, plan, |plan|);
    forall j | 0 <= j < |whole|
      ensures SoundExtent(whole, free, alignment, gap, j)
    {
      if j > 0 {
        assert SoundExtent(plan, free, alignment, gap, j - 1);
        assert whole[j] == plan[j - 1];
        assert j > 1 ==> whole[j - 1] == plan[j - 2];
      }
    }
  }

  lemma SingleExtent(free: seq<FreeExtent>, alignment: nat, gap: nat, i: nat, e: PlannedExtent)
    requires alignment > 0 && i < |free|
    requires e.units > 0 && e.gap == gap && e.first % alignment == 0
    requires Inside(free[i], e.first, e.first + e.units + e.gap)
    ensures ValidPlan([e], free, e.units, alignment, gap)
    ensures EndsIn([e], free, i)
  {
    assert SoundExtent([e], free, alignment, gap, 0);
    assert UnitsOf([e], 1) == UnitsOf([e], 0) + e.units;
  }

  lemma UsableIsAligned(range: FreeExtent, alignment: nat)
    requires alignment > 0 && Capacity(range, alignment) > 0
    ensures UsableFirst(range, alignment) % alignment == 0
    ensures range.first <= UsableFirst(range, alignment)
    ensures UsableFirst(range, alignment) + Capacity(range, alignment) == EndOf(range)
  {
    AlignUpLeast(range.first, alignment, 0);
  }

  /** The earliest range from i on that the file can end in; |free| if there is none. */
  function FirstEnd(free: seq<FreeExtent>, units: nat, alignment: nat, gap: nat, i: nat): (e: nat)
    requires i <= |free|
    ensures i <= e <= |free|
    ensures e < |free| ==> CanEnd(free, units, alignment, gap, e)
    ensures forall k :: i <= k < e ==> !CanEnd(free, units, alignment, gap, k)
    decreases |free| - i
  {
    if i == |free| || CanEnd(free, units, alignment, gap, i) then i else FirstEnd(free, units, alignment, gap, i + 1)
  }

  /** What the greedy split over the ranges from i on has to deliver. */
  ghost predicate SplitOutcome(free: seq<FreeExtent>, units: nat, alignment: nat, gap: nat, i: nat, r: Option<seq<PlannedExtent>>)
    requires i <= |free| && alignment > 0 && units > 0
  {
    var e := FirstEnd(free, units, alignment, gap, i);
    && (r.Some? <==> e < |free|)
    && (r.Some? ==>
          && ValidPlan(r.value, free, units - Taken(free, units, alignment, i), alignment, gap)
          && free[i].first <= r.value[0].first
          && EndsIn(r.value, free, e))
  }

  lemma SplitFinishes(free: seq<FreeExtent>, units: U64, alignment: nat, gap: nat, i: nat)
    requires Certified(free) && alignment > 0 && gap <= U64_MAX && units > 0 && i < |free|
    requires CanEnd(free, units, alignment, gap, i)
    ensures SplitOutcome(free, units, alignment, gap, i,
              SplitFrom(free, alignment, gap, i, units - Taken(free, units, alignment, i)))
  {
    UsableIsAligned(free[i], alignment);
    var remaining := units - Taken(free, units, alignment, i);
    SingleExtent(free, alignment, gap, i, PlannedExtent(UsableFirst(free[i], alignment), remaining, gap));
  }

  lemma SplitSkips(free: seq<FreeExtent>, units: U64, alignment: nat, gap: nat, i: nat)
    requires Certified(free) && alignment > 0 && gap <= U64_MAX && units > 0 && i < |free|
    requires !CanEnd(free, units, alignment, gap, i)
    requires Taken(free, units, alignment, i + 1) == Taken(free, units, alignment, i)
    ensures SplitFrom(free, alignment, gap, i, units - Taken(free, units, alignment, i))
         == SplitFrom(free, alignment, gap, i + 1, units - Taken(free, units, alignment, i + 1))
    ensures i + 1 < |free| ==> free[i].first <= free[i + 1].first
  {
    assert i + 1 < |free| ==> EndOf(free[i]) <= free[i + 1].first;
  }

  lemma SkipKeeps(free: seq<FreeExtent>, units: U64, alignment: nat, gap: nat, i: nat, r: Option<seq<PlannedExtent>>)
    requires Certified(free) && alignment > 0 && units > 0 && i < |free| && !CanEnd(free, units, alignment, gap, i)
    requires Taken(free, units, alignment, i + 1) == Taken(free, units, alignment, i)
    requires SplitOutcome(free, units, alignment, gap, i + 1, r)
    requires i + 1 < |free| ==> free[i].first <= free[i + 1].first
    ensures SplitOutcome(free, units, alignment, gap, i, r)
  {
    hide CanEnd, Taken, ValidPlan, EndsIn;
  }

  lemma TakenGrows(free: seq<FreeExtent>, units: nat, alignment: nat, i: nat)
    requires alignment > 0 && units > 0 && i < |free|
    ensures Taken(free, units, alignment, i) <= Taken(free, units, alignment, i + 1)
  {}

  lemma SplitTakes(free: seq<FreeExtent>, units: U64, alignment: nat, gap: nat, i: nat)
    requires Certified(free) && alignment > 0 && gap <= U64_MAX && units > 0 && i < |free|
    requires !CanEnd(free, units, alignment, gap, i)
    requires Taken(free, units, alignment, i + 1) > Taken(free, units, alignment, i)
    requires SplitOutcome(free, units, alignment, gap, i + 1,
               SplitFrom(free, alignment, gap, i + 1, units - Taken(free, units, alignment, i + 1)))
    ensures SplitOutcome(free, units, alignment, gap, i,
              SplitFrom(free, alignment, gap, i, units - Taken(free, units, alignment, i)))
  {
    var take := Taken(free, units, alignment, i + 1) - Taken(free, units, alignment, i);
    var rest := SplitFrom(free, alignment, gap, i + 1, units - Taken(free, units, alignment, i + 1));
    SplitUnfolds(free, units, alignment, gap, i);
    if rest.Some? {
      UsableIsAligned(free[i], alignment);
      assert EndOf(free[i]) <= free[i + 1].first;
      var e := PlannedExtent(UsableFirst(free[i], alignment), take, 0);
      PrependExtent(free, alignment, gap, i, e, rest.value, units - Taken(free, units, alignment, i + 1));
      LastOfPrepend(e, rest.value);
    }
  }

  lemma LastOfPrepend(e: PlannedExtent, plan: seq<PlannedExtent>)
    requires |plan| > 0
    ensures ([e] + plan)[|plan|] == plan[|plan| - 1]
  {}

  lemma SplitUnfolds(free: seq<FreeExtent>, units: U64, alignment: nat, gap: nat, i: nat)
    requires Certified(free) && alignment > 0 && gap <= U64_MAX && units > 0 && i < |free|
    requires !CanEnd(free, units, alignment, gap, i)
    requires Taken(free, units, alignment, i + 1) > Taken(free, units, alignment, i)
    ensures var take := Taken(free, units, alignment, i + 1) - Taken(free, units, alignment, i);
            var rest := SplitFrom(free, alignment, gap, i + 1, units - Taken(free, units, alignment, i + 1));
            && 0 < take <= Capacity(free[i], alignment)
            && UsableFirst(free[i], alignment) + Capacity(free[i], alignment) == EndOf(free[i])
            && SplitFrom(free, alignment, gap, i, units - Taken(free, units, alignment, i))
               == if rest.None? then None else Some([PlannedExtent(UsableFirst(free[i], alignment), take, 0)] + rest.value)
  {
    UsableIsAligned(free[i], alignment);
  }

  lemma SplitAtEnd(free: seq<FreeExtent>, units: U64, alignment: nat, gap: nat)
    requires Certified(free) && alignment > 0 && gap <= U64_MAX && units > 0
    ensures SplitOutcome(free, units, alignment, gap, |free|,
              SplitFrom(free, alignment, gap, |free|, units - Taken(free, units, alignment, |free|)))
  {}

  /** One range further: what the greedy split does from i + 1 on carries over to i. */
  lemma SplitStep(free: seq<FreeExtent>, units: U64, alignment: nat, gap: nat, i: nat)
    requires Certified(free) && alignment > 0 && gap <= U64_MAX && units > 0 && i < |free|
    requires SplitOutcome(free, units, alignment, gap, i + 1,
               SplitFrom(free, alignment, gap, i + 1, units - Taken(free, units, alignment, i + 1)))
    ensures SplitOutcome(free, units, alignment, gap, i,
              SplitFrom(free, alignment, gap, i, units - Taken(free, units, alignment, i)))
  {
    hide SplitOutcome, SplitFrom, CanEnd, Certified, UsableFirst, Capacity, CapacitySum;
    if CanEnd(free, units, alignment, gap, i) {
      SplitFinishes(free, units, alignment, gap, i);
    } else if Taken(free, units, alignment, i + 1) == Taken(free, units, alignment, i) {
      SplitSkips(free, units, alignment, gap, i);
      SkipKeeps(free, units, alignment, gap, i, SplitFrom(free, alignment, gap, i, units - Taken(free, units, alignment, i)));
    } else {
      TakenGrows(free, units, alignment, i);
      SplitTakes(free, units, alignment, gap, i);
    }
  }

  /** The greedy split is sound, succeeds exactly when the file can end in some range from
    * i on, and ends in the earliest of these. */
  lemma {:induction false} SplitExact(free: seq<FreeExtent>, units: U64, alignment: nat, gap: nat, i: nat)
    requires Certified(free) && alignment > 0 && gap <= U64_MAX && units > 0 && i <= |free|
    ensures SplitOutcome(free, units, alignment, gap, i,
              SplitFrom(free, alignment, gap, i, units - Taken(free, units, alignment, i)))
    decreases |free| - i
  {
    hide SplitOutcome, SplitFrom, Certified, CapacitySum;
    if i == |free| {
      SplitAtEnd(free, units, alignment, gap);
    } else {
      SplitExact(free, units, alignment, gap, i + 1);
      SplitStep(free, units, alignment, gap, i);
    }
  }

  /** The first range that holds so many units in one piece; |free| if there is none. */
  function FirstFit(free: seq<FreeExtent>, alignment: nat, need: nat, i: nat): (e: nat)
    requires i <= |free|
    ensures i <= e <= |free|
    ensures e < |free| ==> need <= Capacity(free[e], alignment)
    ensures forall k :: i <= k < e ==> Capacity(free[k], alignment) < need
    decreases |free| - i
  {
    if i == |free| || need <= Capacity(free[i], alignment) then i else FirstFit(free, alignment, need, i + 1)
  }

  /** The planner's choice: a single extent where one fits, otherwise the greedy split. */
  function ChosenPlan(free: seq<FreeExtent>, units: U64, alignment: nat, gap: nat): Option<seq<PlannedExtent>>
    requires Certified(free) && gap <= U64_MAX
  {
    var i := FirstFit(free, alignment, units + gap, 0);
    if i < |free| then Some([PlannedExtent(UsableFirst(free[i], alignment), units, gap)])
    else SplitFrom(free, alignment, gap, 0, units)
  }

  /** A plan in one piece exists exactly when some range is large enough, and then starts
    * no earlier than the usable start of the first such range. */
  lemma SinglePlanFits(plan: seq<PlannedExtent>, free: seq<FreeExtent>, units: U64, alignment: nat, gap: nat)
    requires Certified(free) && alignment > 0 && units > 0
    requires ValidPlan(plan, free, units, alignment, gap) && |plan| == 1
    ensures var i := FirstFit(free, alignment, units + gap, 0);
            i < |free| && UsableFirst(free[i], alignment) <= plan[0].first
  {
    assert SoundExtent(plan, free, alignment, gap, 0);
    assert UnitsOf(plan, 1) == UnitsOf(plan, 0) + plan[0].units;
    var i :| 0 <= i < |free| && Inside(free[i], plan[0].first, plan[0].first + plan[0].units + plan[0].gap);
    UsableAt(free[i], alignment, plan[0].first);
    var e := FirstFit(free, alignment, units + gap, 0);
    if e < i {
      UsableIsAligned(free[e], alignment);
      assert EndOf(free[e]) <= free[i].first;
    }
  }

  /** A plan is one extent, and the earliest possible one, if the file fits in one piece;
    * otherwise no plan at all ends in an earlier free range. */
  ghost predicate BestPlan(chosen: seq<PlannedExtent>, free: seq<FreeExtent>, units: nat, alignment: nat, gap: nat)
    requires alignment > 0
  {
    && ValidPlan(chosen, free, units, alignment, gap)
    && (forall plan: seq<PlannedExtent> :: ValidPlan(plan, free, units, alignment, gap) && |plan| == 1 ==>
          |chosen| == 1 && chosen[0].first <= plan[0].first)
    && (|chosen| > 1 ==>
          exists e :: 0 <= e < |free| && EndsIn(chosen, free, e)
            && forall plan: seq<PlannedExtent>, i :: ValidPlan(plan, free, units, alignment, gap) && 0 <= i < |free| && EndsIn(plan, free, i) ==> e <= i)
  }

  /** Wherever a valid plan ends, the file can end; so there is a first such range. */
  lemma ValidPlanEnds(plan: seq<PlannedExtent>, free: seq<FreeExtent>, units: nat, alignment: nat, gap: nat)
    requires Certified(free) && alignment > 0 && units > 0
    requires ValidPlan(plan, free, units, alignment, gap)
    ensures FirstEnd(free, units, alignment, gap, 0) < |free|
    ensures forall i :: 0 <= i < |free| && EndsIn(plan, free, i) ==> FirstEnd(free, units, alignment, gap, 0) <= i
  {
    assert SoundExtent(plan, free, alignment, gap, |plan| - 1);
    var last := plan[|plan| - 1];
    var at :| 0 <= at < |free| && Inside(free[at], last.first, last.first + last.units + last.gap);
    assert EndsIn(plan, free, at);
    forall i | 0 <= i < |free| && EndsIn(plan, free, i)
      ensures CanEnd(free, units, alignment, gap, i)
    {
      ValidPlanCanEnd(plan, free, units, alignment, gap, i);
    }
  }

  lemma SingleIsBest(free: seq<FreeExtent>, units: U64, alignment: nat, gap: nat)
    requires Certified(free) && alignment > 0 && gap <= U64_MAX && units > 0
    requires FirstFit(free, alignment, units + gap, 0) < |free|
    ensures BestPlan([PlannedExtent(UsableFirst(free[FirstFit(free, alignment, units + gap, 0)], alignment), units, gap)],
                     free, units, alignment, gap)
  {
    var at := FirstFit(free, alignment, units + gap, 0);
    UsableIsAligned(free[at], alignment);
    var chosen := [PlannedExtent(UsableFirst(free[at], alignment), units, gap)];
    SingleExtent(free, alignment, gap, at, chosen[0]);
    forall plan: seq<PlannedExtent> | ValidPlan(plan, free, units, alignment, gap) && |plan| == 1
      ensures chosen[0].first <= plan[0].first
    {
      SinglePlanFits(plan, free, units, alignment, gap);
    }
  }

  lemma SplitIsBest(chosen: seq<PlannedExtent>, free: seq<FreeExtent>, units: U64, alignment: nat, gap: nat)
    requires Certified(free) && alignment > 0 && gap <= U64_MAX && units > 0
    requires FirstFit(free, alignment, units + gap, 0) == |free|
    requires ValidPlan(chosen, free, units, alignment, gap)
    requires FirstEnd(free, units, alignment, gap, 0) < |free|
    requires EndsIn(chosen, free, FirstEnd(free, units, alignment, gap, 0))
    ensures BestPlan(chosen, free, units, alignment, gap)
  {
    forall plan: seq<PlannedExtent> | ValidPlan(plan, free, units, alignment, gap)
      ensures |plan| != 1
      ensures forall i :: 0 <= i < |free| && EndsIn(plan, free, i) ==> FirstEnd(free, units, alignment, gap, 0) <= i
    {
      ValidPlanEnds(plan, free, units, alignment, gap);
      if |plan| == 1 {
        SinglePlanFits(plan, free, units, alignment, gap);
      }
    }
  }

  /** Soundness, completeness and order of preference of the planner's choice. */
  lemma ChosenPlanIsBest(free: seq<FreeExtent>, units: U64, alignment: nat, gap: nat)
    requires Certified(free) && alignment > 0 && gap <= U64_MAX && units > 0
    ensures ChosenPlan(free, units, alignment, gap).None? <==>
              !exists plan :: ValidPlan(plan, free, units, alignment, gap)
    ensures ChosenPlan(free, units, alignment, gap).Some? ==>
              BestPlan(ChosenPlan(free, units, alignment, gap).value, free, units, alignment, gap)
  {
    var r := ChosenPlan(free, units, alignment, gap);
    if FirstFit(free, alignment, units + gap, 0) < |free| {
      SingleIsBest(free, units, alignment, gap);
    } else {
      SplitExact(free, units, alignment, gap, 0);
      assert Taken(free, units, alignment, 0) == 0;
      if r.Some? {
        SplitIsBest(r.value, free, units, alignment, gap);
      } else {
        forall plan | ValidPlan(plan, free, units, alignment, gap)
          ensures false
        {
          ValidPlanEnds(plan, free, units, alignment, gap);
        }
      }
    }
  }

  // ---------------------------------------------------------------- the split planner itself

  /** The caller's `size_t *written`. */
  class SizeCell {
    var value: nat
    constructor (initial: nat)
      ensures value == initial
    {
      value := initial;
    }
  }

  /** The range check of the provider's inventory. */
  method CheckFreeRanges(ranges: array?<FreeExtent>, count: nat) returns (status: Status)
    requires count != 0 ==> ranges != null && count <= ranges.Length
    ensures status in {Ok, Invalid}
    ensures count != 0 ==> (status == Ok <==> Certified(ranges[..count]))
    ensures count == 0 ==> status == Ok
  {
    var previousEnd: U64 := 0;
    var i := 0;
    while i < count
      invariant 0 <= i <= count
      invariant i > 0 ==> Certified(ranges[..i]) && previousEnd == EndOf(ranges[i - 1])
    {
      var first, length := ranges[i].first, ranges[i].length;
      assert ranges[..i + 1] == ranges[..i] + [ranges[i]];
      if length == 0 || first > U64_MAX - length || (i != 0 && first < previousEnd) {
        NotCertified(ranges[..count], i);
        return Invalid;
      }
      CertifiedGrows(ranges[..i], ranges[i]);
      previousEnd := first + length;
      i := i + 1;
    }
    status := Ok;
  }

  lemma NotCertified(free: seq<FreeExtent>, i: nat)
    requires i < |free|
    requires free[i].length == 0 || EndOf(free[i]) > U64_MAX || (i > 0 && free[i].first < EndOf(free[i - 1]))
    ensures !Certified(free)
  {}

  lemma CertifiedGrows(free: seq<FreeExtent>, range: FreeExtent)
    requires Certified(free)
    requires range.length > 0 && EndOf(range) <= U64_MAX
    requires |free| > 0 ==> EndOf(free[|free| - 1]) <= range.first
    ensures Certified(free + [range])
  {
    var grown := free + [range];
    forall i, j | 0 <= i < j < |grown|
      ensures EndOf(grown[i]) <= grown[j].first
    {
      if j == |free| && i < |free| - 1 {
        assert EndOf(free[i]) <= free[|free| - 1].first;
      }
    }
  }

  method UsableRange(range: FreeExtent, alignment: U64) returns (first: U64, capacity: U64)
    requires alignment > 0 && EndOf(range) <= U64_MAX
    ensures first == UsableFirst(range, alignment)
    ensures capacity == Capacity(range, alignment)
  {
    var modulo: U64 := range.first % alignment;
    var padding: U64 := if modulo != 0 then alignment - modulo else 0;
    if padding > range.length {
      first, capacity := range.first, 0;
    } else {
      first, capacity := range.first + padding, range.length - padding;
    }
  }

  /** The first range that holds the file and its reserve in one piece, if any. */
  method FindSingleFit(obj: LayoutObject, freeExtents: array?<FreeExtent>, freeCount: nat, gap: U64)
    returns (found: bool, first: U64)
    requires obj.alignment > 0
    requires freeCount != 0 ==> freeExtents != null && freeCount <= freeExtents.Length && Certified(freeExtents[..freeCount])
    ensures freeCount == 0 ==> !found
    ensures freeCount != 0 ==>
              var e := FirstFit(freeExtents[..freeCount], obj.alignment, obj.units + gap, 0);
              && (found <==> e < freeCount)
              && (found ==> first == UsableFirst(freeExtents[e], obj.alignment))
  {
    first := 0;
    var i := 0;
    while i < freeCount
      invariant 0 <= i <= freeCount
      invariant i > 0 ==> FirstFit(freeExtents[..freeCount], obj.alignment, obj.units + gap, 0)
                          == FirstFit(freeExtents[..freeCount], obj.alignment, obj.units + gap, i)
    {
      ghost var free := freeExtents[..freeCount];
      assert free[i] == freeExtents[i];
      var usable, capacity := UsableRange(freeExtents[i], obj.alignment);
      if obj.units <= capacity && gap <= capacity - obj.units {
        return true, usable;
      }
      i := i + 1;
    }
    found := false;
  }

  /** What the split takes from one range: nothing, everything that leaves at least one
    * unit over, or the rest of the file where it fits together with the reserve. */
  method TakeFrom(range: FreeExtent, alignment: U64, gap: U64, remaining: U64)
    returns (first: U64, take: U64, finish: bool)
    requires alignment > 0 && EndOf(range) <= U64_MAX && remaining > 0
    ensures first == UsableFirst(range, alignment)
    ensures finish == (Capacity(range, alignment) > 0 && remaining + gap <= Capacity(range, alignment))
    ensures take == if finish then remaining else Min(Capacity(range, alignment), remaining - 1)
  {
    var capacity: U64;
    first, capacity := UsableRange(range, alignment);
    if capacity == 0 {
      return first, 0, false;
    }
    finish := remaining <= capacity && gap <= capacity - remaining;
    take := if capacity < remaining then capacity else remaining;
    if !finish && take == remaining {
      take := take - 1;
    }
  }

  /** The extents done so far, followed by those of the ranges to come, are the whole plan. */
  ghost predicate Continues(whole: Option<seq<PlannedExtent>>, done: seq<PlannedExtent>, rest: Option<seq<PlannedExtent>>) {
    whole.Some? == rest.Some? && (whole.Some? ==> whole.value == done + rest.value)
  }

  lemma SplitAdvances(free: seq<FreeExtent>, alignment: U64, gap: U64, i: nat, remaining: U64,
                      whole: Option<seq<PlannedExtent>>, done: seq<PlannedExtent>)
    requires Certified(free) && i < |free| && remaining > 0
    requires Continues(whole, done, SplitFrom(free, alignment, gap, i, remaining))
    ensures EndOf(free[i]) <= U64_MAX
    ensures var first, capacity := UsableFirst(free[i], alignment), Capacity(free[i], alignment);
            if capacity > 0 && remaining + gap <= capacity then
              whole == Some(done + [PlannedExtent(first, remaining, gap)])
            else
              var take := Min(capacity, remaining - 1);
              && remaining - take > 0
              && (take > 0 ==> first <= U64_MAX)
              && (take > 0 && whole.Some? ==> |done| < |whole.value|)
              && Continues(whole, if take == 0 then done else done + [PlannedExtent(first, take, 0)],
                           SplitFrom(free, alignment, gap, i + 1, remaining - take))
  {
    var capacity := Capacity(free[i], alignment);
    if !(capacity > 0 && remaining + gap <= capacity) {
      var take := Min(capacity, remaining - 1);
      var rest := SplitFrom(free, alignment, gap, i + 1, remaining - take);
      if take > 0 && rest.Some? {
        var e := PlannedExtent(UsableFirst(free[i], alignment), take, 0);
        assert done + ([e] + rest.value) == done + [e] + rest.value;
      }
    }
  }

  lemma SplitExhausted(free: seq<FreeExtent>, alignment: U64, gap: U64, remaining: U64,
                       whole: Option<seq<PlannedExtent>>, done: seq<PlannedExtent>)
    requires Certified(free)
    requires Continues(whole, done, SplitFrom(free, alignment, gap, |free|, remaining))
    ensures whole.None?
  {}

  lemma NothingDoneYet(whole: Option<seq<PlannedExtent>>)
    ensures Continues(whole, [], whole)
  {}

  /** Splits the file over ascending ranges; writes only when an output array is supplied. */
  method SplitFile(obj: LayoutObject, freeExtents: array<FreeExtent>, freeCount: nat, gap: U64, output: array?<PlannedExtent>)
    returns (status: Status, extents: nat)
    requires obj.alignment > 0 && obj.units > 0
    requires freeCount <= freeExtents.Length && Certified(freeExtents[..freeCount])
    requires output != null ==>
               var r := SplitFrom(freeExtents[..freeCount], obj.alignment, gap, 0, obj.units);
               r.Some? && |r.value| <= output.Length
    modifies output
    ensures var r := SplitFrom(freeExtents[..freeCount], obj.alignment, gap, 0, obj.units);
            && status == (if r.Some? then Ok else NoSpace)
            && (r.Some? ==> extents == |r.value|)
            && (r.Some? && output != null ==>
                  forall k :: 0 <= k < output.Length ==> output[k] == if k < extents then r.value[k] else old(output[k]))
  {
    hide UsableFirst, Capacity, SplitFrom, Certified, Continues;
    ghost var free := freeExtents[..freeCount];
    ghost var r := SplitFrom(free, obj.alignment, gap, 0, obj.units);
    ghost var done: seq<PlannedExtent> := [];
    var remaining: U64 := obj.units;
    extents := 0;
    NothingDoneYet(r);
    var i := 0;
    while i < freeCount && remaining != 0
      invariant 0 <= i <= freeCount && remaining > 0
      invariant freeExtents[..freeCount] == free
      invariant |done| == extents && Continues(r, done, SplitFrom(free, obj.alignment, gap, i, remaining))
      invariant output != null ==> forall k :: 0 <= k < output.Length ==> output[k] == if k < extents then done[k] else old(output[k])
    {
      SplitAdvances(free, obj.alignment, gap, i, remaining, r, done);
      assert free[i] == freeExtents[i];
      var first, take, finish := TakeFrom(freeExtents[i], obj.alignment, gap, remaining);
      i := i + 1;
      if take == 0 {
        continue;
      }
      ghost var extent := PlannedExtent(first, take, if finish then gap else 0);
      if output != null {
        output[extents] := PlannedExtent(first, take, if finish then gap else 0);
      }
      done := done + [extent];
      extents := extents + 1;
      remaining := remaining - take;
      if finish {
        return Ok, extents;
      }
    }
    SplitExhausted(free, obj.alignment, gap, remaining, r, done);
    status := NoSpace;
  }

  /** One planning pass over the ranges: a single extent if one fits, otherwise the split. */
  method PlanFileExtentPass(obj: LayoutObject, freeExtents: array?<FreeExtent>, freeCount: nat, gap: U64,
                            output: array?<PlannedExtent>)
    returns (status: Status, extents: nat)
    requires obj.alignment > 0 && obj.units > 0
    requires freeCount != 0 ==> freeExtents != null && freeCount <= freeExtents.Length && Certified(freeExtents[..freeCount])
    requires output != null ==>
               (freeCount != 0
                && var r := ChosenPlan(freeExtents[..freeCount], obj.units, obj.alignment, gap);
                   r.Some? && |r.value| <= output.Length)
    modifies output
    ensures freeCount == 0 ==> status == NoSpace
    ensures freeCount != 0 ==>
              var r := ChosenPlan(freeExtents[..freeCount], obj.units, obj.alignment, gap);
              && status == (if r.Some? then Ok else NoSpace)
              && (r.Some? ==> extents == |r.value|)
              && (r.Some? && output != null ==>
                    forall k :: 0 <= k < output.Length ==> output[k] == if k < extents then r.value[k] else old(output[k]))
  {
    extents := 0;
    var found, first := FindSingleFit(obj, freeExtents, freeCount, gap);
    if found {
      if output != null {
        output[0] := PlannedExtent(first, obj.units, gap);
      }
      return Ok, 1;
    }
    if freeCount == 0 {
      return NoSpace, extents;
    }
    status, extents := SplitFile(obj, freeExtents, freeCount, gap, output);
  }

  /** Preflight pass, capacity check, writing pass: the writing pass cannot fail or disagree. */
  method PreflightThenWrite(obj: LayoutObject, freeExtents: array?<FreeExtent>, freeCount: nat, gap: U64,
                            output: array?<PlannedExtent>, outputCapacity: nat, written: SizeCell)
    returns (status: Status, ghost chosen: Option<seq<PlannedExtent>>)
    requires obj.alignment > 0 && obj.units > 0
    requires freeCount != 0 ==> freeExtents != null && freeCount <= freeExtents.Length && Certified(freeExtents[..freeCount])
    requires outputCapacity != 0 ==> output != null && outputCapacity <= output.Length
    modifies output, written
    ensures freeCount != 0 ==> chosen == old(ChosenPlan(freeExtents[..freeCount], obj.units, obj.alignment, gap))
    ensures freeCount == 0 ==> chosen == None
    ensures status == if chosen.None? then NoSpace else if |chosen.value| > outputCapacity then OutputTooSmall else Ok
    ensures status == Ok ==> written.value == |chosen.value| && output != null && |chosen.value| <= output.Length
    ensures status == Ok ==> output[..written.value] == chosen.value
    ensures status == Ok ==> forall k :: written.value <= k < output.Length ==> output[k] == old(output[k])
    ensures status != Ok ==> written.value == old(written.value)
    ensures status != Ok && output != null ==> output[..] == old(output[..])
  {
    chosen := if freeCount == 0 then None else ChosenPlan(freeExtents[..freeCount], obj.units, obj.alignment, gap);
    var first, required := PlanFileExtentPass(obj, freeExtents, freeCount, gap, null);
    if first != Ok {
      return first, chosen;
    }
    if required > outputCapacity {
      return OutputTooSmall, chosen;
    }
    ChosenPlanIsBest(freeExtents[..freeCount], obj.units, obj.alignment, gap);
    var second, actual := PlanFileExtentPass(obj, freeExtents, freeCount, gap, output);
    assert second == Ok && actual == required;
    written.value := required;
    status := Ok;
  }

  /** Plans one file around certified free ranges.  An unflagged object with certified ranges and
    * sound arguments is planned; NoSpace then means that no valid plan exists at all, and success
    * delivers a best plan.  Every other outcome leaves output and written alone. */
  method PlanFileExtents(obj: Option<LayoutObject>, freeExtents: array?<FreeExtent>, freeCount: nat, percent: U32,
                         output: array?<PlannedExtent>, outputCapacity: nat, written: SizeCell?)
    returns (status: Status)
    requires freeExtents != null ==> freeCount <= freeExtents.Length
    requires output != null ==> outputCapacity <= output.Length
    modifies output, written
    ensures obj.Some? && obj.value.id > 0 && obj.value.units > 0 && obj.value.alignment > 0 && written != null
            && (freeCount > 0 ==> freeExtents != null) && (outputCapacity > 0 ==> output != null) && percent in {0, 10} ==>
              var o := obj.value;
              var free := if freeExtents == null then [] else freeExtents[..freeCount];
              var gap := Reserve(o.units, percent);
              && (status == Unsupported <==> o.flags != 0)
              && (status == Invalid <==> o.flags == 0 && !Certified(free))
              && (o.flags == 0 && Certified(free) ==>
                    var chosen := ChosenPlan(free, o.units, o.alignment, gap);
                    && status == (if chosen.None? then NoSpace else if |chosen.value| > outputCapacity then OutputTooSmall else Ok)
                    && (status == NoSpace <==> !exists plan :: ValidPlan(plan, free, o.units, o.alignment, gap))
                    && (status == Ok ==> output != null && written.value <= outputCapacity)
                    && (status == Ok ==> output[..written.value] == chosen.value && BestPlan(chosen.value, free, o.units, o.alignment, gap))
                    && (status == Ok ==> forall k :: written.value <= k < output.Length ==> output[k] == old(output[k])))
    ensures obj.None? || obj.value.id == 0 || obj.value.units == 0 || obj.value.alignment == 0 || written == null
            || (freeCount > 0 && freeExtents == null) || (outputCapacity > 0 && output == null) || (percent != 0 && percent != 10)
            ==> status == Invalid
    ensures status != Ok && output != null ==> output[..] == old(output[..])
    ensures status != Ok && written != null ==> written.value == old(written.value)
  {
    if obj.None? || written == null || (freeCount != 0 && freeExtents == null) || (percent != 0 && percent != 10)
       || (outputCapacity != 0 && output == null)
       || obj.value.id == 0 || obj.value.units == 0 || obj.value.alignment == 0 {
      return Invalid;
    }
    var o := obj.value;
    if o.flags != 0 {
      return Unsupported;
    }
    var checked := CheckFreeRanges(freeExtents, freeCount);
    if checked != Ok {
      return Invalid;
    }
    var gap: U64 := 0;
    TenPercentFits(o.units);
    if percent != 0 {
      var reserved: Status;
      reserved, gap := ReserveUnits(o.units, percent);
      assert reserved == Ok;
    }
    ghost var free: seq<FreeExtent> := if freeExtents == null then [] else freeExtents[..freeCount];
    ChosenPlanIsBest(free, o.units, o.alignment, gap);
    ghost var chosen: Option<seq<PlannedExtent>>;
    status, chosen := PreflightThenWrite(o, freeExtents, freeCount, gap, output, outputCapacity, written);
  }
}
