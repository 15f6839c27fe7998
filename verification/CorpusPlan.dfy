/** The file corpus of test_media/test_media_raw.c: file sizes and the two-phase extent plan. */
module CorpusPlan {
  import opened MachineInts

  const RAW_FILES: nat := 16
  const TARGET_FILES: nat := 8
  const CHUNK_BYTES: nat := 2048 * 1024
  const FILE_CHUNKS: seq<nat> := [2, 3, 5, 8, 13, 17, 22, 30]
  const EDGES: seq<nat> := [0, 1, 511, 512, 513, 4095, 4096, 4097]

  function FileBytes(file: nat): (r: nat)
    ensures r <= 30 * CHUNK_BYTES
  {
    if file < TARGET_FILES then FILE_CHUNKS[file] * CHUNK_BYTES
    else if file < RAW_FILES then EDGES[file - TARGET_FILES]
    else 0
  }

  /** The sixteen sizes: whole megabytes for the fragmented files, then the sizes around a sector of
    * 512 bytes and a page of 4096. */
  lemma FileSizes()
    ensures seq(16, i requires 0 <= i < 16 => FileBytes(i)) ==
            [4194304, 6291456, 10485760, 16777216, 27262976, 35651584, 46137344, 62914560,
             0, 1, 512 - 1, 512, 512 + 1, 4096 - 1, 4096, 4096 + 1]
    ensures forall file :: file >= 16 ==> FileBytes(file) == 0
  {}

  function UnitsOf(file: nat, unit: nat): nat
    requires unit > 0
  {
    (FileBytes(file) + unit - 1) / unit
  }

  function FirstHalf(units: nat): nat {
    if units > 1 then units / 2 else units
  }

  /** Units of extent number step: step = 16 * phase + file. */
  function StepCount(unit: nat, step: nat): nat
    requires unit > 0
  {
    var units := UnitsOf(step % RAW_FILES, unit);
    if step < RAW_FILES then FirstHalf(units) else units - FirstHalf(units)
  }

  /** Units that one step moves the cursor by: the extent and a gap of two. */
  function StepWidth(unit: nat, step: nat): nat
    requires unit > 0
  {
    if StepCount(unit, step) == 0 then 0 else StepCount(unit, step) + 2
  }

  /** Units that the first steps take. */
  function Width(unit: nat, steps: nat): nat
    requires unit > 0
  {
    if steps == 0 then 0 else Width(unit, steps - 1) + StepWidth(unit, steps - 1)
  }

  datatype RawFile = RawFile(bytes: nat, start: seq<nat>, count: seq<nat>)

  /** The cursor in front of a step; it is an unsigned 64-bit variable that is advanced unchecked. */
  function Cursor(unit: nat, first: nat, step: nat): U64
    requires unit > 0
  {
    Wrap(first + Width(unit, step))
  }

  function StepStart(unit: nat, first: nat, step: nat): nat
    requires unit > 0
  {
    if StepCount(unit, step) == 0 then 0 else Cursor(unit, first, step)
  }

  /** One file after the first steps of the plan have been written. */
  function FileAfter(unit: nat, first: nat, steps: nat, file: nat): RawFile
    requires unit > 0 && file < RAW_FILES
  {
    var a, b := steps > file, steps > RAW_FILES + file;
    RawFile(if a then FileBytes(file) else 0,
            [if a then StepStart(unit, first, file) else 0, if b then StepStart(unit, first, RAW_FILES + file) else 0],
            [if a then StepCount(unit, file) else 0, if b then StepCount(unit, RAW_FILES + file) else 0])
  }

  function FilesAfter(unit: nat, first: nat, steps: nat): (r: seq<RawFile>)
    requires unit > 0
    ensures |r| == RAW_FILES
  {
    seq(RAW_FILES, file requires 0 <= file < RAW_FILES => FileAfter(unit, first, steps, file))
  }

  predicate StepFits(unit: nat, first: nat, limit: nat, step: nat)
    requires unit > 0
  {
    StepCount(unit, step) == 0 || Cursor(unit, first, step) + StepCount(unit, step) <= limit
  }

  /** The first steps that are all possible. */
  predicate AllFit(unit: nat, first: nat, limit: nat, steps: nat)
    requires unit > 0
  {
    forall step :: 0 <= step < steps ==> StepFits(unit, first, limit, step)
  }

  /** Units of one of the two extents of a file. */
  method ExtentUnits(unit: U32, phase: nat, file: nat, bytes: U64) returns (count: U64)
    requires unit > 0 && phase < 2 && file < RAW_FILES && bytes == FileBytes(file)
    ensures count == StepCount(unit, RAW_FILES * phase + file)
  {
    hide FileBytes, StepCount;
    Quotient(bytes + unit - 1, unit);
    var units: U64 := (bytes + unit - 1) / unit;
    var firstHalf := if units > 1 then units / 2 else units;
    CountOfStep(unit, phase, file, units);
    count := if phase == 0 then firstHalf else units - firstHalf;
  }

  class RawPlan {
    var capacity: U64
    var unit: U32
    var files: seq<RawFile>
    var end: U64

    constructor ()
      ensures files == seq(RAW_FILES, i => RawFile(0, [0, 0], [0, 0]))
    {
      capacity, unit, end := 0, 0, 0;
      files := seq(RAW_FILES, i => RawFile(0, [0, 0], [0, 0]));
    }

    /** Plans two extents a file, first all first halves, then all second halves. */
    method Make(capacity: U64, unit: U32, first: U64) returns (ok: bool)
      modifies this
      ensures unit == 0 || capacity / unit <= first ==>
                !ok && this.capacity == old(this.capacity) && this.unit == old(this.unit)
                && files == old(files) && end == old(end)
      ensures unit > 0 && capacity / unit > first ==>
                && ok == AllFit(unit, first, capacity / unit, 2 * RAW_FILES)
                && this.capacity == capacity && this.unit == unit
                && (ok ==> files == FilesAfter(unit, first, 2 * RAW_FILES) && end == Cursor(unit, first, 2 * RAW_FILES))
                && (ok ==> (SoundPlan(files, unit, first, capacity / unit) <==> Roomy(unit, first, capacity / unit, 2 * RAW_FILES)))
                && (ok && capacity / unit <= U64_MAX - 2 ==> SoundPlan(files, unit, first, capacity / unit))
                && (!ok ==> end == 0 && exists step :: 0 <= step < 2 * RAW_FILES && FailedAt(unit, first, capacity / unit, step, files))
    {
      hide FileBytes, FilesAfter, Width, StepCount, StepWidth, UnitsOf, FirstHalf, AllFit, FailedAt, StepFits,
           FileAfter, SoundPlan, Cursor, Roomy;
      if unit == 0 || capacity / unit <= first {
        return false;
      }
      var limit := capacity / unit;
      Quotient(capacity, unit);
      this.capacity, this.unit, end := capacity, unit, 0;
      files := seq(RAW_FILES, i => RawFile(0, [0, 0], [0, 0]));
      NoSteps(unit, first, limit);
      var cursor: U64 := first;
      for phase := 0 to 2
        invariant cursor == Cursor(unit, first, RAW_FILES * phase)
        invariant AllFit(unit, first, limit, RAW_FILES * phase)
        invariant this.capacity == capacity && this.unit == unit && end == 0
        invariant files == FilesAfter(unit, first, RAW_FILES * phase)
      {
        for file := 0 to RAW_FILES
          invariant cursor == Cursor(unit, first, RAW_FILES * phase + file)
          invariant AllFit(unit, first, limit, RAW_FILES * phase + file)
          invariant this.capacity == capacity && this.unit == unit && end == 0
          invariant files == FilesAfter(unit, first, RAW_FILES * phase + file)
        {
          ghost var step := RAW_FILES * phase + file;
          var bytes: U64 := FileBytes(file);
          var count := ExtentUnits(unit, phase, file, bytes);
          var start := if count != 0 then cursor else 0;
          FilesStep(unit, first, step, file, phase);
          var item := files[file];
          item := item.(bytes := bytes, start := item.start[phase := start], count := item.count[phase := count]);
          files := files[file := item];
          StepAdds(unit, first, limit, step);
          if count == 0 {
            continue;
          }
          if cursor >= limit || count > limit - cursor {
            StoppedHere(unit, first, limit, step, files);
            return false;
          }
          cursor := Wrap(cursor + count + 2);
        }
      }
      end := cursor;
      SoundExactly(unit, first, limit);
      if limit <= U64_MAX - 2 {
        PlanVerdict(unit, first, limit, 2 * RAW_FILES);
      }
      return true;
    }
  }

  /** Planning stopped in front of a step that does not fit; that step's record is already written. */
  predicate FailedAt(unit: nat, first: nat, limit: nat, step: nat, files: seq<RawFile>)
    requires unit > 0
  {
    && AllFit(unit, first, limit, step)
    && !StepFits(unit, first, limit, step)
    && files == FilesAfter(unit, first, step + 1)
  }

  lemma Quotient(n: nat, d: nat)
    requires d > 0
    ensures 0 <= n / d <= n
  {
    var q := n / d;
    assert n == q * d + n % d;
    MulMonotone(1, d, n + 1);
    if q > n {
      MulMonotone(n + 1, q, d);
    }
  }

  lemma NoSteps(unit: nat, first: nat, limit: nat)
    requires unit > 0
    ensures Width(unit, 0) == 0 && AllFit(unit, first, limit, 0)
    ensures first <= U64_MAX ==> Cursor(unit, first, 0) == first
    ensures FilesAfter(unit, first, 0) == seq(RAW_FILES, i => RawFile(0, [0, 0], [0, 0]))
  {}

  lemma CountOfStep(unit: nat, phase: nat, file: nat, units: nat)
    requires unit > 0 && phase < 2 && file < RAW_FILES && units == (FileBytes(file) + unit - 1) / unit
    ensures var half := if units > 1 then units / 2 else units;
            StepCount(unit, RAW_FILES * phase + file) == (if phase == 0 then half else units - half) && half <= units
  {
    hide FileBytes;
    assert (RAW_FILES * phase + file) % RAW_FILES == file;
  }

  lemma StepAdds(unit: nat, first: nat, limit: nat, step: nat)
    requires unit > 0 && AllFit(unit, first, limit, step)
    ensures Cursor(unit, first, step + 1) ==
            if StepCount(unit, step) == 0 then Cursor(unit, first, step) else Wrap(Cursor(unit, first, step) + StepCount(unit, step) + 2)
    ensures StepFits(unit, first, limit, step) <==>
              StepCount(unit, step) == 0 || Cursor(unit, first, step) + StepCount(unit, step) <= limit
    ensures StepFits(unit, first, limit, step) <==> AllFit(unit, first, limit, step + 1)
    ensures !StepFits(unit, first, limit, step) ==>
              (forall more :: more > step ==> !AllFit(unit, first, limit, more))
  {
    hide StepCount;
    forall more | more > step && !StepFits(unit, first, limit, step)
      ensures !AllFit(unit, first, limit, more)
    {
      assert !(forall k :: 0 <= k < more ==> StepFits(unit, first, limit, k));
    }
  }

  lemma StoppedHere(unit: nat, first: nat, limit: nat, step: nat, files: seq<RawFile>)
    requires unit > 0 && AllFit(unit, first, limit, step) && !StepFits(unit, first, limit, step)
    requires files == FilesAfter(unit, first, step + 1)
    ensures FailedAt(unit, first, limit, step, files)
  {}

  /** One step fills in the phase's part of one file's record. */
  lemma FilesStep(unit: nat, first: nat, step: nat, file: nat, phase: nat)
    requires unit > 0 && phase < 2 && file < RAW_FILES && step == RAW_FILES * phase + file
    ensures var item := FilesAfter(unit, first, step)[file];
            && |item.start| == 2 && |item.count| == 2
            && FilesAfter(unit, first, step + 1) == FilesAfter(unit, first, step)[file := item.(bytes := FileBytes(file),
                 start := item.start[phase := if StepCount(unit, step) == 0 then 0 else Cursor(unit, first, step)],
                 count := item.count[phase := StepCount(unit, step)])]
  {
    hide StepCount, FileBytes, Cursor;
    var before, after := FilesAfter(unit, first, step), FilesAfter(unit, first, step + 1);
    forall f | 0 <= f < RAW_FILES && f != file
      ensures after[f] == before[f]
    {}
    var item, now := before[file], after[file];
    assert now.start == item.start[phase := StepStart(unit, first, step)];
    assert now.count == item.count[phase := StepCount(unit, step)];
  }

  // ---------------------------------------------------------------- what an accepted plan promises

  predicate PlanShape(files: seq<RawFile>) {
    |files| == RAW_FILES && forall f :: 0 <= f < RAW_FILES ==> |files[f].start| == 2 && |files[f].count| == 2
  }

  function Start(files: seq<RawFile>, step: nat): nat
    requires PlanShape(files) && step < 2 * RAW_FILES
  {
    files[step % RAW_FILES].start[step / RAW_FILES]
  }

  function Count(files: seq<RawFile>, step: nat): nat
    requires PlanShape(files) && step < 2 * RAW_FILES
  {
    files[step % RAW_FILES].count[step / RAW_FILES]
  }

  /** Non-empty extents lie in [first, limit), in plan order, with at least two units between them. */
  ghost predicate ExtentsApart(files: seq<RawFile>, first: nat, limit: nat)
    requires PlanShape(files)
  {
    && (forall i :: 0 <= i < 2 * RAW_FILES && Count(files, i) > 0 ==> first <= Start(files, i) && Start(files, i) + Count(files, i) <= limit)
    && (forall i, j :: 0 <= i < j < 2 * RAW_FILES && Count(files, i) > 0 && Count(files, j) > 0 ==>
          Start(files, i) + Count(files, i) + 2 <= Start(files, j))
  }

  /** The two extents of a file hold it exactly, and a file of two or more units is really split. */
  predicate HoldsFile(item: RawFile, unit: nat, file: nat)
    requires unit > 0 && |item.start| == 2 && |item.count| == 2
  {
    && item.bytes == FileBytes(file)
    && item.count[0] + item.count[1] == CeilDiv(item.bytes, unit)
    && (item.count[0] + item.count[1] >= 2 ==>
          item.count[0] > 0 && item.count[1] > 0 && item.start[0] + item.count[0] + 2 <= item.start[1])
  }

  ghost predicate SoundPlan(files: seq<RawFile>, unit: nat, first: nat, limit: nat)
    requires unit > 0
  {
    && PlanShape(files)
    && ExtentsApart(files, first, limit)
    && forall f :: 0 <= f < RAW_FILES ==> HoldsFile(files[f], unit, f)
  }

  /** The extents of the first steps, with gaps of two units between them, end within the limit. */
  predicate Roomy(unit: nat, first: nat, limit: nat, steps: nat)
    requires unit > 0
  {
    Width(unit, steps) == 0 || first + Width(unit, steps) - 2 <= limit
  }

  /** The extent of this step ends so close to 2^64 that the cursor wraps around behind it. */
  predicate Laps(unit: nat, first: nat, limit: nat, step: nat)
    requires unit > 0
  {
    StepCount(unit, step) > 0 && U64_MAX - 1 <= first + Width(unit, step) + StepCount(unit, step) <= limit
  }

  /** On a device of fewer than 2^64 - 2 units a plan is accepted exactly when there is room. */
  lemma PlanVerdict(unit: nat, first: nat, limit: nat, steps: nat)
    requires unit > 0 && first <= limit <= U64_MAX - 2 && steps <= 2 * RAW_FILES
    ensures AllFit(unit, first, limit, steps) <==> Roomy(unit, first, limit, steps)
  {
    AcceptedExactly(unit, first, limit, steps);
  }

  lemma {:induction false} LastExtent(unit: nat, steps: nat) returns (step: nat)
    requires unit > 0 && Width(unit, steps) > 0
    ensures step < steps && StepCount(unit, step) > 0 && Width(unit, steps) == Width(unit, step) + StepCount(unit, step) + 2
  {
    hide StepCount;
    if StepCount(unit, steps - 1) > 0 {
      step := steps - 1;
    } else {
      step := LastExtent(unit, steps - 1);
    }
  }

  /** On any device: a plan is accepted exactly when there is room or the cursor wraps around. */
  lemma {:induction false} AcceptedExactly(unit: nat, first: nat, limit: nat, steps: nat)
    requires unit > 0 && first <= limit <= U64_MAX && steps <= 2 * RAW_FILES
    ensures AllFit(unit, first, limit, steps) <==>
              Roomy(unit, first, limit, steps) || exists step :: 0 <= step < steps && Laps(unit, first, limit, step)
  {
    hide StepCount, AllFit, Laps;
    if steps == 0 {
      NoSteps(unit, first, limit);
    } else {
      AcceptedExactly(unit, first, limit, steps - 1);
      FitsOneMore(unit, first, limit, steps - 1);
      if step :| 0 <= step < steps - 1 && Laps(unit, first, limit, step) {
        AfterLap(unit, first, limit, step, steps - 1);
      } else {
        BeforeLap(unit, first, limit, steps - 1);
      }
    }
  }

  /** Behind a wrap-around every extent fits: it lies close to the start of the device. */
  lemma AfterLap(unit: nat, first: nat, limit: nat, step: nat, later: nat)
    requires unit > 0 && first <= limit <= U64_MAX && step < later < 2 * RAW_FILES
    requires Laps(unit, first, limit, step)
    ensures StepFits(unit, first, limit, later)
    ensures Cursor(unit, first, later) == first + Width(unit, later) - U64_MAX - 1 <= limit - (U64_MAX - 1) + Width(unit, later)
  {
    hide StepCount, Width, Wrap;
    WidthStep(unit, step);
    WidthGrows(unit, step + 1, later);
    WidthBound(unit, later);
    CountBound(unit, later);
    WrapOnce(first + Width(unit, later));
  }

  /** With no wrap-around so far, one more step fits exactly when there is room for it. */
  lemma BeforeLap(unit: nat, first: nat, limit: nat, steps: nat)
    requires unit > 0 && first <= limit <= U64_MAX
    requires forall step :: 0 <= step < steps ==> !Laps(unit, first, limit, step)
    ensures Roomy(unit, first, limit, steps) && StepFits(unit, first, limit, steps) <==> Roomy(unit, first, limit, steps + 1)
    ensures Laps(unit, first, limit, steps) ==> Roomy(unit, first, limit, steps + 1)
  {
    hide StepCount;
    if Roomy(unit, first, limit, steps) && first + Width(unit, steps) > U64_MAX {
      LapBefore(unit, first, limit, steps);
      assert false;
    }
  }

  lemma LapBefore(unit: nat, first: nat, limit: nat, steps: nat)
    requires unit > 0 && first <= limit <= U64_MAX
    requires Roomy(unit, first, limit, steps) && first + Width(unit, steps) > U64_MAX
    ensures exists step :: 0 <= step < steps && Laps(unit, first, limit, step)
  {
    hide StepCount;
    var step := LastExtent(unit, steps);
    assert Laps(unit, first, limit, step);
  }

  lemma {:induction false} WidthBound(unit: nat, steps: nat)
    requires unit > 0
    ensures Width(unit, steps) <= steps * (30 * CHUNK_BYTES + 2)
  {
    hide StepCount;
    if steps > 0 {
      WidthBound(unit, steps - 1);
      CountBound(unit, steps - 1);
    }
  }

  lemma CeilSmall(n: nat, d: nat)
    requires d > 0
    ensures CeilDiv(n, d) <= n
  {
    CeilDivLeast(n, d);
    MulMonotone(1, d, n);
    assert n * d >= n;
  }

  lemma UnitsBound(file: nat, unit: nat)
    requires unit > 0
    ensures UnitsOf(file, unit) <= 30 * CHUNK_BYTES
  {
    hide FileBytes;
    CeilSmall(FileBytes(file), unit);
  }

  lemma CountBound(unit: nat, step: nat)
    requires unit > 0
    ensures StepCount(unit, step) <= 30 * CHUNK_BYTES
  {
    hide UnitsOf;
    UnitsBound(step % RAW_FILES, unit);
  }

  /** An accepted plan is sound exactly when there is room for it. */
  lemma SoundExactly(unit: nat, first: nat, limit: nat)
    requires unit > 0 && first < limit <= U64_MAX && AllFit(unit, first, limit, 2 * RAW_FILES)
    ensures SoundPlan(FilesAfter(unit, first, 2 * RAW_FILES), unit, first, limit) <==> Roomy(unit, first, limit, 2 * RAW_FILES)
  {
    hide StepCount, FilesAfter, AllFit, StepFits;
    if Roomy(unit, first, limit, 2 * RAW_FILES) {
      PlanIsSound(unit, first, limit);
    } else {
      AcceptedExactly(unit, first, limit, 2 * RAW_FILES);
      var step :| 0 <= step < 2 * RAW_FILES && Laps(unit, first, limit, step);
      var last := LastExtent(unit, 2 * RAW_FILES);
      if last <= step {
        WidthGrows(unit, last, step);
        assert last < step ==> Width(unit, last + 1) <= Width(unit, step) by {
          if last < step {
            WidthGrows(unit, last + 1, step);
          }
        }
        WidthGrows(unit, step + 1, 2 * RAW_FILES);
        assert false;
      }
      AfterLap(unit, first, limit, step, last);
      WidthBound(unit, 2 * RAW_FILES);
      WidthGrows(unit, last, 2 * RAW_FILES);
      WidthGrows(unit, step, 2 * RAW_FILES);
      ExtentOf(unit, first, last);
      assert Start(FilesAfter(unit, first, 2 * RAW_FILES), last) < first;
    }
  }

  lemma FirstWidths()
    ensures StepCount(1, 0) == CHUNK_BYTES && StepCount(1, 1) > 0
    ensures Width(1, 0) == 0 && Width(1, 1) == CHUNK_BYTES + 2 && Width(1, 2) > Width(1, 1)
  {
    assert FileBytes(0) == 2 * CHUNK_BYTES && FileBytes(1) == 3 * CHUNK_BYTES;
    hide FileBytes;
    assert StepCount(1, 0) == CHUNK_BYTES && StepCount(1, 1) > 0;
    hide StepCount;
    assert Width(1, 1) == Width(1, 0) + StepWidth(1, 0);
    assert Width(1, 2) == Width(1, 1) + StepWidth(1, 1);
  }

  /** An accepted plan that is not sound: after its first extent the plan goes on at the start of
    * the device, in front of the first unit it was given. */
  lemma LappedPlan()
    ensures var first := U64_MAX - CHUNK_BYTES;
            && AllFit(1, first, U64_MAX, 2 * RAW_FILES)
            && StepStart(1, first, 1) == 1 && StepCount(1, 1) > 0
            && !SoundPlan(FilesAfter(1, first, 2 * RAW_FILES), 1, first, U64_MAX)
  {
    hide StepCount, SoundPlan, FilesAfter, AllFit, Width;
    var first := U64_MAX - CHUNK_BYTES;
    FirstWidths();
    assert Laps(1, first, U64_MAX, 0);
    AcceptedExactly(1, first, U64_MAX, 2 * RAW_FILES);
    WidthGrows(1, 2, 2 * RAW_FILES);
    SoundExactly(1, first, U64_MAX);
  }

  lemma FitsOneMore(unit: nat, first: nat, limit: nat, steps: nat)
    requires unit > 0
    ensures AllFit(unit, first, limit, steps + 1) <==> AllFit(unit, first, limit, steps) && StepFits(unit, first, limit, steps)
  {
    hide StepFits;
  }

  lemma {:induction false} WidthGrows(unit: nat, i: nat, j: nat)
    requires unit > 0 && i <= j
    ensures Width(unit, i) <= Width(unit, j)
    decreases j
  {
    hide StepCount;
    if i < j {
      WidthGrows(unit, i, j - 1);
    }
  }

  lemma ExtentOf(unit: nat, first: nat, step: nat)
    requires unit > 0 && step < 2 * RAW_FILES
    ensures PlanShape(FilesAfter(unit, first, 2 * RAW_FILES))
    ensures Start(FilesAfter(unit, first, 2 * RAW_FILES), step) == StepStart(unit, first, step)
    ensures Count(FilesAfter(unit, first, 2 * RAW_FILES), step) == StepCount(unit, step)
  {
    hide StepCount, StepStart, FileBytes;
    var files := FilesAfter(unit, first, 2 * RAW_FILES);
    forall f | 0 <= f < RAW_FILES
      ensures files[f] == FileAfter(unit, first, 2 * RAW_FILES, f)
    {}
    assert step == RAW_FILES * (step / RAW_FILES) + step % RAW_FILES;
  }

  lemma HalvesHold(unit: nat, file: nat)
    requires unit > 0 && file < RAW_FILES
    ensures var a, b := StepCount(unit, file), StepCount(unit, RAW_FILES + file);
            a + b == CeilDiv(FileBytes(file), unit) && (a + b >= 2 ==> a > 0 && b > 0)
  {
    hide FileBytes;
    assert (RAW_FILES + file) % RAW_FILES == file && file % RAW_FILES == file;
  }

  /** Where there is room, no step wraps around. */
  lemma RoomyCursor(unit: nat, first: nat, limit: nat, step: nat)
    requires unit > 0 && limit <= U64_MAX && step < 2 * RAW_FILES && Roomy(unit, first, limit, 2 * RAW_FILES)
    ensures StepCount(unit, step) > 0 ==>
              StepStart(unit, first, step) == first + Width(unit, step) && first + Width(unit, step + 1) - 2 <= limit
    ensures StepFits(unit, first, limit, step)
  {
    hide StepCount;
    WidthGrows(unit, step + 1, 2 * RAW_FILES);
  }

  lemma PlanIsSound(unit: nat, first: nat, limit: nat)
    requires unit > 0 && limit <= U64_MAX && Roomy(unit, first, limit, 2 * RAW_FILES)
    ensures SoundPlan(FilesAfter(unit, first, 2 * RAW_FILES), unit, first, limit)
  {
    hide StepCount, FilesAfter, FileBytes, Width, CeilDiv, Start, Count, Roomy, StepStart, StepFits;
    var files := FilesAfter(unit, first, 2 * RAW_FILES);
    ExtentOf(unit, first, 0);
    forall i | 0 <= i < 2 * RAW_FILES && Count(files, i) > 0
      ensures first <= Start(files, i) && Start(files, i) + Count(files, i) <= limit
    {
      ExtentOf(unit, first, i);
      RoomyCursor(unit, first, limit, i);
      WidthStep(unit, i);
    }
    forall i, j | 0 <= i < j < 2 * RAW_FILES && Count(files, i) > 0 && Count(files, j) > 0
      ensures Start(files, i) + Count(files, i) + 2 <= Start(files, j)
    {
      ExtentOf(unit, first, i);
      ExtentOf(unit, first, j);
      RoomyCursor(unit, first, limit, i);
      RoomyCursor(unit, first, limit, j);
      WidthGrows(unit, i + 1, j);
      WidthStep(unit, i);
    }
    forall f | 0 <= f < RAW_FILES
      ensures HoldsFile(files[f], unit, f)
    {
      RecordOf(unit, first, f);
      HalvesHold(unit, f);
      WidthGrows(unit, f + 1, RAW_FILES + f);
      WidthStep(unit, f);
      RoomyCursor(unit, first, limit, f);
      RoomyCursor(unit, first, limit, RAW_FILES + f);
    }
  }

  lemma WidthStep(unit: nat, step: nat)
    requires unit > 0
    ensures StepCount(unit, step) > 0 ==> Width(unit, step + 1) == Width(unit, step) + StepCount(unit, step) + 2
  {
    hide StepCount;
  }

  lemma RecordOf(unit: nat, first: nat, file: nat)
    requires unit > 0 && file < RAW_FILES
    ensures FilesAfter(unit, first, 2 * RAW_FILES)[file] ==
            RawFile(FileBytes(file), [StepStart(unit, first, file), StepStart(unit, first, RAW_FILES + file)],
                    [StepCount(unit, file), StepCount(unit, RAW_FILES + file)])
  {
    hide StepCount, StepStart, FileBytes;
  }
}
