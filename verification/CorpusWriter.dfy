/** The payload oracle and the writer of test_media/test_media_raw.c.
  *
  * The generator is opaque: any start state for a page, any state update, any byte of a state. */
module CorpusWriter {
  import opened MachineInts
  import opened CorpusPlan

  type Byte = x: int | 0 <= x < 256

  const PAGE: nat := 4096
  const BUFFER: nat := 65536

  datatype Generator = Generator(seed: (nat, nat) -> U64, next: U64 -> U64, emit: U64 -> Byte)

  /** The state after n updates. */
  function Advance(g: Generator, state: U64, n: nat): U64 {
    if n == 0 then state else g.next(Advance(g, state, n - 1))
  }

  /** The byte of a file at one logical offset: its page's stream, restarted at the page. */
  function PayloadByte(g: Generator, file: nat, logical: nat): Byte {
    g.emit(Advance(g, g.seed(file, logical / PAGE), logical % PAGE + 1))
  }

  /** Contents of a file in [from, to). */
  function Content(g: Generator, file: nat, from: nat, to: nat): (r: seq<Byte>)
    requires from <= to
    ensures |r| == to - from
  {
    seq<Byte>(to - from, k requires 0 <= k < to - from => PayloadByte(g, file, from + k))
  }

  /** Reading in two chunks or in one gives the same bytes. */
  lemma ContentSplits(g: Generator, file: nat, from: nat, mid: nat, to: nat)
    requires from <= mid <= to
    ensures Content(g, file, from, to) == Content(g, file, from, mid) + Content(g, file, mid, to)
  {
    hide PayloadByte;
    var whole, parts := Content(g, file, from, to), Content(g, file, from, mid) + Content(g, file, mid, to);
    forall k | 0 <= k < to - from
      ensures whole[k] == parts[k]
    {}
  }

  /** Writes the bytes of [logical, logical + bytes) of a file to the start of data, page by page. */
  method Payload(g: Generator, data: array<Byte>, bytes: nat, file: nat, logical: nat)
    requires bytes <= data.Length
    modifies data
    ensures data[..] == Content(g, file, logical, logical + bytes) + old(data[..])[bytes..]
  {
    hide PayloadByte;
    var done := 0;
    while done < bytes
      invariant 0 <= done <= bytes
      invariant forall k :: 0 <= k < done ==> data[k] == PayloadByte(g, file, logical + k)
      invariant forall k :: bytes <= k < data.Length ==> data[k] == old(data[k])
    {
      var at := logical + done;
      var within := at % PAGE;
      var take := Min(PAGE - within, bytes - done);
      var state := g.seed(file, at / PAGE);
      ghost var page := state;
      for index := 0 to within + take
        invariant state == Advance(g, page, index)
        invariant forall k :: 0 <= k < done ==> data[k] == PayloadByte(g, file, logical + k)
        invariant forall k :: done <= k < done + index - within ==> data[k] == PayloadByte(g, file, logical + k)
        invariant forall k :: bytes <= k < data.Length ==> data[k] == old(data[k])
      {
        state := g.next(state);
        if index >= within {
          SamePage(g, file, at, index);
          assert at - within + index == logical + (done + index - within);
          data[done + index - within] := g.emit(state);
        }
      }
      done := done + take;
    }
  }

  lemma SamePage(g: Generator, file: nat, at: nat, index: nat)
    requires at % PAGE <= index < PAGE
    ensures PayloadByte(g, file, at - at % PAGE + index) == g.emit(g.next(Advance(g, g.seed(file, at / PAGE), index)))
  {
    DivModUnique(at - at % PAGE + index, PAGE, at / PAGE, index);
  }

  // ---------------------------------------------------------------- the writer

  function PaddedByte(g: Generator, file: nat, bytes: nat, logical: nat): Byte {
    if logical < bytes then PayloadByte(g, file, logical) else 0
  }

  /** What an extent stores at [from, to) of its file: payload, then zeros behind the end of the file. */
  function Padded(g: Generator, file: nat, bytes: nat, from: nat, to: nat): (r: seq<Byte>)
    requires from <= to
    ensures |r| == to - from
  {
    seq<Byte>(to - from, k requires 0 <= k < to - from => PaddedByte(g, file, bytes, from + k))
  }

  lemma PaddedSplits(g: Generator, file: nat, bytes: nat, from: nat, mid: nat, to: nat)
    requires from <= mid <= to
    ensures Padded(g, file, bytes, from, to) == Padded(g, file, bytes, from, mid) + Padded(g, file, bytes, mid, to)
  {
    hide PaddedByte;
    var whole, parts := Padded(g, file, bytes, from, to), Padded(g, file, bytes, from, mid) + Padded(g, file, bytes, mid, to);
    forall k | 0 <= k < to - from
      ensures whole[k] == parts[k]
    {}
  }

  /** Writing to a device: replaces a stretch of it; refused where the device ends first. */
  method WriteAt(image: array<Byte>, offset: nat, buffer: array<Byte>, take: nat) returns (ok: bool)
    requires take <= buffer.Length && image != buffer
    modifies image
    ensures ok == (offset + take <= image.Length)
    ensures image[..] == if ok then old(image[..])[..offset] + buffer[..take] + old(image[..])[offset + take..] else old(image[..])
  {
    ok := offset + take <= image.Length;
    if ok {
      forall i | 0 <= i < take {
        image[offset + i] := buffer[i];
      }
    }
  }

  /** One buffer: zeros, then as much payload as the file still has. */
  method FillBuffer(g: Generator, buffer: array<Byte>, take: nat, file: nat, bytes: nat, logical: nat)
    requires take <= buffer.Length
    modifies buffer
    ensures buffer[..take] == Padded(g, file, bytes, logical, logical + take)
  {
    hide PayloadByte;
    forall i | 0 <= i < take {
      buffer[i] := 0;
    }
    var available := if logical < bytes then bytes - logical else 0;
    ghost var zeros := buffer[..];
    var filled := Min(available, take);
    Payload(g, buffer, filled, file, logical);
    forall k | 0 <= k < take
      ensures buffer[..take][k] == PaddedByte(g, file, bytes, logical + k)
    {
      assert buffer[..][k] == (if k < filled then PayloadByte(g, file, logical + k) else zeros[filled..][k - filled]);
    }
  }

  /** File offset at which an extent starts. */
  function Base(files: seq<RawFile>, unit: nat, step: nat): nat
    requires PlanShape(files) && step < 2 * RAW_FILES
  {
    if step < RAW_FILES then 0 else files[step - RAW_FILES].count[0] * unit
  }

  /** The first upto bytes of an extent are on the image. */
  ghost predicate Stored(image: seq<Byte>, g: Generator, files: seq<RawFile>, unit: nat, step: nat, upto: nat)
    requires PlanShape(files) && step < 2 * RAW_FILES
  {
    var at, base, f := Start(files, step) * unit, Base(files, unit, step), step % RAW_FILES;
    && at + upto <= |image|
    && image[at..at + upto] == Padded(g, f, files[f].bytes, base, base + upto)
  }

  ghost predicate ExtentStored(image: seq<Byte>, g: Generator, files: seq<RawFile>, unit: nat, step: nat)
    requires PlanShape(files) && step < 2 * RAW_FILES
  {
    Count(files, step) == 0 || Stored(image, g, files, unit, step, Count(files, step) * unit)
  }

  predicate InExtent(files: seq<RawFile>, unit: nat, step: nat, i: nat)
    requires PlanShape(files) && step < 2 * RAW_FILES
  {
    Start(files, step) * unit <= i < Start(files, step) * unit + Count(files, step) * unit
  }

  ghost predicate Outside(files: seq<RawFile>, unit: nat, i: nat)
    requires PlanShape(files)
  {
    forall step :: 0 <= step < 2 * RAW_FILES ==> !InExtent(files, unit, step, i)
  }

  ghost predicate OutsideKept(before: seq<Byte>, after: seq<Byte>, files: seq<RawFile>, unit: nat)
    requires PlanShape(files)
  {
    |before| == |after| && forall i :: 0 <= i < |before| && Outside(files, unit, i) ==> after[i] == before[i]
  }

  /** Place of an extent in the writer's order: file by file, first half before second. */
  function Position(step: nat): nat {
    2 * (step % RAW_FILES) + step / RAW_FILES
  }

  ghost predicate EarlierStored(image: seq<Byte>, g: Generator, files: seq<RawFile>, unit: nat, position: nat)
    requires PlanShape(files)
  {
    forall s :: 0 <= s < 2 * RAW_FILES && Position(s) < position ==> ExtentStored(image, g, files, unit, s)
  }

  /** Two different extents of a sound plan share no byte. */
  lemma BytesApart(files: seq<RawFile>, unit: nat, first: nat, limit: nat, s: nat, t: nat)
    requires unit > 0 && SoundPlan(files, unit, first, limit) && s < 2 * RAW_FILES && t < 2 * RAW_FILES && s != t
    requires Count(files, s) > 0 && Count(files, t) > 0
    ensures || Start(files, s) * unit + Count(files, s) * unit <= Start(files, t) * unit
            || Start(files, t) * unit + Count(files, t) * unit <= Start(files, s) * unit
  {
    hide Start, Count, HoldsFile;
    if s < t {
      MulMonotone(Start(files, s) + Count(files, s), Start(files, t), unit);
    } else {
      MulMonotone(Start(files, t) + Count(files, t), Start(files, s), unit);
    }
  }

  lemma ExtentFits(files: seq<RawFile>, unit: nat, first: nat, limit: nat, s: nat, size: nat)
    requires unit > 0 && SoundPlan(files, unit, first, limit) && limit * unit <= size && s < 2 * RAW_FILES && Count(files, s) > 0
    ensures Start(files, s) * unit + Count(files, s) * unit <= size
  {
    hide Start, Count, HoldsFile;
    MulMonotone(Start(files, s) + Count(files, s), limit, unit);
  }

  lemma SliceKept(image: seq<Byte>, p: nat, data: seq<Byte>, a: nat, b: nat)
    requires p + |data| <= |image| && a <= b <= |image| && (b <= p || p + |data| <= a)
    ensures (image[..p] + data + image[p + |data|..])[a..b] == image[a..b]
  {}

  /** One buffer written to an extent: it grows, all others and the rest of the device stay. */
  lemma ChunkStored(image: seq<Byte>, g: Generator, files: seq<RawFile>, unit: nat, first: nat, limit: nat, step: nat, upto: nat, take: nat)
    requires unit > 0 && SoundPlan(files, unit, first, limit) && limit * unit <= |image| && step < 2 * RAW_FILES
    requires Stored(image, g, files, unit, step, upto) && upto + take <= Count(files, step) * unit && take > 0
    ensures var at, base, f := Start(files, step) * unit + upto, Base(files, unit, step) + upto, step % RAW_FILES;
            && at + take <= |image|
            && var after := image[..at] + Padded(g, f, files[f].bytes, base, base + take) + image[at + take..];
            && |after| == |image|
            && Stored(after, g, files, unit, step, upto + take)
            && OutsideKept(image, after, files, unit)
            && (EarlierStored(image, g, files, unit, Position(step)) ==> EarlierStored(after, g, files, unit, Position(step)))
  {
    hide Start, Count, HoldsFile, ExtentsApart, Padded, Base;
    ExtentFits(files, unit, first, limit, step, |image|);
    var f := step % RAW_FILES;
    var start, base := Start(files, step) * unit, Base(files, unit, step);
    var at := start + upto;
    var data := Padded(g, f, files[f].bytes, base + upto, base + upto + take);
    var after := image[..at] + data + image[at + take..];
    PaddedSplits(g, f, files[f].bytes, base, base + upto, base + upto + take);
    assert after[start..at + take] == image[start..at] + data;
    forall i | 0 <= i < |image| && Outside(files, unit, i)
      ensures after[i] == image[i]
    {
      assert !InExtent(files, unit, step, i);
    }
    forall s | 0 <= s < 2 * RAW_FILES && Position(s) < Position(step) && ExtentStored(image, g, files, unit, s)
      ensures ExtentStored(after, g, files, unit, s)
    {
      var a, b := Start(files, s) * unit, Start(files, s) * unit + Count(files, s) * unit;
      if Count(files, s) > 0 {
        BytesApart(files, unit, first, limit, s, step);
        SliceKept(image, at, data, a, b);
      }
    }
  }

  lemma NothingStored(image: seq<Byte>, g: Generator, files: seq<RawFile>, unit: nat)
    requires PlanShape(files)
    ensures EarlierStored(image, g, files, unit, 0) && OutsideKept(image, image, files, unit)
  {}

  lemma OneMoreStored(image: seq<Byte>, g: Generator, files: seq<RawFile>, unit: nat, step: nat)
    requires PlanShape(files) && step < 2 * RAW_FILES
    requires EarlierStored(image, g, files, unit, Position(step)) && ExtentStored(image, g, files, unit, step)
    ensures EarlierStored(image, g, files, unit, Position(step) + 1)
  {
    hide ExtentStored;
    forall s | 0 <= s < 2 * RAW_FILES && Position(s) < Position(step) + 1
      ensures ExtentStored(image, g, files, unit, s)
    {
      assert s == RAW_FILES * (s / RAW_FILES) + s % RAW_FILES && step == RAW_FILES * (step / RAW_FILES) + step % RAW_FILES;
      assert Position(s) < Position(step) || s == step;
    }
  }

  lemma StoredNothing(image: seq<Byte>, g: Generator, files: seq<RawFile>, unit: nat, first: nat, limit: nat, step: nat)
    requires unit > 0 && SoundPlan(files, unit, first, limit) && limit * unit <= |image| && step < 2 * RAW_FILES && Count(files, step) > 0
    ensures Stored(image, g, files, unit, step, 0)
  {
    hide Start, Count, ExtentsApart, HoldsFile;
    ExtentFits(files, unit, first, limit, step, |image|);
  }

  lemma OutsideTrans(a: seq<Byte>, b: seq<Byte>, c: seq<Byte>, files: seq<RawFile>, unit: nat)
    requires PlanShape(files) && OutsideKept(a, b, files, unit) && OutsideKept(b, c, files, unit)
    ensures OutsideKept(a, c, files, unit)
  {
    hide Outside;
  }

  /** Writes one extent, 64 KiB at a time. */
  method WriteExtent(g: Generator, image: array<Byte>, buffer: array<Byte>, files: seq<RawFile>, unit: nat,
                     ghost first: nat, ghost limit: nat, file: nat, part: nat, start: nat)
    returns (ok: bool, logical: nat)
    requires unit > 0 && SoundPlan(files, unit, first, limit) && limit * unit <= image.Length
    requires file < RAW_FILES && part < 2 && start == Base(files, unit, RAW_FILES * part + file)
    requires image != buffer && buffer.Length == BUFFER
    requires EarlierStored(image[..], g, files, unit, 2 * file + part)
    modifies image, buffer
    ensures ok && logical == start + files[file].count[part] * unit
    ensures EarlierStored(image[..], g, files, unit, 2 * file + part + 1)
    ensures OutsideKept(old(image[..]), image[..], files, unit)
  {
    hide ExtentsApart, HoldsFile, Padded, Stored, OutsideKept, EarlierStored, Start, Count, Base;
    ghost var step := RAW_FILES * part + file;
    StepOf(files, unit, file, part);
    var remaining := files[file].count[part] * unit;
    var physical := files[file].start[part] * unit;
    ghost var at, size, upto := physical, remaining, 0;
    logical := start;
    NothingStored(image[..], g, files, unit);
    if size == 0 {
      EmptyStored(image[..], g, files, unit, step);
    } else {
      StoredNothing(image[..], g, files, unit, first, limit, step);
    }
    while remaining != 0
      invariant 0 <= upto && 0 <= remaining && remaining == size - upto && logical == start + upto && physical == at + upto
      invariant EarlierStored(image[..], g, files, unit, 2 * file + part)
      invariant size == 0 || Stored(image[..], g, files, unit, step, upto)
      invariant OutsideKept(old(image[..]), image[..], files, unit)
      decreases remaining
    {
      var take := Min(remaining, BUFFER);
      ghost var before := image[..];
      ChunkStored(before, g, files, unit, first, limit, step, upto, take);
      FillBuffer(g, buffer, take, file, files[file].bytes, logical);
      ok := WriteAt(image, physical, buffer, take);
      if !ok {
        return false, logical;
      }
      OutsideTrans(old(image[..]), before, image[..], files, unit);
      logical := logical + take;
      physical := physical + take;
      remaining := remaining - take;
      upto := upto + take;
    }
    OneMoreStored(image[..], g, files, unit, step);
    ok := true;
  }

  lemma StepOf(files: seq<RawFile>, unit: nat, file: nat, part: nat)
    requires PlanShape(files) && file < RAW_FILES && part < 2
    ensures var step := RAW_FILES * part + file;
            && step % RAW_FILES == file && step < 2 * RAW_FILES && Position(step) == 2 * file + part
            && Start(files, step) == files[file].start[part] && Count(files, step) == files[file].count[part]
  {}

  lemma EmptyStored(image: seq<Byte>, g: Generator, files: seq<RawFile>, unit: nat, step: nat)
    requires PlanShape(files) && step < 2 * RAW_FILES && Count(files, step) * unit == 0 && unit > 0
    ensures ExtentStored(image, g, files, unit, step)
  {
    MulMonotone(1, unit, Count(files, step));
  }

  /** Writes every file of the plan to its extents. */
  method WritePayload(g: Generator, image: array<Byte>, plan: RawPlan, ghost first: nat, ghost limit: nat) returns (ok: bool)
    requires plan.unit > 0 && SoundPlan(plan.files, plan.unit, first, limit) && limit * plan.unit <= image.Length
    modifies image
    ensures ok
    ensures forall step :: 0 <= step < 2 * RAW_FILES ==> ExtentStored(image[..], g, plan.files, plan.unit, step)
    ensures OutsideKept(old(image[..]), image[..], plan.files, plan.unit)
  {
    hide ExtentsApart, HoldsFile, OutsideKept, ExtentStored;
    var files, unit := plan.files, plan.unit;
    var buffer := new Byte[BUFFER];
    NothingStored(image[..], g, files, unit);
    for file := 0 to RAW_FILES
      invariant EarlierStored(image[..], g, files, unit, 2 * file)
      invariant OutsideKept(old(image[..]), image[..], files, unit)
    {
      var logical := 0;
      for part := 0 to 2
        invariant part < 2 ==> logical == Base(files, unit, RAW_FILES * part + file)
        invariant EarlierStored(image[..], g, files, unit, 2 * file + part)
        invariant OutsideKept(old(image[..]), image[..], files, unit)
      {
        ghost var before := image[..];
        ok, logical := WriteExtent(g, image, buffer, files, unit, first, limit, file, part, logical);
        OutsideTrans(old(image[..]), before, image[..], files, unit);
        if !ok {
          return false;
        }
      }
    }
    return true;
  }
}
