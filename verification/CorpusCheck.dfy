/** The corpus verifier of test_media/test_media_raw.c: files are announced once, their bytes are
  * compared in order, and the final check asks for everything. */
module CorpusCheck {
  import opened MachineInts
  import opened CorpusPlan
  import opened CorpusWriter

  // ---------------------------------------------------------------- one check call as a function

  /** The bytes of a device range are there and equal to the file's bytes.  Nothing is read for an empty range. */
  ghost predicate Matches(image: seq<Byte>, g: Generator, file: nat, physical: nat, logical: nat, bytes: nat) {
    bytes == 0 || (physical + bytes <= |image| && image[physical..physical + bytes] == Content(g, file, logical, logical + bytes))
  }

  /** How far a comparison in buffers of 64 KiB gets before it fails. */
  ghost function Compared(image: seq<Byte>, g: Generator, file: nat, physical: nat, logical: nat, bytes: nat): (r: nat)
    ensures r <= bytes
    decreases bytes
  {
    var take := if bytes < BUFFER then bytes else BUFFER;
    if take == 0 || !Matches(image, g, file, physical, logical, take) then 0
    else take + Compared(image, g, file, physical + take, logical + take, bytes - take)
  }

  lemma MatchesSplits(image: seq<Byte>, g: Generator, file: nat, physical: nat, logical: nat, take: nat, more: nat)
    ensures Matches(image, g, file, physical, logical, take + more) <==>
            Matches(image, g, file, physical, logical, take) && Matches(image, g, file, physical + take, logical + take, more)
  {
    hide Content;
    if take > 0 && more > 0 {
      ContentSplits(g, file, logical, logical + take, logical + take + more);
      if physical + take + more <= |image| {
        var whole := image[physical..physical + take + more];
        assert whole == image[physical..physical + take] + image[physical + take..physical + take + more];
        var a, b := Content(g, file, logical, logical + take), Content(g, file, logical + take, logical + take + more);
        assert (a + b)[..take] == a && (a + b)[take..] == b;
        assert whole[..take] == image[physical..physical + take] && whole[take..] == image[physical + take..physical + take + more];
      }
    }
  }

  /** Comparing buffer by buffer gets to the end exactly when the whole range matches. */
  lemma {:induction false} ComparedAll(image: seq<Byte>, g: Generator, file: nat, physical: nat, logical: nat, bytes: nat)
    ensures Compared(image, g, file, physical, logical, bytes) == bytes <==> Matches(image, g, file, physical, logical, bytes)
    decreases bytes
  {
    hide Matches;
    var take := if bytes < BUFFER then bytes else BUFFER;
    if take == 0 {
      NothingMatches(image, g, file, physical, logical);
    } else {
      MatchesSplits(image, g, file, physical, logical, take, bytes - take);
      ComparedAll(image, g, file, physical + take, logical + take, bytes - take);
    }
  }

  lemma NothingMatches(image: seq<Byte>, g: Generator, file: nat, physical: nat, logical: nat)
    ensures Matches(image, g, file, physical, logical, 0)
  {}

  datatype Check = Check(seen: set<nat>, done: seq<nat>)

  datatype Event =
    | File(file: nat, bytes: nat)
    | Data(file: nat, physical: nat, logical: nat, bytes: nat)

  const ALL_FILES: set<nat> := set f: nat | f < RAW_FILES

  function Start0(): Check {
    Check({}, seq(RAW_FILES, i => 0))
  }

  predicate FileAccepted(c: Check, file: nat, bytes: nat) {
    file < RAW_FILES && bytes == FileBytes(file) && file !in c.seen
  }

  predicate DataInOrder(c: Check, file: nat, logical: nat, bytes: nat)
    requires |c.done| == RAW_FILES
  {
    file < RAW_FILES && logical == c.done[file] && logical <= FileBytes(file) && bytes <= FileBytes(file) - logical
  }

  predicate Finished(c: Check)
    requires |c.done| == RAW_FILES
  {
    c.seen == ALL_FILES && forall f :: 0 <= f < RAW_FILES ==> c.done[f] == FileBytes(f)
  }

  /** State after one call, whether it succeeds or not. */
  ghost function After(image: seq<Byte>, g: Generator, c: Check, e: Event): (r: Check)
    requires |c.done| == RAW_FILES
    ensures |r.done| == RAW_FILES
  {
    match e
    case File(file, bytes) => if FileAccepted(c, file, bytes) then c.(seen := c.seen + {file}) else c
    case Data(file, physical, logical, bytes) =>
      if DataInOrder(c, file, logical, bytes)
      then c.(done := c.done[file := c.done[file] + Compared(image, g, file, physical, logical, bytes)])
      else c
  }

  ghost predicate Accepted(image: seq<Byte>, g: Generator, c: Check, e: Event)
    requires |c.done| == RAW_FILES
  {
    match e
    case File(file, bytes) => FileAccepted(c, file, bytes)
    case Data(file, physical, logical, bytes) =>
      DataInOrder(c, file, logical, bytes) && Matches(image, g, file, physical, logical, bytes)
  }

  /** A run of calls that all succeed and pass the final check. */
  ghost predicate Passes(image: seq<Byte>, g: Generator, c: Check, events: seq<Event>)
    requires |c.done| == RAW_FILES
    decreases |events|
  {
    if events == [] then Finished(c)
    else Accepted(image, g, c, events[0]) && Passes(image, g, After(image, g, c, events[0]), events[1..])
  }

  // ---------------------------------------------------------------- the verifier object

  class RawCheck {
    var seen: set<nat>
    var done: seq<nat>

    ghost function State(): Check
      reads this
    {
      Check(seen, done)
    }

    constructor ()
      ensures State() == Start0()
    {
      seen := {};
      done := seq(RAW_FILES, i => 0);
    }

    method CheckFile(image: array<Byte>, g: Generator, file: nat, bytes: nat) returns (ok: bool)
      requires |done| == RAW_FILES
      modifies this
      ensures ok == Accepted(image[..], g, old(State()), File(file, bytes))
      ensures State() == After(image[..], g, old(State()), File(file, bytes))
    {
      hide FileBytes;
      if file >= RAW_FILES || bytes != FileBytes(file) || file in seen {
        return false;
      }
      seen := seen + {file};
      return true;
    }

    method CheckData(image: array<Byte>, g: Generator, file: nat, physical: nat, logical: nat, bytes: nat) returns (ok: bool)
      requires |done| == RAW_FILES
      modifies this
      ensures ok == Accepted(image[..], g, old(State()), Data(file, physical, logical, bytes))
      ensures State() == After(image[..], g, old(State()), Data(file, physical, logical, bytes))
    {
      hide FileBytes, Matches, Content, Compared;
      if file >= RAW_FILES || logical != done[file] || logical > FileBytes(file) || bytes > FileBytes(file) - logical {
        return false;
      }
      ghost var device := image[..];
      ComparedAll(device, g, file, physical, logical, bytes);
      var actual, expected := new Byte[BUFFER], new Byte[BUFFER];
      var p, l, rest := physical, logical, bytes;
      while rest != 0
        invariant 0 <= rest <= bytes && p == physical + (bytes - rest) && l == logical + (bytes - rest)
        invariant image[..] == device && seen == old(seen)
        invariant done == old(done)[file := logical + (bytes - rest)]
        invariant Compared(device, g, file, physical, logical, bytes) == bytes - rest + Compared(device, g, file, p, l, rest)
        decreases rest
      {
        var take := if rest < BUFFER then rest else BUFFER;
        var read := ReadAt(image, p, actual, take);
        if !read {
          ComparedStep(device, g, file, p, l, rest);
          return false;
        }
        Payload(g, expected, take, file, l);
        ComparedStep(device, g, file, p, l, rest);
        if actual[..take] != expected[..take] {
          return false;
        }
        p, l, rest := p + take, l + take, rest - take;
        done := done[file := done[file] + take];
      }
      return true;
    }

    method CheckFinish() returns (ok: bool)
      requires |done| == RAW_FILES
      ensures ok == Finished(State())
    {
      hide FileBytes;
      if seen != ALL_FILES {
        return false;
      }
      for file := 0 to RAW_FILES
        invariant forall f :: 0 <= f < file ==> done[f] == FileBytes(f)
      {
        if done[file] != FileBytes(file) {
          return false;
        }
      }
      return true;
    }
  }

  /** Reading from a device: refused where the device ends first. */
  method ReadAt(image: array<Byte>, offset: nat, buffer: array<Byte>, take: nat) returns (ok: bool)
    requires take <= buffer.Length && image != buffer
    modifies buffer
    ensures ok == (offset + take <= image.Length)
    ensures ok ==> buffer[..take] == image[offset..offset + take]
  {
    ok := offset + take <= image.Length;
    if ok {
      forall i | 0 <= i < take {
        buffer[i] := image[offset + i];
      }
    }
  }

  /** One buffer of a comparison. */
  lemma ComparedStep(image: seq<Byte>, g: Generator, file: nat, p: nat, l: nat, rest: nat)
    requires rest > 0
    ensures var take := if rest < BUFFER then rest else BUFFER;
            Compared(image, g, file, p, l, rest) ==
            if p + take > |image| || image[p..p + take] != Content(g, file, l, l + take) then 0
            else take + Compared(image, g, file, p + take, l + take, rest - take)
  {
    hide Content;
  }

  // ---------------------------------------------------------------- what passing means

  /** The calls about one file pass, given whether it was announced and how far it was read. */
  ghost predicate FilePasses(image: seq<Byte>, g: Generator, events: seq<Event>, f: nat, seen: bool, done: nat)
    decreases |events|
  {
    if events == [] then seen && done == FileBytes(f)
    else if events[0].file != f then FilePasses(image, g, events[1..], f, seen, done)
    else match events[0]
      case File(_, bytes) => !seen && bytes == FileBytes(f) && FilePasses(image, g, events[1..], f, true, done)
      case Data(_, physical, logical, bytes) =>
        && logical == done && done + bytes <= FileBytes(f) && Matches(image, g, f, physical, logical, bytes)
        && FilePasses(image, g, events[1..], f, seen, done + bytes)
  }

  predicate KnownFiles(events: seq<Event>) {
    forall i :: 0 <= i < |events| ==> events[i].file < RAW_FILES
  }

  ghost predicate EachFilePasses(image: seq<Byte>, g: Generator, c: Check, events: seq<Event>)
    requires |c.done| == RAW_FILES
  {
    forall f :: 0 <= f < RAW_FILES ==> FilePasses(image, g, events, f, f in c.seen, c.done[f])
  }

  /** The verdict decomposes: a run passes exactly when the calls about each file pass on their own. */
  lemma {:induction false} PassesFileByFile(image: seq<Byte>, g: Generator, c: Check, events: seq<Event>)
    requires |c.done| == RAW_FILES && c.seen <= ALL_FILES && forall f :: 0 <= f < RAW_FILES ==> c.done[f] <= FileBytes(f)
    ensures Passes(image, g, c, events) <==> KnownFiles(events) && EachFilePasses(image, g, c, events)
    decreases |events|
  {
    hide FileBytes, Matches, Compared;
    if events == [] {
      assert c.seen == ALL_FILES <==> forall f :: 0 <= f < RAW_FILES ==> f in c.seen;
    } else {
      var e, rest := events[0], events[1..];
      assert KnownFiles(events) <==> e.file < RAW_FILES && KnownFiles(rest);
      if e.file < RAW_FILES {
        if Accepted(image, g, c, e) {
          var next := After(image, g, c, e);
          if e.Data? {
            ComparedAll(image, g, e.file, e.physical, e.logical, e.bytes);
          }
          PassesFileByFile(image, g, next, rest);
          forall f | 0 <= f < RAW_FILES
            ensures FilePasses(image, g, events, f, f in c.seen, c.done[f]) <==> FilePasses(image, g, rest, f, f in next.seen, next.done[f])
          {}
        } else {
          assert !FilePasses(image, g, events, e.file, e.file in c.seen, c.done[e.file]);
        }
      }
    }
  }

  /** How often a file is announced. */
  function Announced(events: seq<Event>, f: nat): nat {
    if events == [] then 0
    else Announced(events[1..], f) + (if events[0].File? && events[0].file == f then 1 else 0)
  }

  function ReadBytes(image: seq<Byte>, physical: nat, bytes: nat): seq<Byte> {
    if physical + bytes <= |image| then image[physical..physical + bytes] else []
  }

  lemma JoinRead(image: seq<Byte>, g: Generator, f: nat, physical: nat, done: nat, bytes: nat, tail: seq<Byte>)
    requires Matches(image, g, f, physical, done, bytes)
    ensures Content(g, f, 0, done) + (ReadBytes(image, physical, bytes) + tail) == Content(g, f, 0, done + bytes) + tail
  {
    hide Content;
    ContentSplits(g, f, 0, done, done + bytes);
    var read := Content(g, f, done, done + bytes);
    assert ReadBytes(image, physical, bytes) == read;
    assert Content(g, f, 0, done) + (read + tail) == (Content(g, f, 0, done) + read) + tail;
  }

  /** The bytes that a run reads for one file, in the order of the calls. */
  function Collected(image: seq<Byte>, events: seq<Event>, f: nat): seq<Byte> {
    if events == [] then []
    else
      var e := events[0];
      (if e.Data? && e.file == f then ReadBytes(image, e.physical, e.bytes) else []) + Collected(image, events[1..], f)
  }

  lemma {:induction false} PassingAnnounces(image: seq<Byte>, g: Generator, events: seq<Event>, f: nat, seen: bool, done: nat)
    requires FilePasses(image, g, events, f, seen, done)
    ensures Announced(events, f) == if seen then 0 else 1
    decreases |events|
  {
    hide FileBytes, Matches;
    if events != [] {
      var e, rest := events[0], events[1..];
      if e.file != f {
        PassingAnnounces(image, g, rest, f, seen, done);
      } else if e.File? {
        PassingAnnounces(image, g, rest, f, true, done);
      } else {
        PassingAnnounces(image, g, rest, f, seen, done + e.bytes);
      }
    }
  }

  lemma {:induction false} PassingCollects(image: seq<Byte>, g: Generator, events: seq<Event>, f: nat, seen: bool, done: nat)
    requires FilePasses(image, g, events, f, seen, done) && done <= FileBytes(f)
    ensures Content(g, f, 0, done) + Collected(image, events, f) == Content(g, f, 0, FileBytes(f))
    decreases |events|
  {
    hide FileBytes, Content, Matches, ReadBytes;
    if events == [] {
      assert Content(g, f, 0, done) + [] == Content(g, f, 0, done);
    } else {
      var e, rest := events[0], events[1..];
      var tail := Collected(image, rest, f);
      if e.file != f || e.File? {
        assert [] + tail == tail;
        PassingCollects(image, g, rest, f, seen || e.file == f, done);
      } else {
        PassingCollects(image, g, rest, f, seen, done + e.bytes);
        JoinRead(image, g, f, e.physical, done, e.bytes, tail);
      }
    }
  }

  /** A run that passes the final check announced each file once and read each file's whole contents in order. */
  lemma PassingIsComplete(image: seq<Byte>, g: Generator, events: seq<Event>, f: nat)
    requires Passes(image, g, Start0(), events) && f < RAW_FILES
    ensures Announced(events, f) == 1
    ensures Collected(image, events, f) == Content(g, f, 0, FileBytes(f))
  {
    hide FileBytes, Passes, FilePasses, Announced, Collected;
    PassesFileByFile(image, g, Start0(), events);
    assert FilePasses(image, g, events, f, f in Start0().seen, Start0().done[f]);
    PassingAnnounces(image, g, events, f, false, 0);
    PassingCollects(image, g, events, f, false, 0);
    assert Content(g, f, 0, 0) + Collected(image, events, f) == Collected(image, events, f);
  }

  // ---------------------------------------------------------------- replaying a written plan

  /** The call asks for bytes of the file where the plan put them. */
  ghost predicate Planned(files: seq<RawFile>, unit: nat, e: Event)
    requires PlanShape(files) && e.Data? && e.file < RAW_FILES
  {
    e.bytes == 0 || PlannedIn(files, unit, e, e.file) || PlannedIn(files, unit, e, RAW_FILES + e.file)
  }

  ghost predicate PlannedIn(files: seq<RawFile>, unit: nat, e: Event, step: nat)
    requires PlanShape(files) && e.Data? && step < 2 * RAW_FILES
  {
    var base := Base(files, unit, step);
    && base <= e.logical && e.logical + e.bytes <= base + Count(files, step) * unit
    && e.physical == Start(files, step) * unit + (e.logical - base)
  }

  /** One file is announced once and read from start to end, in any pieces, where the plan put it. */
  ghost predicate FileWalk(files: seq<RawFile>, unit: nat, events: seq<Event>, f: nat, seen: bool, done: nat)
    requires PlanShape(files) && f < RAW_FILES
    decreases |events|
  {
    if events == [] then seen && done == FileBytes(f)
    else if events[0].file != f then FileWalk(files, unit, events[1..], f, seen, done)
    else match events[0]
      case File(_, bytes) => !seen && bytes == FileBytes(f) && FileWalk(files, unit, events[1..], f, true, done)
      case Data(_, physical, logical, bytes) =>
        && logical == done && done + bytes <= FileBytes(f) && Planned(files, unit, events[0])
        && FileWalk(files, unit, events[1..], f, seen, done + bytes)
  }

  /** The image holds all extents of the plan. */
  ghost predicate Written(image: seq<Byte>, g: Generator, files: seq<RawFile>, unit: nat)
    requires PlanShape(files)
  {
    forall step :: 0 <= step < 2 * RAW_FILES ==> ExtentStored(image, g, files, unit, step)
  }

  lemma PaddedIsContent(g: Generator, file: nat, bytes: nat, base: nat, upto: nat, from: nat, to: nat)
    requires base <= from <= to <= base + upto && to <= bytes
    ensures Padded(g, file, bytes, base, base + upto)[from - base..to - base] == Content(g, file, from, to)
  {
    hide PayloadByte;
    var a, b := Padded(g, file, bytes, base, base + upto)[from - base..to - base], Content(g, file, from, to);
    forall k | 0 <= k < to - from
      ensures a[k] == b[k]
    {
      var j := from - base + k;
      assert a[k] == Padded(g, file, bytes, base, base + upto)[j] == PaddedByte(g, file, bytes, base + j);
      assert base + j == from + k;
    }
  }

  lemma SliceOfSlice(s: seq<Byte>, a: nat, b: nat, from: nat, to: nat)
    requires a <= b <= |s| && from <= to <= b - a
    ensures s[a..b][from..to] == s[a + from..a + to]
  {
    var x, y := s[a..b][from..to], s[a + from..a + to];
    assert |x| == |y|;
    forall k | 0 <= k < |x|
      ensures x[k] == y[k]
    {
      assert x[k] == s[a..b][from + k] == s[a + from + k];
    }
  }

  lemma ZeroUnits(count: nat, unit: nat)
    ensures count == 0 ==> count * unit == 0
  {}

  lemma SliceMatches(image: seq<Byte>, g: Generator, file: nat, size: nat, at: nat, base: nat, upto: nat, logical: nat, bytes: nat)
    requires at + upto <= |image| && image[at..at + upto] == Padded(g, file, size, base, base + upto)
    requires base <= logical && logical + bytes <= base + upto && logical + bytes <= size
    ensures Matches(image, g, file, at + (logical - base), logical, bytes)
  {
    hide Content, Padded;
    var from := logical - base;
    PaddedIsContent(g, file, size, base, upto, logical, logical + bytes);
    SliceOfSlice(image, at, at + upto, from, from + bytes);
  }

  lemma StoredMatches(image: seq<Byte>, g: Generator, files: seq<RawFile>, unit: nat, e: Event, step: nat)
    requires PlanShape(files) && e.Data? && step < 2 * RAW_FILES && e.file == step % RAW_FILES
    requires ExtentStored(image, g, files, unit, step) && PlannedIn(files, unit, e, step)
    requires e.logical + e.bytes <= files[e.file].bytes
    ensures Matches(image, g, e.file, e.physical, e.logical, e.bytes)
  {
    hide Start, Count, Base, Padded, Matches;
    var at, base, size := Start(files, step) * unit, Base(files, unit, step), Count(files, step) * unit;
    if Count(files, step) == 0 {
      ZeroUnits(Count(files, step), unit);
      NothingMatches(image, g, e.file, e.physical, e.logical);
    } else {
      SliceMatches(image, g, e.file, files[e.file].bytes, at, base, size, e.logical, e.bytes);
    }
  }

  lemma PlannedMatches(image: seq<Byte>, g: Generator, files: seq<RawFile>, unit: nat, first: nat, limit: nat, e: Event)
    requires unit > 0 && SoundPlan(files, unit, first, limit) && Written(image, g, files, unit)
    requires e.Data? && e.file < RAW_FILES && Planned(files, unit, e) && e.logical + e.bytes <= FileBytes(e.file)
    ensures Matches(image, g, e.file, e.physical, e.logical, e.bytes)
  {
    hide Start, Count, Base, Content, ExtentsApart, FileBytes, PlannedIn, ExtentStored, Matches;
    assert HoldsFile(files[e.file], unit, e.file);
    if e.bytes == 0 {
      NothingMatches(image, g, e.file, e.physical, e.logical);
    } else if PlannedIn(files, unit, e, e.file) {
      StoredMatches(image, g, files, unit, e, e.file);
    } else {
      StoredMatches(image, g, files, unit, e, RAW_FILES + e.file);
    }
  }

  lemma {:induction false} WalkPasses(image: seq<Byte>, g: Generator, files: seq<RawFile>, unit: nat, first: nat, limit: nat,
                                      events: seq<Event>, f: nat, seen: bool, done: nat)
    requires unit > 0 && SoundPlan(files, unit, first, limit) && Written(image, g, files, unit)
    requires f < RAW_FILES && FileWalk(files, unit, events, f, seen, done)
    ensures FilePasses(image, g, events, f, seen, done)
    decreases |events|
  {
    hide FileBytes, Planned, Matches, ExtentsApart, HoldsFile, Written;
    if events != [] {
      var e, rest := events[0], events[1..];
      if e.file != f {
        WalkPasses(image, g, files, unit, first, limit, rest, f, seen, done);
      } else if e.File? {
        WalkPasses(image, g, files, unit, first, limit, rest, f, true, done);
      } else {
        PlannedMatches(image, g, files, unit, first, limit, e);
        WalkPasses(image, g, files, unit, first, limit, rest, f, seen, done + e.bytes);
      }
    }
  }

  /** Checking a written plan passes, whatever the pieces and however the files are interleaved. */
  lemma ReplayPasses(image: seq<Byte>, g: Generator, files: seq<RawFile>, unit: nat, first: nat, limit: nat, events: seq<Event>)
    requires unit > 0 && SoundPlan(files, unit, first, limit) && Written(image, g, files, unit)
    requires KnownFiles(events) && forall f :: 0 <= f < RAW_FILES ==> FileWalk(files, unit, events, f, false, 0)
    ensures Passes(image, g, Start0(), events)
  {
    hide FileBytes, FileWalk, FilePasses, Passes, ExtentsApart, HoldsFile, Written;
    forall f | 0 <= f < RAW_FILES
      ensures FilePasses(image, g, events, f, false, 0)
    {
      WalkPasses(image, g, files, unit, first, limit, events, f, false, 0);
    }
    PassesFileByFile(image, g, Start0(), events);
  }

  /** Reads back one extent as far as the file reaches into it. */
  method ReplayExtent(g: Generator, image: array<Byte>, check: RawCheck, files: seq<RawFile>, unit: nat,
                      ghost first: nat, ghost limit: nat, file: nat, part: nat, logical: nat)
    returns (ok: bool, next: nat)
    requires unit > 0 && SoundPlan(files, unit, first, limit) && Written(image[..], g, files, unit)
    requires file < RAW_FILES && part < 2 && |check.done| == RAW_FILES && check.done[file] == logical
    requires logical == Min(FileBytes(file), Base(files, unit, RAW_FILES * part + file))
    modifies check
    ensures ok && next == Min(FileBytes(file), Base(files, unit, RAW_FILES * part + file) + files[file].count[part] * unit)
    ensures check.seen == old(check.seen) && check.done == old(check.done)[file := next]
  {
    hide FileBytes, ExtentsApart, HoldsFile, Written, Matches, Compared, Base, Start, Count, PlannedIn;
    ghost var step := RAW_FILES * part + file;
    var bytes := Min(FileBytes(file) - logical, files[file].count[part] * unit);
    next := logical + bytes;
    ghost var e := Data(file, files[file].start[part] * unit, logical, bytes);
    ExtentPlanned(files, unit, e, file, part);
    PlannedMatches(image[..], g, files, unit, first, limit, e);
    ComparedAll(image[..], g, file, e.physical, logical, bytes);
    ok := check.CheckData(image, g, file, files[file].start[part] * unit, logical, bytes);
  }

  lemma ExtentPlanned(files: seq<RawFile>, unit: nat, e: Event, file: nat, part: nat)
    requires PlanShape(files) && file < RAW_FILES && part < 2 && e.Data? && e.file == file
    requires e.physical == files[file].start[part] * unit && e.bytes <= files[file].count[part] * unit
    requires e.bytes > 0 ==> e.logical == Base(files, unit, RAW_FILES * part + file)
    ensures Planned(files, unit, e)
  {
    hide Base;
    StepOf(files, unit, file, part);
  }

  /** Announces and reads back every file of a written plan: the verifier accepts it. */
  method Replay(g: Generator, image: array<Byte>, plan: RawPlan, ghost first: nat, ghost limit: nat) returns (ok: bool)
    requires plan.unit > 0 && SoundPlan(plan.files, plan.unit, first, limit) && Written(image[..], g, plan.files, plan.unit)
    ensures ok
  {
    hide FileBytes, ExtentsApart, HoldsFile, Written;
    var files, unit := plan.files, plan.unit;
    var check := new RawCheck();
    for file := 0 to RAW_FILES
      invariant |check.done| == RAW_FILES && fresh(check)
      invariant forall f :: f in check.seen <==> 0 <= f < file
      invariant forall f :: 0 <= f < file ==> check.done[f] == FileBytes(f)
      invariant forall f :: file <= f < RAW_FILES ==> check.done[f] == 0
    {
      FileCovered(files, unit, file);
      ok := check.CheckFile(image, g, file, files[file].bytes);
      if !ok {
        return;
      }
      var logical;
      ok, logical := ReplayExtent(g, image, check, files, unit, first, limit, file, 0, 0);
      if !ok {
        return;
      }
      ok, logical := ReplayExtent(g, image, check, files, unit, first, limit, file, 1, logical);
      if !ok {
        return;
      }
    }
    ok := check.CheckFinish();
  }

  /** The two extents together are at least as long as the file. */
  lemma FileCovered(files: seq<RawFile>, unit: nat, file: nat)
    requires unit > 0 && PlanShape(files) && file < RAW_FILES && HoldsFile(files[file], unit, file)
    ensures files[file].bytes == FileBytes(file) <= Base(files, unit, RAW_FILES + file) + files[file].count[1] * unit
  {
    hide FileBytes;
    CeilDivLeast(FileBytes(file), unit);
  }
}
