# Defragmenter: a verified model

Dafny models of the algorithmic cores of the defragmenter, with proofs of what these cores
promise. Each module follows one source file or one part of it. Code that works by updating
state step by step is a method with loops, an array algorithm or a class, proved against a
specification; what the specification promises is proved in lemmas beside it. A C++ exception
or an error return is a value (`None`, a status or `false`).

| modules | what they model |
|---|---|
| `GenericLayout` | the layout planner: contiguous packing, and splitting one file over free ranges |
| `RangeAlgebra`, `AllocationMap`, `FreeListMap` | merging, complementing, bucketing and overlaying unit ranges, and the checks of produced maps |
| `LiveMap`, `LiveReset` | range moves, cell updates and resets on the summarised cells, through sparse staged patches |
| `StopProtocol`, `StopDuties` | the privileged helper as a step machine of three threads and a child process, and what each thread has to do next |
| `JsonStandard`, `JsonNumbers`, `JsonText`, `JsonGrammar`, `JsonRoundTrip`, `JsonParser` | the JSON parser and printer, against the grammar of RFC 8259 (sections 2, 4, 5, 6 and 7) and the UTF-8 of RFC 3629 |
| `DeviceTopology` | the closure of related block devices over an abstract graph |
| `CorpusPlan`, `CorpusWriter`, `CorpusCheck` | the test corpus: extent plan, payload writer and in-order verifier |
| `Raster` | cells to pixels, and the figures in the caption of the map |
| `Paths`, `HandOff` | the command the desktop builds and the validator of the helper |
| `MachineInts`, `Units`, `Sorting`, `Wrappers` | fixed-width integers, counting units, sorting, options |

The common yardstick of the map modules is the per-unit disk: a set of units for each state,
and `Units.Count`, the number of units of a set in an interval. Fixed-width arithmetic is done
on mathematical integers with every stored value checked to be representable, so a method that
verifies never wraps around; where the source can wrap, `MachineInts.Wrap` says so.

`StopProtocol` makes one atomic step of each critical section under `active_mutex_`, each
signal and each emitted event. `Helper` holds the guarded fields, and `StopProtocol.Execute` drives
its critical sections through any schedule and is proved to follow the step machine. A log records
what happened; the invariant ties the guarded fields, the position of each thread and the log
together. Process ids are fresh. `StopDuties` states on runs alone, without the threads' positions,
which steps a thread can go on with and what they add to the log.

## Where the code does something else than one may expect

- Topology: a device that becomes exact after its turn is not revisited, although the comment in
  `ld_device.c` asks for the child partitions of every device that maps the range.
  `DeviceTopology.Intended` is the closure that the comment asks for. The list is that closure
  exactly when the children of late devices are in it anyway (`DeviceTopology.ListIsIntended`);
  a condition on the graph under which no device is late is `DeviceTopology.TimelyGraph`
  (`DeviceTopology.TimelyIsComplete`), and `DeviceTopology.OwnDiskExpansion` decides the case of
  the disk around the target. `DeviceTopology.CollectStacked` collects a graph on which a
  partition is missing.
- JSON: a string is printed only up to its first NUL byte, and `\u0000` is parsed, so not every
  parsed document can be printed and parsed again. `JsonRoundTrip.DocumentRoundTrip` gives the
  exact condition.
- JSON: the parser refuses escapes of unpaired surrogates, which the grammar of RFC 8259 leaves
  open, repeated keys, and nesting beyond 64; `JsonGrammar.DocumentIsGrammar` says that it refuses
  nothing else.
- Live reset: an empty used range that does not start on a unit boundary marks the unit it points
  into; no other range marks anything but the units it covers (`LiveReset.MarksExactly`).
- Live cells: a cell event checks the updated cells and their neighbours only. From ordered cells
  that is enough; otherwise the result is ordered exactly when the rest is
  (`LiveMap.PatchedOrder`).
- Corpus plan: the cursor is advanced without a check. Within two units of 2^64 it wraps around,
  and the plan is accepted although its later extents lie in front of the first unit
  (`CorpusPlan.LappedPlan`); `CorpusPlan.SoundExactly` gives the exact condition.
- EXT maps: overlaying metadata as `bad` breaks the rule that counters add up to the span in every
  cell that holds both a used and a metadata unit (`FreeListMap.MetadataMapKeepsRules`); where
  metadata is never free, any metadata at all does so (`FreeListMap.AllocatedMetadataBreaksRules`).
- Stop watchdog: a second Stop moves the deadline field, but a wait that has begun keeps its own
  deadline. An expiry comes the grace period after every arming made before the wait began; that it
  does so for the latest arming holds exactly when it holds for those made during the wait
  (`StopProtocol.ExpiryRespectsLatest`). `StopProtocol.SecondStopDoesNotExtend` is a run in which
  it does not, and `StopProtocol.EarlyExpiryExact` says from which states that can happen.
- Map picture: the sums of a window wrap around at 2^64 (`Raster.PictureConserves`).
- Map caption: if one pixel shows all 2^64 units, its span wraps to 0 (`Raster.SpansAddUp`).

## Model

| member | source | states |
|---|---|---|
| GenericLayout.ReserveUnits | defragger/src/core/ld_generic_layout.c:10-20 | Succeeds exactly when the rounded-up percentage is representable in 64 bits, and then returns it, although units × percent may not be representable. |
| GenericLayout.ReserveLeast | defragger/src/core/ld_generic_layout.c:10-20 | The reserve is the least number of units that is at least the percentage. |
| GenericLayout.AlignUpLeast | defragger/src/core/ld_generic_layout.c:40-45 | The padded start is the least multiple of the alignment at or after the cursor. |
| GenericLayout.PackingIsEarliest | defragger/src/core/ld_generic_layout.c:24-66 | No feasible in-order layout, however it is chosen, starts any object before early packing does. |
| GenericLayout.FeasibleIffPackingFits | defragger/src/core/ld_generic_layout.c:24-82 | Some in-order aligned layout with rounded-up reserves fits exactly when early packing ends within the limit. |
| GenericLayout.VerdictExact | defragger/src/core/ld_generic_layout.c:24-82 | The pass succeeds exactly for well-formed unflagged inventories whose packing fits; for these the only other verdict is NO_SPACE. |
| GenericLayout.LayoutPass | defragger/src/core/ld_generic_layout.c:24-66 | The verdict of the first offending object; placements are written only when an output is given, and nothing behind them. |
| GenericLayout.Plan | defragger/src/core/ld_generic_layout.c:68-82 | Succeeds exactly when the inventory is well formed and unflagged and any layout exists; a well-formed inventory is never invalid and an unflagged one never unsupported; on success every start is pointwise least among all layouts, with the right ids, units and reserves; a failure writes nothing. |
| GenericLayout.CheckFreeRanges | defragger/src/core/ld_generic_layout.c:87-99 | Accepts exactly non-empty, ascending, disjoint ranges with representable ends. |
| GenericLayout.UsableRange | defragger/src/core/ld_generic_layout.c:101-114 | First aligned unit and the units left behind it, without wrap-around. |
| GenericLayout.TakeFrom | defragger/src/core/ld_generic_layout.c:147-159 | What the split takes from a range: all of it, but never the last unit of the file unless the reserve fits too. |
| GenericLayout.PlanIsBounded | defragger/src/core/ld_generic_layout.c:118-174 | In any valid plan the extents up to one in a range hold no more units than the usable capacity up to their end: the counting argument behind completeness. |
| GenericLayout.ValidPlanCanEnd | defragger/src/core/ld_generic_layout.c:118-174 | Wherever any valid plan ends, there is room for one unit plus the reserve, and for the file plus the reserve up to that range. |
| GenericLayout.SplitExact | defragger/src/core/ld_generic_layout.c:140-174 | The greedy split from any range on is a valid plan ending in the earliest range in which the file can end, and fails exactly when there is none; units taken so far are min(units − 1, capacity so far). |
| GenericLayout.SinglePlanFits | defragger/src/core/ld_generic_layout.c:124-138 | A plan in one extent exists only if the first large enough range exists, and starts no earlier than there. |
| GenericLayout.ChosenPlanIsBest | defragger/src/core/ld_generic_layout.c:118-174 | The chosen plan is a single extent as early as possible if any fits, otherwise no valid plan ends in an earlier range; no choice means no valid plan at all. |
| GenericLayout.SplitFile | defragger/src/core/ld_generic_layout.c:140-174 | The loop computes the specified split, with the outputs written in order and the rest of the array untouched. |
| GenericLayout.PreflightThenWrite | defragger/src/core/ld_generic_layout.c:199-211 | The second pass cannot fail or disagree after the first; a failure leaves the outputs and the count as they were. |
| GenericLayout.PlanFileExtents | defragger/src/core/ld_generic_layout.c:176-211 | Sound arguments, written out, are never refused: they are unsupported exactly when flagged, invalid exactly when unflagged with uncertified ranges, and otherwise planned; NO_SPACE then means that no valid plan exists, and success delivers a best plan with reserve only on the last extent; unsound arguments are invalid; every outcome but success writes nothing. |
| RangeAlgebra.NormalFormUnique | defragger/native/map.cpp:755-771 | A set of units has at most one sorted list of ranges with gaps of at least one. |
| RangeAlgebra.MergeRanges | defragger/native/map.cpp:755-771 | The result is a normal form and covers exactly the units of the input; empty ranges vanish. |
| RangeAlgebra.MergeIsCanonical | defragger/native/map.cpp:755-771 | Two inputs merge to the same list exactly when they cover the same units. |
| RangeAlgebra.ComplementRanges | defragger/native/map.cpp:773-787 | A normal form of exactly the units of [0, total) that the input leaves out. |
| RangeAlgebra.ComplementTwice | defragger/native/map.cpp:773-787 | Complementing twice clamps to [0, total) and normalises. |
| AllocationMap.BoundaryExact | defragger/native/map.cpp:26-34 | The two-part cell boundary equals index × total / count in exact arithmetic. |
| AllocationMap.BoundaryFits | defragger/native/map.cpp:26-34 | No intermediate value of the boundary exceeds 64 bits for up to 2^32 cells. |
| AllocationMap.BoundaryFitsExactly | defragger/native/map.cpp:26-34 | For more than 2^32 cells there is a total for which the product of the boundary computation does not fit 64 bits. |
| AllocationMap.BoundaryWidth | defragger/native/map.cpp:26-34 | Cell widths differ by at most one. |
| AllocationMap.PermutationKeepsDisk | defragger/native/map.cpp:806-827 | Sorting changes neither the state of any unit nor the reasons for rejection. |
| AllocationMap.OrderRanges | defragger/native/map.cpp:806-827 | Rejects exactly overlapping non-empty clamped ranges and states above 3; otherwise the per-unit disk is kept. |
| AllocationMap.TallyCell | defragger/native/map.cpp:839-862 | The sweep of one cell counts, state by state, the units of the cell; uncovered units are unknown. |
| AllocationMap.AggregateRanges | defragger/native/map.cpp:789-902 | Rejects exactly zero totals, overlaps, unsupported states and overflowing capacity; else there are as many cells as asked for, but at least one and none without a unit; they are adjacent, cover [0, total), and each counter is the number of units in that state. |
| AllocationMap.OverlapOf | defragger/native/map.cpp:914-928 | The sweep returns exactly the covered units of the cell, and a starting point that is safe for the next cell. |
| AllocationMap.OverlayRanges | defragger/native/map.cpp:904-935 | Each field becomes min(used, covered units of the cell); the returned total is the number of covered units. |
| FreeListMap.ValidateCells | defragger/native/map.cpp:680-720 | Decides the native cell rules: contiguous cells, and counters that add up to the span. |
| FreeListMap.CountersAddUp | defragger/native/map.cpp:704-713 | The guarded comparison decides the sum of the counters in unbounded arithmetic, although every partial sum is held in 64 bits. |
| FreeListMap.ValidateFatCells | defragger/native/map.cpp:433-468 | Decides the FAT cell rules, with cells from unit 2 on and totals that match the declared geometry. |
| FreeListMap.PairRanges | defragger/native/map.cpp:163-193 | Succeeds exactly when the list is readable, and returns its ranges. |
| FreeListMap.FreeListDisk | defragger/native/map.cpp:246-271 | A free list and its complement describe a disk without unknown or bad units. |
| FreeListMap.FreeListOverlap | defragger/native/map.cpp:246-271 | Adding the complement introduces no overlap, so rejection means that the free list itself shares a unit. |
| FreeListMap.GenericFreeRangeMap | defragger/native/map.cpp:246-271 | Succeeds exactly when all lists are readable, there are units, no unit is free twice and the capacity is representable; then every counter is exact, nothing is unknown, free and used bytes add up to the total, and the cell rules hold. |
| FreeListMap.ExactMapIsValid | defragger/native/map.cpp:680-720 | Every exact map meets the rules natively produced cells are checked against. |
| FreeListMap.BadOverlayKeepsRule | defragger/native/map.cpp:360-364 | After the EXT overlay of metadata as "bad", a cell keeps the sum rule exactly when it has no used unit or no metadata unit. |
| FreeListMap.MetadataMapKeepsRules | defragger/native/map.cpp:360-364 | After the overlay the whole map keeps the cell rules exactly when no cell holds both a unit that is not free and a metadata unit. |
| FreeListMap.AllocatedMetadataBreaksRules | defragger/native/map.cpp:360-364 | Where metadata is never free, the overlaid map keeps the cell rules exactly when no unit is metadata. |
| FreeListMap.MapExt | defragger/native/map.cpp:354-366 | Succeeds exactly when the free-list map does and the metadata list is readable; the result is the exact map with the overlay, the reported metadata units are the covered ones, and the cell rules hold exactly when no cell mixes used units with metadata. |
| FreeListMap.OverlayFragmentation | defragger/native/map.cpp:225-244 | Both overlays are min(used, covered units) cell by cell; all other fields stay. |
| LiveMap.ApplyRange | defragger/native/desktop_live_map.cpp:74-118 | Staging a byte range on top of patches gives the cells of the plain in-place form, and fails exactly when that does. |
| LiveMap.StageRanges | defragger/native/desktop_live_map.cpp:204-224 | Staging a list of moves is applying them one after another. |
| LiveMap.MovesOfOneMore | defragger/native/desktop_live_map.cpp:220-223 | A triple is read as source, destination and length, in list order; any other entry is skipped. |
| LiveMap.TripleMoves | defragger/native/desktop_live_map.cpp:211-223 | One triple releases the bytes at its first number unless the mode says otherwise, then allocates the bytes at its second, as many as its third says. |
| LiveMap.CommitPatches | defragger/native/desktop_live_map.cpp:119-122 | The cells become the effective cells. |
| LiveMap.DesktopLiveRanges | defragger/native/desktop_live_map.cpp:204-226 | Succeeds exactly when applying every range in place in order would, with the same cells; a failing event changes nothing. |
| LiveMap.EventConserves | defragger/native/desktop_live_map.cpp:74-118 | Whatever the rounding does, free + used of every cell is conserved by any event, and fragmented and directory never exceed used if they did not before. |
| LiveMap.ReleaseScales | defragger/native/desktop_live_map.cpp:89-111 | With rounding to the nearest, a release leaves both overlays of a cell in proportion to its used units, up to rounding. |
| LiveMap.ChangeTracks | defragger/native/desktop_live_map.cpp:74-118 | Allocating or releasing units of the right kind keeps a cell equal to the counts of the disk. |
| LiveMap.EventTracksDisk | defragger/native/desktop_live_map.cpp:204-226 | If the cells count a disk, any event of possible moves succeeds and leaves cells that count the moved disk. |
| LiveMap.LocalCheckSuffices | defragger/native/desktop_live_map.cpp:123-137 | From ordered cells, checking patched cells and their neighbours is equivalent to checking the whole patched map. |
| LiveMap.ValidatePatchedOrder | defragger/native/desktop_live_map.cpp:123-137 | The loop decides that local check. |
| LiveMap.PatchedOrder | defragger/native/desktop_live_map.cpp:123-137 | Whatever order the cells were in, a patched map that passes the local check is ordered exactly when the cells that the patches do not reach are. |
| LiveMap.DesktopLiveCells | defragger/native/desktop_live_map.cpp:228-250 | Accepted exactly when every updated cell fits its neighbours, which for ordered cells means that the updated map is ordered; then it is the updated map, otherwise nothing changes. |
| LiveReset.Mark | defragger/native/desktop_live_map.cpp:164-184 | One used range moves min(free, overlap) units of each cell from free to used, clipped at the filesystem end. |
| LiveReset.MarkIsCover | defragger/native/desktop_live_map.cpp:164-184 | A non-empty range marks exactly the units it covers below the filesystem end. |
| LiveReset.EmptyRangeMarks | defragger/native/desktop_live_map.cpp:164-184 | An empty range covers nothing, and marks nothing exactly when it starts on a unit boundary or past the end. |
| LiveReset.MarksExactly | defragger/native/desktop_live_map.cpp:164-184 | A range marks exactly the units it covers if and only if it is not empty, or starts on a unit boundary or past the end. |
| LiveReset.ReportedIsCount | defragger/native/desktop_live_map.cpp:164-194 | For unit-disjoint ranges of that kind the units reported for a cell are the number of its covered units. |
| LiveReset.ResetNeverUnderstates | defragger/native/desktop_live_map.cpp:140-202 | Whatever the ranges are, a rebuilt cell shows at least as many used units as they cover. |
| LiveReset.ResetIsExact | defragger/native/desktop_live_map.cpp:140-202 | With unit-disjoint ranges that mark exactly what they cover, used is the number of covered units, free the uncovered ones below the end, and free + used + outside the span. |
| LiveReset.ResetConserves | defragger/native/desktop_live_map.cpp:140-202 | Whatever the ranges are, free + used + outside is the span and everything past the end is outside. |
| LiveReset.DesktopLiveReset | defragger/native/desktop_live_map.cpp:140-202 | Acceptance exactly by the stated checks; an accepted reset rebuilds every cell and the map fields, a rejection changes nothing. |
| LiveReset.ResetUnitIs | defragger/native/desktop_live_map.cpp:140-148 | The unit is that of the payload, else that of the map, where the cluster size stands in for it. |
| LiveReset.HandleEvents | defragger/native/desktop_live_map.cpp:140-250 | From ordered cells every run of accepted and rejected events keeps them ordered. |
| StopProtocol.Execute | defragger/native/privileged_helper.cpp:394-769 | Driving the critical sections of the guarded object through any schedule of the threads gives exactly the run of the step machine: afterwards its fields are those of the run, and the invariant holds of them. |
| StopProtocol.StepKeeps | defragger/native/privileged_helper.cpp:394-769 | Every step of the main, worker and watchdog threads and of the child keeps the invariant of the protocol. |
| StopProtocol.RunKeeps | defragger/native/privileged_helper.cpp:394-769 | The invariant holds after every interleaving. |
| StopProtocol.StopNeverEarly | defragger/native/privileged_helper.cpp:551-607 | In every interleaving a client Stop reaches an engine child only after its readiness marker was read. |
| StopProtocol.QueuedStopIsSettled | defragger/native/privileged_helper.cpp:551-607 | In every interleaving the delivery of a queued Stop has, when its run is over, been attempted exactly once, with its outcome on the log, or the run ended before the point of delivery; without a queued Stop there is no attempt. |
| StopProtocol.NeverSentTwice | defragger/native/privileged_helper.cpp:593-607 | While a run is in progress the delivery of its queued Stop is never attempted twice. |
| StopProtocol.NextStartAfterFinished | defragger/native/privileged_helper.cpp:489-518 | Between two "started" events the first run has published idle state and then emitted "finished". |
| StopProtocol.LifecycleCounts | defragger/native/privileged_helper.cpp:658-677 | Accepted runs, failed threads, idle publications and "finished" events balance step by step. |
| StopProtocol.EachRunFinishesOnce | defragger/native/privileged_helper.cpp:466-518 | At most one run is in progress, and each accepted run whose thread started publishes idle once and then emits "finished" once. |
| StopProtocol.IntactTransportDelivers | defragger/native/privileged_helper.cpp:438-457 | As long as the transport is intact every attempted "finished" was delivered. |
| StopProtocol.WatchdogNamesChild | defragger/native/privileged_helper.cpp:394-405 | In every interleaving an armed watchdog names the current child of the running worker. |
| StopProtocol.ExpiryIsPatient | defragger/native/privileged_helper.cpp:407-436 | An expiry names the child of the run in progress and comes at least the grace period after an arming for it. |
| StopProtocol.ExpiryRespectsLatest | defragger/native/privileged_helper.cpp:407-436 | In every interleaving an expiry ends a wait whose beginning is on the log and comes at least the grace period after every arming before that; it does so for the latest arming of all exactly when it does for those made during the wait. |
| StopProtocol.EarlyExpiryExact | defragger/native/privileged_helper.cpp:407-436 | A waiting watchdog that has seen no change can expire before the deadline field exactly when its own deadline is earlier and the time of the field has not come. |
| StopProtocol.SecondStopDoesNotExtend | defragger/native/privileged_helper.cpp:394-436 | Concrete run: after a second Stop the child is killed one millisecond after the latest arming. |
| StopDuties.QuitSignalsChild | defragger/native/privileged_helper.cpp:742-767 | When the quit loop looks at a published running child that it has not settled, its next step can only signal that child. |
| StopDuties.QuitWaits | defragger/native/privileged_helper.cpp:742-767 | An unpublished or settled child is waited for and not signalled again. |
| StopDuties.QuitSignalArms | defragger/native/privileged_helper.cpp:755-760 | A delivered quit signal is followed by arming the watchdog for that child, which takes effect if it is still current. |
| StopDuties.QuitLooksAgain | defragger/native/privileged_helper.cpp:742-767 | After a failed quit signal, an arming and the quit command itself the loop looks again. |
| StopDuties.QuitJoins | defragger/native/privileged_helper.cpp:742-769 | Without a running worker the loop ends, and the thread is joined once the run has emitted "finished". |
| StopDuties.StopIsAnswered | defragger/native/privileged_helper.cpp:702-740 | A Stop is queued exactly when the child is unpublished or an engine without its marker; nothing running is left alone; otherwise the reply signals that child. |
| StopDuties.StopSignalArms | defragger/native/privileged_helper.cpp:679-690 | A delivered client Stop is followed by arming the watchdog for that child; after a failed one the next command is read. |
| StopDuties.RunIsTakenOrRejected | defragger/native/privileged_helper.cpp:489-499 | A run request is rejected exactly when the log shows a run in progress; otherwise the thread before is joined as soon as its run has emitted "finished". |
| StopDuties.RunIsAccepted | defragger/native/privileged_helper.cpp:499-506 | What is accepted is the kind of command that was asked for. |
| StopDuties.WorkerStarts | defragger/native/privileged_helper.cpp:520-549 | A new worker refuses its command or spawns a child under a fresh process id, an engine exactly if one was accepted. |
| StopDuties.SpawnedIsPublished | defragger/native/privileged_helper.cpp:548-558 | A spawned child is published under its process id. |
| StopDuties.WorkerDeliversOrReads | defragger/native/privileged_helper.cpp:567-649 | After "started" the worker delivers a queued Stop exactly when that is due and not yet attempted, and else reads output. |
| StopDuties.QueuedStopArms | defragger/native/privileged_helper.cpp:679-690 | A delivered queued Stop is followed by arming the watchdog for the child. |
| StopDuties.FailureReaps | defragger/native/privileged_helper.cpp:559-655 | After a failed emission or a failed read the worker can only stop and reap its child. |
| StopDuties.EndPublishesIdle | defragger/native/privileged_helper.cpp:643-673 | When the output has ended, the child has been reaped or the command refused, idle state is published next. |
| StopDuties.IdleEmitsFinished | defragger/native/privileged_helper.cpp:656-677 | After idle state the worker emits "finished", which can succeed only while the transport is intact. |
| StopDuties.ExpiryKills | defragger/native/privileged_helper.cpp:428-433 | An expiry is followed by a kill of that child, if it is found still running. |
| StopDuties.WaitEnds | defragger/native/privileged_helper.cpp:414-427 | A waiting watchdog expires exactly when its child is still watched and the deadline it noticed has come, and sees a change exactly when the child is not. |
| JsonNumbers.NumberSuffix | defragger/native/json.cpp:192-237 | What the scan cuts off is a non-empty number of RFC 8259, section 6. |
| JsonNumbers.AcceptedIsRfc | defragger/native/json.cpp:287-332 | The number check accepts exactly the numbers of RFC 8259, section 6. |
| JsonNumbers.NumberAppend | defragger/native/json.cpp:192-237 | Text that cannot continue a number does not change where the number ends. |
| JsonText.UnicodeEscapeEncodes | defragger/native/json.cpp:163-183 | The parser never asks for the bytes of a surrogate or of a point out of range. |
| JsonText.SimpleEscapeIsTabled | defragger/native/json.cpp:154-162 | The two-character escapes are those of RFC 8259, section 7, and stand for the code points of its table. |
| JsonText.Hex4IsHex | defragger/native/json.cpp:128-138 | Four digits are read as n exactly if they spell n in hexadecimal, in either case. |
| JsonText.Utf8IsEncoding | defragger/native/json.cpp:33-41 | The bytes of a code point are exactly its sequence of RFC 3629, section 4. |
| JsonText.EscapeReadsAsUnicode | defragger/native/json.cpp:154-183 | Each two-character escape is read as the \u escape of its code point is. |
| JsonText.LessIsLexicographic | defragger/native/json.cpp:265-267 | Keys are ordered by their first difference, a prefix first. |
| JsonText.EmplaceExact | defragger/native/json.cpp:265-267 | Insertion keeps the keys ordered, adds exactly the new member and fails exactly on a duplicate key. |
| JsonGrammar.StringIsRead | defragger/native/json.cpp:140-190 | Every string body written by RFC 8259, section 7, with escapes for Unicode scalar values, is read as the bytes it stands for. |
| JsonGrammar.UnitIsTabled | defragger/native/json.cpp:140-190 | The characters that the reader takes are those of the standard's tables, with the same bytes. |
| JsonGrammar.TreeIsRead | defragger/native/json.cpp:98-273 | The parser's answer to every text of the grammar, in any context and at any depth, is what the text denotes, or a refusal if it is too deep or repeats a key. |
| JsonGrammar.ParsedHasTree | defragger/native/json.cpp:98-273 | Whatever is parsed is white space and a text of the grammar that denotes the returned value. |
| JsonGrammar.DocumentIsGrammar | defragger/native/json.cpp:54-61 | A document is accepted with a value exactly when it is a text of the grammar (sections 2 to 7), nested at most 64 deep and without repeated keys, that denotes this value. |
| JsonGrammar.DocumentIsRead | defragger/native/json.cpp:54-61 | The answer to every document of the grammar, refusals included. |
| JsonRoundTrip.DumpText | defragger/native/json.cpp:482-510 | The printer writes the text of a syntax tree. |
| JsonRoundTrip.TreeOfIsGrammatical | defragger/native/json.cpp:18-31 | For every escaper that follows section 7 that tree is of the grammar. |
| JsonRoundTrip.PrintedDenotes | defragger/native/json.cpp:482-510 | A printed value denotes itself if no string is cut at a NUL and it is not too deep; what it denotes never holds a NUL. |
| JsonRoundTrip.DenotedIsGood | defragger/native/json.cpp:98-273 | Every denoted value has accepted numbers, ordered distinct keys and bounded depth. |
| JsonRoundTrip.PrintedIsRead | defragger/native/json.cpp:482-510 | The parser's answer to any printed value is what its tree denotes. |
| JsonRoundTrip.DocumentRoundTrip | defragger/native/json.cpp:482-510 | parse(dump(v)) is v, number texts included, exactly when no string of v holds a NUL and v is at most 64 deep. |
| JsonRoundTrip.ParsedDocumentRoundTrip | defragger/native/json.cpp:54-61 | Every parsed document survives printing and parsing exactly when it holds no NUL. |
| JsonParser.ScanNumber | defragger/native/json.cpp:192-237 | The number scan ends where the longest valid number ends, or fails exactly when there is none. |
| JsonParser.MakeNumber | defragger/native/json.cpp:287-332 | Json::number succeeds exactly on accepted texts and keeps the text. |
| JsonParser.Parser.SkipWhite | defragger/native/json.cpp:73-82 | Skips exactly the leading white space. |
| JsonParser.Parser.ReadHex4 | defragger/native/json.cpp:128-138 | Four hexadecimal digits, or an error. |
| JsonParser.Parser.ReadString | defragger/native/json.cpp:140-190 | The loop over bytes and escapes agrees with the specification on every input. |
| JsonParser.Parser.ReadNumber | defragger/native/json.cpp:192-237 | Returns the exact slice of the number. |
| JsonParser.Parser.ReadValue | defragger/native/json.cpp:98-126 | Agrees with the specification on every input and depth, terminates, and every number slice it cuts is accepted. |
| JsonParser.Parser.ReadArray | defragger/native/json.cpp:239-251 | The loop over items agrees with the specification. |
| JsonParser.Parser.ReadObject | defragger/native/json.cpp:253-273 | The loop over members agrees with the specification. |
| JsonParser.Parser.ReadDocument | defragger/native/json.cpp:54-61 | The parser accepts a text exactly when the specification does, with the same value. |
| JsonParser.SliceIsAccepted | defragger/native/json.cpp:119-123 | Every number slice the parser cuts passes the number check. |
| JsonParser.Print | defragger/native/json.cpp:482-510 | The printer with its comma flags produces the specified text. |
| DeviceTopology.RelatedDevices.Add | defragger/src/core/ld_device.c:33-52 | Adds a device once, only raises exactness, and fails only when the device is new and the list holds 1024. |
| DeviceTopology.RelatedDevices.CollectDirectory | defragger/src/core/ld_device.c:123-173 | Adds exactly the named entries; a failure has a cause that is stated. |
| DeviceTopology.RelatedDevices.ScanParent | defragger/src/core/ld_device.c:175-214 | A partition adds its containing disk, inexactly. |
| DeviceTopology.RelatedDevices.ScanRelations | defragger/src/core/ld_device.c:246-271 | Parent, holders and, unless it is a partition, slaves of one entry. |
| DeviceTopology.RelatedDevices.ScanChildren | defragger/src/core/ld_device.c:273-279 | The children of a whole device that is exact at its turn. |
| DeviceTopology.RelatedDevices.Collect | defragger/src/core/ld_device.c:216-282 | The growing scan terminates; on success the list is exactly what is reachable, without duplicates, and always part of the intended closure; it succeeds whenever that closure is readable and has room, and on timely graphs exactly then; a failure has a stated cause in the closure. |
| DeviceTopology.TurnKeepsInv | defragger/src/core/ld_device.c:237-280 | Every turn of the scan keeps the invariant. |
| DeviceTopology.ScanIsClosure | defragger/src/core/ld_device.c:216-282 | A device is listed exactly when it is reachable by parent, holder and slave edges, plus child edges of the devices that were expanded. |
| DeviceTopology.ScanOnNodes | defragger/src/core/ld_device.c:237-280 | Read off the sysfs entries alone: every holder, every slave of a whole device, the disk around a partition and every numbered entry below an expanded device is listed, all but the disk as exact; every listed device but the target has such a reason, and it is exact and expanded exactly when they say so. |
| DeviceTopology.NodesSuffice | defragger/src/core/ld_device.c:216-282 | If the target lies in a set of at most 1024 devices that holds all neighbours of its members, and what is read of each can be read, the closure is readable and has room, so collecting succeeds; a partition needs no slaves. |
| DeviceTopology.ListIsIntended | defragger/src/core/ld_device.c:216-282 | The list never holds anything outside the intended closure, which is defined by trails on the graph alone; it holds all of it exactly when the children of late devices are in the list anyway. |
| DeviceTopology.DevicesAreIntended | defragger/src/core/ld_device.c:216-282 | Where only partitions lie below whole devices, the listed devices are those of the intended closure exactly when the children of late devices are listed anyway. |
| DeviceTopology.TimelyIsComplete | defragger/src/core/ld_device.c:216-282 | If within the closure no disk around a partition, other than the target, is also mapped by a device or lies below an exact one, no device is late and the list is the whole closure. |
| DeviceTopology.TimelyScanReads | defragger/src/core/ld_device.c:216-282 | On such a graph a finished scan has read the whole closure, which therefore fits the list. |
| DeviceTopology.OwnDiskExpansion | defragger/src/core/ld_device.c:237-280 | Scanning from a partition, the disk around it is listed second and has its children scanned exactly when the partition or the disk itself names it as a mapping; found exact in any other way, it is late. |
| DeviceTopology.LateExactIsNotExpanded | defragger/src/core/ld_device.c:216-282 | Concrete graph: every finished scan ends with the same three entries, among them a late disk, and a partition of that disk is in the closure but not listed. |
| DeviceTopology.StackedListIsScanned | defragger/src/core/ld_device.c:216-282 | These three entries are the result of a finished scan of that graph. |
| DeviceTopology.CollectStacked | defragger/src/core/ld_device.c:216-282 | Collecting on that graph succeeds, and the partition is missing from the result. |
| CorpusPlan.RawPlan.Make | defragger/test_media/test_media_raw.c:57-82 | Bad arguments change nothing; otherwise the plan is accepted exactly when every extent fits at the 64-bit cursor and is then the specified two-phase plan, which is sound exactly when there is room for it; a failure stops at the first extent that does not fit. |
| CorpusPlan.FileSizes | defragger/test_media/test_media_raw.c:10-18 | The sixteen file sizes: whole megabytes, then the sizes around a sector and a page. |
| CorpusPlan.PlanVerdict | defragger/test_media/test_media_raw.c:57-82 | On a device of fewer than 2^64 - 2 units a plan is accepted exactly when the extents, with gaps of two units, fit between the first unit and the limit. |
| CorpusPlan.AcceptedExactly | defragger/test_media/test_media_raw.c:57-82 | On any device a plan is accepted exactly when there is that room, or some extent ends within the last two units of the 64-bit range so that the cursor wraps around. |
| CorpusPlan.SoundExactly | defragger/test_media/test_media_raw.c:57-82 | An accepted plan is sound exactly when there is room for it. |
| CorpusPlan.LappedPlan | defragger/test_media/test_media_raw.c:57-82 | Concrete arguments: an accepted plan that goes on in front of its first unit. |
| CorpusPlan.PlanIsSound | defragger/test_media/test_media_raw.c:57-82 | If there is room, the extents lie inside the device, in order, at least two units apart; each file has exactly its units, and files of two or more units are really split. |
| CorpusWriter.Payload | defragger/test_media/test_media_raw.c:84-109 | The buffer gets the bytes of the file at this offset, page streams restarted at each 4 KiB page; the rest of the buffer stays. |
| CorpusWriter.ContentSplits | defragger/test_media/test_media_raw.c:84-109 | Payload bytes do not depend on how reads are chunked. |
| CorpusWriter.ChunkStored | defragger/test_media/test_media_raw.c:119-130 | Writing one buffer extends the stored part of one extent and disturbs no finished extent and nothing outside the plan. |
| CorpusWriter.WriteExtent | defragger/test_media/test_media_raw.c:117-130 | Writes one extent, zero padded, 64 KiB at a time. |
| CorpusWriter.WritePayload | defragger/test_media/test_media_raw.c:111-134 | All extents of a sound plan hold payload followed by zeros, and the rest of the device is unchanged. |
| CorpusCheck.RawCheck.CheckFile | defragger/test_media/test_media_raw.c:140-147 | Accepts a file exactly once and with its right size; state after success and failure. |
| CorpusCheck.RawCheck.CheckData | defragger/test_media/test_media_raw.c:148-169 | Accepts exactly in-order data that matches byte by byte; a failing comparison has advanced by the buffers that matched. |
| CorpusCheck.RawCheck.CheckFinish | defragger/test_media/test_media_raw.c:170-178 | Accepts exactly when every file was seen and read to its end. |
| CorpusCheck.ComparedAll | defragger/test_media/test_media_raw.c:155-168 | Comparing buffer by buffer reaches the end exactly when the whole range matches. |
| CorpusCheck.PassesFileByFile | defragger/test_media/test_media_raw.c:140-178 | A run of calls passes exactly when the calls about each file pass on their own and no other file is named. |
| CorpusCheck.PassingIsComplete | defragger/test_media/test_media_raw.c:140-178 | If the final check passes, each file was announced once and the bytes read for it, in order, are its whole contents. |
| CorpusCheck.ReplayPasses | defragger/test_media/test_media_raw.c:111-178 | Any interleaving that announces each file once and reads it in order, in any pieces, where the plan put it, passes on a written device. |
| CorpusCheck.Replay | defragger/test_media/test_media_raw.c:111-178 | Announcing and reading back a written plan extent by extent ends with the final check passing. |
| Raster.WindowsPartition | defragger/native/desktop_map_render.cpp:171-184 | With at least as many cells as pixels the windows are non-empty and follow on one another from 0 to the last cell. |
| Raster.PictureConserves | defragger/native/desktop_map_render.cpp:182-204 | With at least as many cells as pixels the picture shows a counter of all cells exactly once if and only if no 64-bit sum of a window wraps around, which is so if the sum over the map fits. |
| Raster.CellIsRun | defragger/native/desktop_map_render.cpp:172-184 | With fewer cells than pixels each pixel shows one cell and the pixels of a cell are one contiguous run. |
| Raster.RunLength | defragger/native/desktop.cpp:1378-1384 | The run of a cell has floor or ceiling of pixels / cells pixels, as the caption says. |
| Raster.DrawMap | defragger/native/desktop_map_render.cpp:165-208 | Every pixel has the colour of the 64-bit sums of its own window, although colours are reused from the pixel before; no product exceeds 64 bits. |
| Raster.RasterGeometry | defragger/native/desktop_map_geometry.cpp:15-47 | The caption fields are the least and the greatest span of the cells or of the windows. |
| Raster.SpansAddUp | defragger/native/desktop_map_geometry.cpp:34-44 | The window spans add up to the span of the map exactly unless a single pixel shows all 2^64 units. |
| HandOff.DesktopJournal | defragger/native/desktop_policy.cpp:130-160 | The edits of the stem in place produce the specified journal path. |
| HandOff.KnownTypeIsIdentifier | defragger/native/runtime.cpp:405-414 | A file system name that the registry knows, in any letter case, meets the helper's identifier rule. |
| HandOff.LookupIsFirst | defragger/native/runtime.cpp:405-414 | The lookup finds the first backend that goes by the name, letter case aside, and none exactly if none does. |
| HandOff.JournalIsUsers | defragger/native/desktop_policy.cpp:130-160 | The derived journal path lies directly in the state directory of exactly the user it was derived for. |
| HandOff.UserJournalIsDirect | defragger/native/helper_policy.cpp:190-202 | A journal path that the helper accepts resolves to one file with an allowed name directly in the user's state directory. |
| HandOff.ValidateOperationArgs | defragger/native/helper_policy.cpp:109-203 | The argument loop accepts exactly the requests with one valid filesystem, one --write, a confirmation equal to the target, one journal of the user, and --growth-percent 10 exactly for growth-defrag. |
| HandOff.HandOffPasses | defragger/native/desktop_policy.cpp:194-233 | Any command the desktop builds with its own journal path passes the helper exactly when the volume path is absolute and both act for the same user. |
| HandOff.MutationAllowed | defragger/native/desktop_policy.cpp:194-220 | A command is built exactly for an unmounted, writable volume of a type with a writer: recovery with a journal present, anything else without one and with verified identity, exact analysis and the qualification of the operation. |
| HandOff.MutationSays | defragger/native/desktop_policy.cpp:221-233 | The fixed part in order, ten percent for growth only, and, except for recovery, the number of live cells brought into its bounds. |
| HandOff.JournalFollowsMedium | defragger/native/desktop_policy.cpp:130-160 | Volumes with the same identifiers have the same journal, wherever they appear, if there is any identifier. |

## Left out

- Map results: strings, accuracy labels, warnings, details and percentages that are passed through unchanged, and the analyser processes the maps come from.
- Proportional scaling in long double: any rounding function, because the bounds do not depend on it, and rounding to the nearest for `LiveMap.ReleaseScales`; its result is cut to the field as in the source.
- String escaping and UTF-8 encoding come from libraries: the escaper is any function that meets RFC 8259, section 7 for every byte but NUL, and a failing escaper is not modelled.
- JSON accessors, the integer, real and boolean factories, and error messages.
- Helper: message parsing and rejection in `handle_run` before a run is accepted, message texts and `active_id_`, the shutdown flag and the destructor, EINTR, thread scheduling beyond interleaving, and reuse of process ids.
- AllocationMap.AggregateRanges: for more than 2^32 effective cells, where the boundary arithmetic can leave 64 bits (`AllocationMap.BoundaryFitsExactly`), nothing is stated; the program asks for at most 1048576.
- FreeListMap.GenericFreeRangeMap: the same bound on the number of cells.
- FreeListMap.MapExt: the same bound on the number of cells.
- LiveMap.DesktopLiveRanges: unordered cells, because `std::lower_bound` is defined only for a list that is partitioned by the searched bound.
- Device topology: paths, symbolic links and their length limits in sysfs; a device that cannot be read is a missing entry of the graph.
- Corpus: the generator of payload bytes is opaque, CRC is left out, and device I/O fails only past the end of the device.
- Corpus: the set of seen files stands for the bits of a word.
- Raster: colours are an opaque function of the counters; surface cache, widget sizes and drawing calls; the sums of counters that the colour function forms itself are part of it; cells × pixels is taken to fit 64 bits, as it does for any surface that can be created.
- Hand-off: the SHA-256 prefix is any sixteen hexadecimal digits; letter case and character classes are those of the C locale; file system roots other than `/` and path encodings.
- Hand-off: the mapper and unmount commands of the helper, and the labels, warnings and worker programs of the registry.
- `std::sort` is any sorted permutation.
- GTK windows, module loaders, process plumbing, the filesystem workers and their formats.
