# Verification of the measurement and proof tooling

This project models, in Dafny, the Python that decides whether a capture of the chip or an
equivalence proof can be believed, and proves what that code is for. One file per component:

| file | models |
|---|---|
| `CycleRecovery.dfy` | the clock-phase tracker that turns sampled edges into cycle numbers |
| `RecoveryBounds.dfy`, `SlopeDrift.dfy` | exactly when an edge gets its true cycle, and how far a refitted ratio can be off |
| `PatternDetect.dfy` | the search for a repeating frame in a capture |
| `FrameCheck.dfy` | one capture against a frame pattern: anchors, frames, the first departure |
| `RunVerdict.dfy` | several captures together, the verdict "same", jitter per slot |
| `OwnPattern.dfy` | captures against the pattern that was detected in them |
| `FrameHistogram.dfy` | interval histograms of captures and of one frame |
| `Uart.dfy`, `UartWindow.dfy` | the 8N1 decoder, and which frames it reads in a window |
| `Srzip.dfy` | sigrok session data: writer and both readers |
| `ScopeRecords.dfy`, `ScopeVcd.dfy` | the on-board capture format, its checks, its VCD printer and the VCD reader |
| `ConeHash.dfy` | structural hashes of combinational cones |
| `ClockTree.dfy`, `NearestGate.dfy` | netlist preconditions and the nearest-gate control mutation |
| `SramModels.dfy`, `MiterSoundness.dfy` | SRAM abstractions, the two-copy machine, the miter built on it |
| `RowCut.dfy`, `FreeRuns.dfy`, `RowIslands.dfy` | row segments around macros, the halo that closes stripe-free gaps, segments without a stripe |
| `Results.dfy`, `Arith.dfy`, `Bits.dfy`, `Names.dfy`, `Sorting.dfy` | shared vocabulary |

Floats are exact reals. Captures are sequences of events sorted by cycle and channel. The cone hash
is an injective constructor. Verilog, Liberty and VCD text is taken as already split into tokens or
parsed structures. Code that updates state is a method or a class proved against a specification
function or predicate; the results about whole runs are lemmas about those.

## What the proofs found

- **The tracker's bound.** A run is recovered exactly if and only if each edge arrives within half a cycle of the
  middle position that the true edges before it give for its cycle, a tie going to the lower cycle; that is a condition
  on the capture, not on the tracker (`RecoveryIsExact`). A drift of up to d <= 1/2 sample is tolerated for a ratio of
  at least 2 + 3d (`RobustRecovery`), and a capture whose edges are spread well enough keeps the refitted ratio within it
  (`TameCaptureIsExact`); evenly spaced edges are (`EvenCaptureIsExact`). Displaced edges are recovered while two near
  edges pin the phase from either side and the ratio leaves room for three displacements (`JitteredRecovery`). For two
  edges and an exactly known ratio, 2 is the bound, and below it `TwoEdgeFailures` gives the exact condition for a wrong
  cycle; 1.85 is an instance (`BelowTwoCanFail`).
- **A tied quiet gap.** `detect_pattern` breaks ties for the widest gap by position, but
  `frames_against` accepts any edge with the anchor's signature and gap. When a later slot ties, no run is
  ever called "same" (`TiedIsNeverSame`). A window of the pattern's own schedule that shows a frame is called "same"
  if and only if none ties (`WindowIsSame`, `DetectedIsSame`); `TiedCaptureDiffers` is a capture that is "different"
  from the very pattern detected in it.
- **Captures without a complete frame.** A capture with fewer than two anchors changes no verdict, whatever it
  holds (`FramelessIsUnexamined`): a run can be "same" although one of its captures is nowhere on the schedule
  (`OffScheduleUnexamined`). `Judge` says exactly when the verdict is "same".
- **A skipped start bit.** When the window opens within ten bit times of an edge, the decoder skips that start
  edge and can take a later fall of the same frame for a start bit. It reads exactly the frames that start in the open
  window and end by its end if and only if no earlier frame falls in the open part, ten bit times before the end
  (`DecodesWindow`). `SkippedStartMisleads`: 0x0F is sent and 0xF8 returned, with no framing error.
- **Wide or cut samples.** The writer's 4 MiB chunks are read back completely if and only if the sample size divides
  4 MiB or the data fits one chunk (`WriteAndRead`). The vectorised scan sees every sample modulo 2^64 (`ScansSee`), so the
  two scans return the same changes if and only if all samples are below 2^64 (`ScansAgree`), and always if and only if a
  sample has at most eight bytes (`UnitsThatAgree`); for every wider one a change can go unseen (`WideUnitsDiffer`).
- **A level hidden by x or z.** `edges_of` promises the level before the first transition. It reports the first known
  level that the window sees, which is that level if and only if the two agree (`LevelBeforeFirst`), as they do when no
  level in between is unknown (`KnownLevelBeforeFirst`). In 1, x, 0, 1 the only transition starts at 0 and 1 is reported
  (`UnknownHidesLevel`).
- **Open channels.** The interval histogram of a periodic capture is the number of frames times that of one frame, less
  one interval for each channel without an edge at or after the last anchor (`HistogramLoses`).
- **Write-through.** The macro loads the written word into its output when a write has the read enable
  on. The registered read of `equiv_inv.py` holds its value there. Started on the macro's output, it simulates the macro
  if and only if every write-through writes the word already on the output (`InvSimulatesMacro`); for a RAM without
  write-through it always does (`InvSimulatesPlain`). The register of `mk_miter.py` misses fewer runs
  (`RegSimulatesMacro`). The core ties A_REN to ~A_WEN (`docs/fpga.md` line 92), so only a mutated core writes through.
- **The miter's first cycle.** Outside k-induction the assertion is skipped in the first cycle. Then the clock edge of
  that cycle decides: the macros of the two copies agree in every later cycle if and only if they agree after it
  (`FirstEdgeDecides`). Without that agreement a mutant that writes in the first cycle is proved equal
  (`FirstCycleMatters`); with the assertion in every cycle nothing has to be known (`ProvenThroughout`).
- **Row segments beyond the core.** If blockages reach the core's right edge and a later one starts a
  site or more beyond them, `row_segments` emits a segment that ends before it starts, also on the core of a tile
  (`OverrunOnTile`). `RowIsProper` and `OverrunIsLoneBlockage` give the exact condition.
- **The closure halo.** `closure_halo` is called the smallest halo that leaves no row segment without a
  stripe. It is the smallest that closes every reported gap (`NeedIsSmallest`). A row has no such island if and only if both
  supplies cross every longest run of free sites (`IslandFreeRow`); at that halo, without obstructions, if and only if every
  stretch between neighbouring macros of the row that is not a reported gap keeps less than a site or is crossed
  (`IslandFreeAtClosure`). Where the macros that reach into the row share rows exactly with each other, only stretches
  that have both stripes count (`IslandFreeBand`), and every site that is kept lies in one (`KeptSitesAreSupplied`). Both
  ways to fail occur: where macros are staggered only the nearest is looked at (`StaggeredMacrosKeepIsland`), and the halo
  can itself cover the stripes of a stretch that had them (`HaloCoversStripes`).

Where comments and code differ, the code is modelled. `mk_miter.py` (lines 122-124)
describes its register as the macro's registered read; it takes a write with the read enable on for a
read, where the macro writes and passes the written word through. `row_islands.py` (lines 199 and 299) claims
more of the closure halo than it does.

## Model

| member | source | states |
|---|---|---|
| CycleRecovery.RecoverCycles | demo/pe_capture.py:537-599 | The loop with its bounded deques and running sums gives the assignments, counters and ratio that the step-by-step definition gives with every window recomputed from scratch; a ratio of at most 1 is refused |
| CycleRecovery.Slide | demo/pe_capture.py:578-591 | Appending an edge and dropping the oldest keeps the window at its last 8192 edges and the five sums equal to the sums over it |
| CycleRecovery.TrueCycleWins | demo/pe_capture.py:552-576 | With drift at most d <= 1/2 over the edges in use and a ratio of at least 2 + 3d, the true cycle is among the three candidates and sorts first, its gap at most 2d and every other gap larger |
| CycleRecovery.RobustRecovery | demo/pe_capture.py:550-578 | Over a whole run whose ratio estimate stays within that drift, no step raises, every edge gets its true cycle, none is ambiguous, and none is unmatched at a tolerance of at least 2d |
| CycleRecovery.ExactRecovery | demo/pe_capture.py:550-578 | With the ratio known exactly throughout and at least 2, every assignment is n_i - n_0, with no ambiguous and no unmatched edge |
| CycleRecovery.ShortCaptureIsExact | demo/pe_capture.py:543-599 | Fewer than 64 edges, or fewer than 1000 cycles, are never refitted, so an exact nominal ratio of at least 2 recovers every cycle with no premise about the estimate |
| CycleRecovery.SumsGiveSlope | demo/pe_capture.py:594-597 | The numerator and denominator made from the running sums are the covariance and variance of the window summed over pairs of edges |
| CycleRecovery.RefitOfRisingSucceeds | demo/pe_capture.py:592-599 | A refit over edges that rise in time and cycle never divides by zero: their slope is positive |
| RecoveryBounds.NearestWins | demo/pe_capture.py:562-572 | The cycle that wins the three-way ranking is the nearest to the centre of the feasible phases, for any ratio and any edges; a tie goes to the lower cycle |
| RecoveryBounds.ChoiceIsNearest | demo/pe_capture.py:552-576 | With the fallback to the last edge, an edge is given cycle n if and only if its sample is within half a cycle of the middle position of n |
| RecoveryBounds.UsableAreNear | demo/pe_capture.py:554-557 | The edges in use are exactly the last one and every kept edge that the uncertainty of the ratio puts off by at most a tenth of a sample |
| RecoveryBounds.FeasibleIsPhaseRange | demo/pe_capture.py:558-561 | Their common phases are the range that the recent edges alone determine: from the greatest lower bound to the least upper bound, or the last edge's own bounds where these cross |
| RecoveryBounds.ChoiceMeans | demo/pe_capture.py:552-576 | In terms of that range: the cycle given to a sample, the exact condition for an unmatched edge, and ambiguous exactly when another cycle overlaps the range too |
| RecoveryBounds.CountersCount | demo/pe_capture.py:573-599 | The counters of a run are the numbers of its unmatched edges, ambiguous edges and refits |
| RecoveryBounds.TwoEdgeFailures | demo/pe_capture.py:550-578 | With the ratio r known exactly, some second edge gets a wrong cycle if and only if some cycle falls at most 1 - r/2, or more than r/2, samples before a sample; for r of at least 2 none does |
| RecoveryBounds.BadFitFails | demo/pe_capture.py:550-578 | In each such case the capture: its sample, its phase, and in the first case the cycle before the true one as the one it is given |
| RecoveryBounds.BelowTwoCanFail | demo/pe_capture.py:550-578 | The instance at ratio 1.85: an edge of cycle 7 is given cycle 6 |
| SlopeDrift.SlopeIsNear | demo/pe_capture.py:592-599 | Over recorded edges the covariance differs from the true ratio times the variance by at most the sum of the pair distances in cycles |
| SlopeDrift.ExactRatio | demo/pe_capture.py:550-599 | While the edges get their true cycles, the ratio in use is the nominal one up to the first refit and then the least-squares slope of the window at the last refit |
| SlopeDrift.RecoveryIsExact | demo/pe_capture.py:550-599 | Over a whole run with refits, on any ascending capture, the first m edges all get their true cycles if and only if each arrives within half a cycle of the middle of the phases that the true points near enough before it leave open, with the nominal ratio or the slope of the true points at the last refit: a condition on the capture only |
| SlopeDrift.JitteredRecovery | demo/pe_capture.py:550-599 | Edges recorded with up to `jitter` samples of displacement are all given their true cycles when, before each of them, one near edge pins the phase from below and one from above up to delta and the ratio is at least 1 + 3 jitter + 4d + delta, d bounding the drift over the edges in use |
| SlopeDrift.PinnedIsWellPlaced | demo/pe_capture.py:552-572 | One edge of such a capture lies within half a cycle of the middle position of its cycle: here all near edges bound the phase, not the last one alone |
| SlopeDrift.TameCaptureIsExact | demo/pe_capture.py:550-599 | Recovery with refits from the capture alone: if the spread of each refit window over its variance keeps the slope within d <= 1/2 sample over the edges in use, every edge gets its true cycle, and none is unmatched at a tolerance of at least 2d |
| SlopeDrift.EvenCaptureIsExact | demo/pe_capture.py:543-599 | Edges a constant number of cycles apart are recovered exactly, refits and all, when the nominal ratio is right up to d samples over one spacing and over 500 samples, for any d from a fifth to a half, a nominal ratio of at least 2 + 3d and a true one of at least 2.002 + 3d |
| PatternDetect.DetectPattern | demo/pe_capture.py:641-674 | None exactly when no k up to the limit repeats in the tested window (or there are fewer than 8 events); otherwise the smallest such k and the block rotated to its first widest gap |
| PatternDetect.PatternIsOrdered | demo/pe_capture.py:671-672 | The pattern found is ordered by offset and channel, whatever the capture |
| PatternDetect.TestPeriod | demo/pe_capture.py:656-661 | The early-exit loop decides whether every tested event recurs k events and one period later |
| PatternDetect.TestedEvents | demo/pe_capture.py:648-661 | Which events are tested: the 3k + 64 from the first quarter on, each against the one k events later, one positive period later |
| PatternDetect.LimitIs | demo/pe_capture.py:646-654 | The values of k that are tried: at most the given number, and three frames must fit behind the first quarter |
| PatternDetect.FindWidest | demo/pe_capture.py:664-668 | The anchor is the first position with the widest gap before it |
| PatternDetect.GapsSumToPeriod | demo/pe_capture.py:664-667 | The gaps of a block add up to exactly one period |
| PatternDetect.WidestIsPositive | demo/pe_capture.py:664-668 | So the anchor's gap is positive |
| PatternDetect.DetectedPatternIsSound | demo/pe_capture.py:641-674 | On an ordered capture the pattern starts at offset 0, is ordered with all offsets in the period, has a positive quiet gap that no other gap exceeds, and its schedule reproduces every event of the tested window |
| PatternDetect.DetectedPatternHasOneAnchor | demo/pe_capture.py:668-696 | A detected pattern has a single anchor position if and only if no later slot with the anchor's signature ties with its quiet gap |
| FrameCheck.FindAnchors | demo/pe_capture.py:686-696 | Exactly the edges with the first signature and at least the quiet gap before them, in order; never the first edge |
| FrameCheck.AnchorMeans | demo/pe_capture.py:686-696 | An anchor has the first signature and comes at least as late after the edge before it as the next frame starts after the last slot, a whole period for a pattern of one slot |
| FrameCheck.FindDeparture | demo/pe_capture.py:714-727 | The first event off the grid that starts at the first identical frame, with its frame number, the expected event, what was seen instead and the number of events before it |
| FrameCheck.FramesAgainst | demo/pe_capture.py:677-730 | Anchors, the frames between consecutive anchors, the counts of complete and identical frames, how often each length occurs, the first identical frame, and the departure with the expected and the seen edge |
| FrameCheck.CountIdenticalIs | demo/pe_capture.py:697-703 | The count of identical frames is the number of frames with the period's length and the pattern's events |
| FrameCheck.LengthsAre | demo/pe_capture.py:697-700 | The lengths counted are those of all the frames |
| FrameCheck.DepartureMeans | demo/pe_capture.py:714-727 | The departure reported for event m of frame f: the event is not the pattern's there, and the frame number, the expected edge and the seen one are those |
| FrameCheck.NoMatchMeans | demo/pe_capture.py:704-713 | Without an identical frame the departure is the first anchor when there are frames, and none otherwise |
| FrameCheck.IdenticalFrameMeansOneAnchor | demo/pe_capture.py:693-703 | An identical frame between two consecutive anchors shows that only the pattern's slot 0 can be an anchor |
| FrameCheck.GridAnchors | demo/pe_capture.py:693-727 | On the grid of a one-anchor pattern, anchors fall exactly every k events |
| FrameCheck.FrameOnGrid | demo/pe_capture.py:697-702 | Every complete frame on that grid has the pattern's length and body |
| FrameCheck.PeriodicAfterStart | demo/pe_capture.py:677-730 | One identical frame and no departure imply that later anchors fall exactly every k events and that every later complete frame lasts one period and equals the pattern |
| RunVerdict.Analyse | demo/pe_capture.py:992-1011 | The run's totals, the events on the grid and the frame lengths among them, are the sums over its captures, with the first capture that departs |
| RunVerdict.SumOfOne | demo/pe_capture.py:992-1011 | What one capture adds to the totals and to the frames of a run |
| RunVerdict.Verdict | demo/pe_capture.py:1180-1195 | Each reason is given exactly when its condition holds, and "same" exactly when there is none |
| RunVerdict.CleanCapture | demo/pe_capture.py:693-728 | One capture raises no objection if and only if, should it have two anchors, the pattern has one anchor position and every event from the first anchor on is where the schedule puts it |
| RunVerdict.AggregateIsExact | demo/pe_capture.py:992-1011 | The totals of a run are clean if and only if some capture shows a frame and every capture that shows one follows the schedule |
| RunVerdict.Judge | demo/pe_capture.py:1173-1195 | Checked against its reference a run is "same" if and only if the pattern has one anchor position, some capture shows a complete frame, and each capture that shows one has all events from its first anchor on at their scheduled cycles |
| RunVerdict.WindowFollows | demo/pe_capture.py:693-728 | Any contiguous window of the periodic extension of a one-anchor pattern follows the schedule, wherever it starts |
| RunVerdict.CollectRows | demo/pe_capture.py:765-776 | Offsets per slot and frame lengths, over the structurally matching frames only |
| RunVerdict.MatchingOfOne | demo/pe_capture.py:765-771 | A frame is kept for the statistics exactly when it has the pattern's channels and polarities slot by slot, whatever the frames before it |
| RunVerdict.Summarise | demo/pe_capture.py:777-786 | Per slot the bounds that some frames reach, and over all slots the largest difference that two frames show |
| RunVerdict.ClassStats | demo/pe_capture.py:762-789 | The least and greatest offset of each slot over the matching frames, the peak-to-peak value as the largest disagreement of two of them about a slot, the shortest and longest one |
| RunVerdict.IdenticalFramesHaveNoJitter | demo/pe_capture.py:762-789 | Frames that all equal the pattern have zero jitter and one length |
| RunVerdict.SameMeansNoJitter | demo/pe_capture.py:1020-1020 | A run called "same" reports zero jitter over all its complete frames, each of one period |
| RunVerdict.NoJitterFromStart | demo/pe_capture.py:762-789 | With no departure, the frames of a capture from the first identical one on have zero jitter |
| OwnPattern.TiedIsNeverSame | demo/pe_capture.py:690-696 | No run is "same" against any pattern with a later slot of the anchor's signature and at least its quiet gap |
| OwnPattern.WindowIsSame | demo/pe_capture.py:677-730 | A window of a pattern's own schedule that shows a frame is "same" if and only if there is no such slot |
| OwnPattern.AnchorsOfTestedPart | demo/pe_capture.py:641-696 | The tested part always shows a frame: it has two frame starts after the one where the pattern was taken |
| OwnPattern.DetectedIsSame | demo/pe_capture.py:641-730 | The tested part of any capture in which a pattern was detected is "same" against it if and only if no later slot with the anchor's signature has as wide a gap |
| OwnPattern.DetectionIsUnique | demo/pe_capture.py:641-674 | What the detection promises determines its answer |
| OwnPattern.TiedCaptureDiffers | demo/pe_capture.py:641-730 | A periodic capture whose detected pattern is tied, and which is "different" from it |
| OwnPattern.FramelessIsUnexamined | demo/pe_capture.py:704-713 | Adding a capture with fewer than two anchors changes no verdict |
| OwnPattern.OffScheduleUnexamined | demo/pe_capture.py:704-713 | A run of two captures that is "same" although the second is nowhere on the schedule |
| FrameHistogram.Following | demo/pe_capture.py:749-753 | The backward scan finds, for every event, the next edge of the same channel |
| FrameHistogram.FrameHistograms | demo/pe_capture.py:746-759 | Adds exactly the intervals that start in the given range |
| FrameHistogram.FiledIsLevel | demo/pe_capture.py:753-757 | An interval is filed under the level that its channel has throughout: high exactly when the last edge of the channel before any cycle of it was a rise |
| FrameHistogram.ChannelHist | demo/pe_capture.py:1078-1082 | One channel's slots filed by their cyclic successor are that channel's part of the cyclic histogram |
| FrameHistogram.PerFrameHist | demo/pe_capture.py:1074-1083 | Channel by channel, the interval histogram of the endlessly repeated frame, each slot to the next one around |
| FrameHistogram.NextEdgeOnGrid | demo/pe_capture.py:749-757 | On the grid the next edge of a channel is the next slot around, in this frame or the next |
| FrameHistogram.HistogramLoses | demo/pe_capture.py:999-1003 | On the grid the histogram between first and last anchor is the number of frames times the cyclic histogram of the pattern, less the last interval of each channel that has no edge at or after the last anchor |
| FrameHistogram.HistogramCountsFrames | demo/pe_capture.py:999-1003 | It is exactly the number of frames times the cyclic histogram if and only if every channel of the pattern has an edge at or after the last anchor |
| Uart.BisectRight | demo/pe_capture.py:801-802 | The number of edges at or before a cycle |
| Uart.DecodeUart | demo/pe_capture.py:792-826 | The loop gives the bytes and framing errors of the recursive decoder, with both window rules |
| Uart.StartEdge | demo/pe_capture.py:808-812 | After the edges before a frame the next edge is its falling start bit, at its first cycle, also when the capture began inside an earlier frame |
| Uart.FrameSamples | demo/pe_capture.py:813-823 | The mid-bit samples of a frame are its start bit, its byte and a good stop bit, for any bit length |
| Uart.EveryLineHasEdges | demo/pe_capture.py:792-804 | Every spaced sequence of frames has a list of edges from any cycle on, so the results about lines cover all of them |
| UartWindow.DecodesReads | demo/pe_capture.py:792-826 | The bytes and errors are what is sampled at the cycles where the decoder reads |
| UartWindow.ReadAtMeans | demo/pe_capture.py:813-825 | Bit b of a byte is the level in the middle of bit time b + 1 after its start, and the framing errors are the starts whose tenth bit time is low |
| UartWindow.LevelIs | demo/pe_capture.py:801-804 | The level at a cycle is that of the last edge up to it, else the initial one, else high |
| UartWindow.DecodesWindow | demo/pe_capture.py:792-826 | For any 8N1 line, any begin of the capture and any window: the decoder reads exactly at the starts of the frames that start in the open window and end by its end if and only if no earlier frame falls in the open part, ten bit times before the end; then the bytes are theirs and there is no framing error |
| UartWindow.IdleWindow | demo/pe_capture.py:808-810 | A window that starts idle for ten bit times misleads nobody and loses only frames that started before the capture |
| UartWindow.WholeCapture | demo/pe_capture.py:792-826 | Without bounds, a capture that begins before the first frame gives every frame |
| UartWindow.SkippedStartMisleads | demo/pe_capture.py:808-823 | A start edge that is skipped makes up a byte that was never sent, without a framing error |
| UartWindow.MisledUnnoticed | demo/pe_capture.py:808-823 | A misled decoder can return the right bytes by accident, so the condition decides where it reads, not what it returns |
| Srzip.BytesRoundTrip | demo/pe_capture.py:392-393 | Little-endian unit bytes read back as the value |
| Srzip.ByteOfValue | demo/pe_capture.py:1427-1428 | Byte k of a sample is its k-th base-256 digit, least significant first |
| Srzip.WriteData | demo/pe_capture.py:1425-1432 | The bytes written are those of the expanded waveform, 0 before the first change |
| Srzip.WriteChunks | demo/pe_capture.py:1438-1443 | The chunks concatenate to the data, and they are cut at sample boundaries if and only if the unit size divides 4 MiB or the data fits one chunk |
| Srzip.ScanSamples | demo/pe_capture.py:389-396 | The per-sample scan continues the run-compressed form of what was scanned before |
| Srzip.ScanVector | demo/pe_capture.py:384-388 | So does the vectorised scan, by neighbour differences |
| Srzip.ColumnSums | demo/pe_capture.py:381-383 | Summing shifted byte columns gives the 64-bit little-endian word of every row; bytes after the eighth are shifted out |
| Srzip.UnitChanges | demo/pe_capture.py:372-401 | Either scan gives the run-compressed form of the samples it sees and their total; a partial last sample of a blob is dropped |
| Srzip.RowAt | demo/pe_capture.py:377-380 | Sample s of a blob is there exactly when it is complete, and its bytes are the unit bytes from s unit on |
| Srzip.ScansSee | demo/pe_capture.py:378-396 | The per-sample scan sees the samples, the vectorised one each of them modulo 2^64 |
| Srzip.WordOfRow | demo/pe_capture.py:381-383 | A row's word is its value modulo 2^64, and the value itself exactly when the bytes after the eighth are 0 |
| Srzip.ScansAgree | demo/pe_capture.py:378-396 | The two scans return the same changes if and only if every sample is below 2^64 |
| Srzip.UnitsThatAgree | demo/pe_capture.py:378-396 | The scans agree on every session if and only if a sample has at most eight bytes |
| Srzip.WideUnitsDiffer | demo/pe_capture.py:381-383 | For every sample size above eight bytes a session exists whose change from 0 to 2^64 the vectorised scan does not see |
| Srzip.SampleCount | demo/pe_capture.py:377-379 | No sample is made up, and none is lost if and only if every blob is a whole number of samples |
| Srzip.SrzipRoundTrip | demo/pe_capture.py:1423-1443 | However the written bytes are cut at sample boundaries, the samples read back are the waveform of the change list |
| Srzip.WriteAndRead | demo/pe_capture.py:1423-1443 | Writing a session and reading it back: all samples are there if and only if the unit size divides 4 MiB or the data fits one chunk, and then the changes are the compressed form of the written waveform if and only if, with the vectorised scan, its values are below 2^64 |
| Srzip.CompressedExpands | demo/pe_capture.py:372-401 | Expanding the compressed form of a waveform gives the waveform |
| Srzip.CompressHolds | demo/pe_capture.py:384-396 | The run-compressed form holds exactly the samples that differ from the one before, and the first |
| Srzip.ExpandedAt | demo/pe_capture.py:1425-1432 | Sample i of an expanded change list has the value of the last change up to i, and 0 before the first |
| Srzip.CanonicalIsFixed | demo/pe_capture.py:372-401 | A change list without redundancy is the compressed form of its own expansion |
| Srzip.ProbeChanges | demo/pe_capture.py:359-367 | The scan of one probe is the bit-filtered change list |
| Srzip.ProbeIsBitWave | demo/pe_capture.py:359-367 | A probe's changes are the compressed waveform of its bit |
| ScopeRecords.UnpackPack | fpga/host/pe_scope.py:167-173 | All fields come back from a packed record; only the stamp's high bits are lost |
| ScopeRecords.PackUnpack | fpga/host/pe_scope.py:167-173 | Packing the fields of a word gives back its low 72 bits |
| ScopeRecords.FieldBits | fpga/host/pe_scope.py:167-169 | The stamp is bits 0 to 21 of a word, the kind 22 and 23, the mask 24 to 47 and the values 48 to 71 |
| ScopeRecords.DecodeWord | fpga/host/pe_scope.py:180-201 | A word is accepted after a record exactly when some admissible record packs to it, and that record is returned |
| ScopeRecords.Decode | fpga/host/pe_scope.py:176-205 | Accepts a word list exactly when some well-formed record list packs to it, and returns that list |
| ScopeRecords.ChainGrows | fpga/host/pe_scope.py:180-201 | A well-formed list begins with the start record at the start stamp and goes on by records in range, each less than 2^22 ahead of the last, with markers and changes as required, up to an end record |
| ScopeRecords.EndAgreesMeans | fpga/host/pe_scope.py:202-205 | The status agrees with an end record exactly when it is below 2^48 and whole turns of 2^48 make up the stamp |
| ScopeRecords.DecodingIsUnique | fpga/host/pe_scope.py:195-198 | Two chained record lists that pack to the same words are equal: unwrapping is unique |
| ScopeRecords.MaskTests | fpga/host/pe_scope.py:257-262 | The two whole-vector tests hold if and only if the mask marks exactly the enabled channels whose level changes |
| ScopeRecords.Check | fpga/host/pe_scope.py:250-267 | Passes if and only if every mask is exact and every activity counter agrees or is saturated |
| ScopeVcd.WriteVcd | fpga/host/pe_scope.py:299-323 | The declarations, the dump one tick before the first record (or at 0), one block per record with changes, and the closing of the window; an empty capture is refused |
| ScopeVcd.IdentsAre | fpga/host/pe_scope.py:303-310 | Every channel has its own identifier from % to <, none of them the window signal's |
| ScopeVcd.ReadVcd | demo/pe_capture.py:203-293 | Every declared signal gets the value changes of its identifier |
| ScopeVcd.ReadValues | demo/pe_capture.py:262-293 | The loop with its table of last values gives each signal its changes, repeated values dropped |
| ScopeVcd.EdgesOf | demo/pe_capture.py:478-494 | The 0/1 transitions inside the window, including one whose previous level was seen before the window, and the first known level in it, from the changes up to the first one past the window, in any time order |
| ScopeVcd.EdgesAre | demo/pe_capture.py:478-494 | Its edges are the changes inside the bounds between two known levels that differ |
| ScopeVcd.StoppingIsHarmless | demo/pe_capture.py:478-494 | For changes in time order, stopping at the first one past the window loses nothing |
| ScopeVcd.LevelBeforeFirst | demo/pe_capture.py:484-493 | The reported level is the one before the first transition of the window if and only if the first known level that the window sees equals the level before that transition, for any changes and bounds |
| ScopeVcd.KnownLevelBeforeFirst | demo/pe_capture.py:478-494 | In time order it is when no level between the two is unknown |
| ScopeVcd.LevelOfQuietWindow | demo/pe_capture.py:478-494 | In a window without transitions the reported level is the one at its end when no level since is unknown |
| ScopeVcd.UnknownHidesLevel | demo/pe_capture.py:478-494 | Four changes with an unknown level for which the reported level is not the one before the only transition |
| ScopeVcd.ExpectedTransitions | fpga/host/pe_scope.py:244-262 | When masks are exact, the initial level followed by the masked records makes exactly the recorded edges as transitions |
| ScopeVcd.BodyChanges | fpga/host/pe_scope.py:314-321 | What the reader sees of a channel after i records is its initial level and its edges up to there |
| ScopeVcd.VcdRoundTrip | fpga/host/pe_scope.py:299-323 | For every capture that passes the checks, writing enabled channels and reading the tokens back gives each channel exactly its edges, also for a window that starts at stamp 0, and the window signal is up from the first record to the last |
| ScopeVcd.WindowSignal | fpga/host/pe_scope.py:299-323 | The window signal of a printed capture: down one tick before the first record, or at 0, up at the first, down one tick after the last |
| ScopeVcd.WriteAndRead | fpga/host/pe_scope.py:250-323 | Check, write, read and take the transitions: a capture gets through if and only if it is not empty and passes the checks, and then every channel has exactly its edges, with its initial level if there are any |
| ConeHash.ConeHasher.HashOfCell | formal_depth/gen/mutant_cones.py:140-154 | The explicit-stack loop ends on every acyclic netlist and returns the recursively defined hash; the memo only grows, holds only such hashes, and is untouched when the cell is known |
| ConeHash.ConeHasher.HashOfBit | formal_depth/gen/mutant_cones.py:123-133 | The hash of a bit by its driver, whatever was requested before |
| ConeHash.ConeHasher.Hashes | formal_depth/gen/mutant_cones.py:156-164 | Exactly the sinks of the netlist, each with the hash of its bits under the current labels |
| ConeHash.ExpandedWork | formal_depth/gen/mutant_cones.py:146-150 | Replacing a cell by its ready entry and its pending dependencies leaves strictly less work: the termination measure |
| ConeHash.AllDone | formal_depth/gen/mutant_cones.py:147-153 | A cell is hashed only when all its combinational dependencies are in the memo |
| ConeHash.HashKeepsValue | formal_depth/gen/mutant_cones.py:119-154 | Under every interpretation of leaves and gates a bit has the value that its hash stands for |
| ConeHash.EqualHashesComputeAlike | formal_depth/gen/mutant_cones.py:156-164 | Sinks with equal hashes, in one netlist or two, are of one kind with equal parameters and compute the same function of their labelled leaves, a leaf being known by its label, port and index only, or by its kind and width without a label |
| ConeHash.StateBitsByLabel | formal_depth/gen/mutant_cones.py:123-133 | Two bits of state elements, in one netlist or two, hash alike if and only if ports and indices are equal and the labels are, or without any label kind and width are |
| ConeHash.StateBitsAreLeaves | formal_depth/gen/mutant_cones.py:123-133 | The hash of a bit is a leaf exactly when a state element drives it |
| ConeHash.DifferentHashesDiffer | formal_depth/gen/mutant_cones.py:119-154 | Bits with different hashes are told apart by some interpretation of the gates |
| ClockTree.RolesAre | formal_eq/eq_check.py:276-304 | Pin by pin, each of the five roles exactly when: a cell is usable if and only if its pins are plain inputs and outputs without latch, state table or three-state, and, should it have outputs, each has a function and a flip-flop group is a single one clocked by an input pin; without outputs it is physical, with a group a flip-flop, with a single output that is its single input an identity, and combinational otherwise |
| ClockTree.NormFuncOfChar | formal_eq/eq_check.py:272-273 | Normalising a function drops a character exactly when it is a parenthesis or white space |
| ClockTree.NormFuncOfParts | formal_eq/eq_check.py:272-273 | and keeps all others in order |
| ClockTree.StructureCheck.AddDriver | formal_eq/eq_check.py:592-599 | Without errors the table holds exactly the drivers added so far; an error arises exactly when a constant or a driven net is driven |
| ClockTree.StructureCheck.AddDrivers | formal_eq/eq_check.py:601-622 | Adds exactly the input ports, the assigns and the output pins of supported cells, and objects exactly to double drivers, driven constants and unknown pins |
| ClockTree.DriversAre | formal_eq/eq_check.py:601-622 | A bit has a driver exactly when an input port has the bit, an assign sets it, or an instance of a cell that is not refused has it at that place of a pin which the library, or the macro's port list, calls an output |
| ClockTree.StructureCheck.ClockDepth | formal_eq/eq_check.py:624-650 | The walk always ends; it returns a depth exactly when the bit is the clk port through assigns and buffers only, and the depth is the number of buffers |
| ClockTree.StructureCheck.CheckClocks | formal_eq/eq_check.py:652-674 | No complaint exactly when every clock pin is the clock; then the reported depths are those of the flip-flops and macros |
| ClockTree.PortsAndPinsAre | formal_eq/eq_check.py:580-673 | The ports are right exactly when each expected one has its direction and width; a macro is when all its pins are connected and a one-bit A_CLK is the clock |
| ClockTree.ClockBitOfMacro | formal_eq/eq_check.py:663-672 | Depths are reported for the macros whose A_CLK is connected to one bit |
| ClockTree.StructureCheck.Analyse | formal_eq/eq_check.py:561-693 | No errors if and only if all preconditions hold, and then the depths reported are the numbers of buffers on the clock paths |
| ClockTree.BufferAddsOne | formal_eq/eq_check.py:624-650 | An instance of a cell whose output is its input puts its output bit one buffer further from clk than its input bit |
| ClockTree.AssignAddsNothing | formal_eq/eq_check.py:624-650 | An assign puts its target at the same depth |
| ClockTree.BufferedFlop | formal_eq/eq_check.py:652-662 | A flip-flop clocked from clk through one buffer is accepted, with depth 1 |
| ClockTree.PinBitsAre | formal_eq/eq_check.py:652-672 | The bits on a pin are those that the instance connects to that name, none without it |
| ClockTree.PathIsUnique | formal_eq/eq_check.py:624-650 | A bit has one clock path: its length and number of buffers are determined by the drivers |
| ClockTree.LoopNeverReaches | formal_eq/eq_check.py:629-631 | A walk that returns to a bit shows that the bit has no clock path |
| ClockTree.ClockValue | formal_eq/eq_check.py:624-650 | Every valuation that respects the assigns and the buffers gives a bit with a clock path the value of clk |
| ClockTree.ClockSoundness | formal_eq/eq_check.py:561-674 | When the preconditions hold, every such valuation gives each flip-flop clock pin and each one-bit A_CLK the value of clk |
| NearestGate.GateTable | formal_eq/eq_check.py:707-715 | The driver map of library cells other than the macro, the last driver of a bit counting |
| NearestGate.FeedsMeaning | formal_eq/eq_check.py:707-739 | When no net has two drivers, a backward step from a bit leads exactly to its assign source, or from an output pin of a library cell to what the instance connects to a pin that the library calls an input |
| NearestGate.SearchLevel | formal_eq/eq_check.py:722-740 | One level finds exactly the wanted gates of its unseen bits and collects where the other bits lead |
| NearestGate.NearestMeaning | formal_eq/eq_check.py:719-751 | In terms of the netlist: a wanted gate is reachable exactly when an instance of the cell drives a bit some steps behind an output, and the nearest is such an instance with the fewest steps, least by name |
| NearestGate.Search | formal_eq/eq_check.py:719-751 | Ends on every netlist; finds nothing exactly when no wanted gate is reachable; otherwise returns a gate at minimal backward distance, least by name there, and that distance |
| NearestGate.NearestIsUnique | formal_eq/eq_check.py:741-748 | The chosen gate and level are determined, whatever order a level is visited in |
| NearestGate.MutateNearOutput | formal_eq/eq_check.py:698-751 | Unknown cells, differing pin names and unreachability are refused exactly when they occur; otherwise exactly the chosen instance's cell changes, and without double drivers it is an instance that drives a bit the fewest netlist steps behind the outputs, least by name |
| SramModels.InvSimulatesMacro | campaigns/mutation/equiv_inv.py:83-92 | From any contents and equal outputs, free words exist that make gd the macro's output in every cycle if and only if every write-through writes the word already on the output |
| SramModels.InvSimulatesPlain | campaigns/mutation/equiv_inv.py:83-92 | For a RAM whose writes leave the output alone, such words exist for every run, and lv implies that gd is the stored word at la throughout |
| SramModels.InvTracks | campaigns/mutation/equiv_inv.py:83-92 | One edge keeps the invariant with the macro unless a write-through changes its output, and then gd is wrong |
| SramModels.RereadKeeps | campaigns/mutation/equiv_inv.py:83-92 | Reading the address just read again keeps the modelled output, whatever the free word |
| SramModels.DisabledKeeps | campaigns/mutation/equiv_inv.py:83-92 | Without the memory enable neither model changes |
| SramModels.ReadIsFree | campaigns/mutation/equiv_inv.py:83-92 | After a plain write, or a read of another address, a read delivers the free word |
| SramModels.RamIsMemory | models/RM_IHPSG13_1P_core_behavioral.v:67-77 | A cell of the macro holds the word of the last enabled write to it, else its first content |
| SramModels.ReadDelivers | models/RM_IHPSG13_1P_core_behavioral.v:67-77 | An enabled read delivers the last word written, in the same cycle too, and otherwise the output stays |
| SramModels.WriteThroughIsMissed | models/RM_IHPSG13_1P_core_behavioral.v:67-77 | One write-through of a new word is missed for every choice of free word |
| SramModels.RegSimulatesMacro | campaigns/mutation/mk_miter.py:121-132 | The miter's register follows the macro if and only if no write-through changes the output at the address it remembers |
| SramModels.ReadRegister.Edge | campaigns/mutation/equiv_inv.py:87-91 | The clocked block takes the registers one step and keeps them on the macro except at a missed write-through |
| MiterSoundness.TwoCopySafety | campaigns/mutation/mk_miter.py:109-120 | From equal contents and outputs, while w_ok holds each cycle, the contents stay equal and the outputs are equal whenever same is set, also after different addresses were read |
| MiterSoundness.CopiesAre | campaigns/mutation/mk_miter.py:109-120 | Each copy is the macro under its own accesses, and same says whether the last cycle in which a copy read was a read of one address by both |
| MiterSoundness.Tracker.Edge | campaigns/mutation/mk_miter.py:113-120 | The clocked assignment of same keeps that relation |
| MiterSoundness.ReadWords | campaigns/mutation/mk_miter.py:121-137 | The mutated copy reads what the gold copy reads while same holds, or throughout without SHARED, and a free word otherwise |
| MiterSoundness.ReplayMirrors | campaigns/mutation/mk_miter.py:104-137 | Given a proof of the assertion and agreement up to its first cycle, the free inputs can be chosen so that the miter's cores, tracking and read registers follow two real systems cycle by cycle, and the copies agree throughout |
| MiterSoundness.MiterIsSound | campaigns/mutation/mk_miter.py:154-186 | If the assertion is proved for all free words, then with real macros, for any common contents and inputs, pins and SRAM traffic agree in every asserted cycle, in all three modes, given that the macros agree up to the first asserted cycle and, with REG, that the gold copy makes no access which that register misses |
| MiterSoundness.ProvenThroughout | campaigns/mutation/mk_miter.py:154-186 | With the assertion in every cycle the pins agree in every cycle and nothing is assumed about the first ones |
| MiterSoundness.TrafficKeepsAgreement | campaigns/mutation/mk_miter.py:109-120 | A cycle in which the real traffic of the copies agrees keeps their macros in agreement |
| MiterSoundness.FirstEdgeDecides | campaigns/mutation/mk_miter.py:181-185 | With the assertion skipped in the first cycle, the macros agree in every later cycle if and only if they agree after its clock edge |
| MiterSoundness.FirstCycleMatters | campaigns/mutation/mk_miter.py:181-185 | Without agreement in the unasserted first cycle a provably equal mutant differs with real macros |
| RowCut.TilesAreFilled | variants6x4/row_islands.py:60-93 | For every tile size the rows fill the die up to the margins with whole sites and rows |
| RowCut.Sweep | variants6x4/row_islands.py:157-168 | The sweep over the sorted blockages of a row emits the segments of the specification |
| RowCut.KeptWhenFree | variants6x4/row_islands.py:157-168 | A core site lies in a segment if and only if no blockage overlaps it |
| RowCut.ProperWithoutOverrun | variants6x4/row_islands.py:157-168 | The segments are ordered, disjoint, on the site grid, inside the core and at least a site wide if and only if no blockage starts a site or more beyond earlier ones that already reach the right edge |
| RowCut.InsideMeansNoOverrun | variants6x4/row_islands.py:157-168 | Blockages that start at or before the right edge never overrun |
| RowCut.OverrunIsLoneBlockage | variants6x4/row_islands.py:157-168 | In terms of the blockages alone: nothing overruns if and only if each blockage behind one that leaves no whole site at the right edge starts less than a site beyond the site boundary where some earlier one ends |
| RowCut.RowSegments | variants6x4/row_islands.py:147-169 | Every row is the cut of the macros with their halos and the obstructions that reach into it |
| RowCut.RowsFillCore | variants6x4/row_islands.py:147-156 | Row 0 starts at the core's bottom, every row is one row height high and ends where the next starts, and on a tile the last one ends at the core's top |
| RowCut.KeptSiteIsClear | variants6x4/row_islands.py:147-169 | In coordinates: a site of row r is kept if and only if every macro with its halo, and every obstruction, ends at or before it, starts at or after its end, or lies below or above the row |
| RowCut.RowKeepsFreeSites | variants6x4/row_islands.py:147-169 | A site of a row is kept if and only if its rectangle overlaps no macro with its halo and no obstruction |
| RowCut.RowIsProper | variants6x4/row_islands.py:147-169 | Rows cut by boxes are proper exactly without overrun |
| RowCut.OverrunOnTile | variants6x4/row_islands.py:147-169 | Two obstructions on the core of a 1x1 tile whose row gets a segment that ends before it starts |
| FreeRuns.SegmentsAreRuns | variants6x4/row_islands.py:157-168 | The segments are exactly the longest runs of free sites, which only a blockage without width can split, if and only if nothing overruns |
| RowCut.ClosureHalo | variants6x4/row_islands.py:198-227 | The gaps in the order of the macros and the largest halo that one of them asks for, 0 without gaps |
| RowCut.GapsAreGaps | variants6x4/row_islands.py:204-226 | A reported gap runs to the nearest macro on the right in shared rows, or to the core edge when there is none, and lacks a stripe of one net |
| RowCut.NextIsFirst | variants6x4/row_islands.py:204-212 | The macro named on the right is the first by left edge, and by name among those with the same one |
| RowCut.EveryGapIsReported | variants6x4/row_islands.py:204-226 | Conversely every such stretch is reported with its bounds, its halo and its left macro; among macros with the same left edge any may be named on the right |
| RowCut.NeedIsSmallest | variants6x4/row_islands.py:198-227 | A halo closes every reported gap if and only if it is at least the reported one |
| RowCut.NoSiteInGap | variants6x4/row_islands.py:147-227 | With at least that halo no site that touches a gap is kept in a row that its bounding macros block |
| RowCut.NoSegmentInGap | variants6x4/row_islands.py:147-227 | So no segment of a proper row reaches into a gap |
| RowIslands.Islands | variants6x4/row_islands.py:172-182 | Exactly the row segments that no VPWR or no VGND stripe overlaps, row by row, and none exactly when every row is free of them |
| RowIslands.IslandFreeRow | variants6x4/row_islands.py:147-182 | A row without overrun has no island if and only if both supplies cross every longest run of sites that the macros with their halos and the obstructions leave free |
| RowIslands.IslandFreeByStretches | variants6x4/row_islands.py:147-182 | Without obstructions and with the macros in the core: if and only if, of every stretch between neighbouring macros of the row or the core edges, the halos leave less than a site or both supplies cross what they leave |
| RowIslands.IslandFreeAtClosure | variants6x4/row_islands.py:147-227 | With at least the closure halo: if and only if that holds for every stretch that is not a reported gap |
| RowIslands.UnsuppliedIsReported | variants6x4/row_islands.py:198-227 | Where the macros that reach into a row share rows exactly with each other, every stretch of the row that lacks a supply is a reported gap |
| RowIslands.IslandFreeBand | variants6x4/row_islands.py:147-227 | In such a row, with at least the closure halo: if and only if it holds for the stretches that have both supplies |
| RowIslands.IslandsAvoidGaps | variants6x4/row_islands.py:147-227 | With at least the reported halo no island of a proper row reaches into a reported gap that bounds the row |
| RowIslands.KeptSitesAreSupplied | variants6x4/row_islands.py:147-227 | In such a row, whatever the obstructions, every kept site lies in a stretch between neighbouring macros of the row that has both supplies |
| RowIslands.TileIsCore | variants6x4/row_islands.py:60-93 | The core used in the two examples below is that of the 1x1 tile |
| RowIslands.StaggeredMacrosKeepIsland | variants6x4/row_islands.py:198-299 | Three macros with one reported gap, and an island that remains at its halo in the rows of the further neighbour |
| RowIslands.HaloCoversStripes | variants6x4/row_islands.py:198-299 | Three macros in one band with one reported gap, and an island at its halo in a stretch that had both stripes |

## Left out

- The chip itself (engines, mover, host port, FIFO, instruction set): only the tooling is modelled.
- Serial ports, subprocesses, file and zip access, JSON reports, plotting, command lines and retry timing.
- Splitting Verilog, Liberty, RTLIL, VCD header and INI text into tokens; vector values, scopes and timescales of VCD.
- CycleRecovery.ExactRecovery: the premise is that the estimate in use is exact; `RecoveryIsExact` has none about the estimate and is exact, `TameCaptureIsExact` is sufficient and easier to check.
- CycleRecovery.RecoverCycles: floating-point rounding, the empty input and the final arc statistics (lines 539-542 and 600-617) are not modelled.
- PatternDetect.DetectedPatternIsSound: the code tests 3k + 64 events only, so nothing is claimed about the capture outside the tested window; FramesAgainst decides that.
- RunVerdict.Verdict: the total-variation comparison of runs in sample units (lines 1174-1179) is statistical and left out.
- RunVerdict.ClassStats: means and standard deviations per slot are left out.
- RunVerdict.Analyse: the list of frame offsets per capture is left out.
- RunVerdict.Judge: trimming by skip_cycles and max_cycles happens before the captures modelled here.
- FrameHistogram.HistogramCountsFrames: interval_histograms over whole captures and the rounding to four digits are left out.
- UartWindow.DecodesWindow: the capture begins at or before the window (line 1055 passes the extent of the capture); lines that send breaks or wrong stop bits are left out.
- Srzip.WriteData: change lists have non-decreasing indices up to the total, and SrzipRoundTrip takes unit values that fit in the unit size.
- Srzip.ColumnSums: a 64-bit shift by 64 or more is taken to give 0, as numpy does for unsigned words.
- ScopeVcd.ReadVcd: identifiers and names are single characters and channel numbers; vector and real values, scopes, timescale and sample rate are left out; a scalar x or z is an unknown level.
- ScopeVcd.ReadValues: vector and real value lines are left out.
- ScopeVcd.WriteVcd: the version, comment, timescale and scope lines are left out.
- ConeHash.EqualHashesComputeAlike: collisions of the hash function are excluded by modelling it as injective; labels are an input (pair_labels and own_label are left out).
- ClockTree.StructureCheck.Analyse: messages are kinds of problems, in the order of the instances; the counts by role in the report are left out. Instances named "port" or "assign" would be mistaken for ports and assigns by the code; the model keeps them apart.
- ClockTree.ClockSoundness: an A_CLK connected to more than one bit is not checked by the code, so nothing is claimed about it.
- NearestGate.MutateNearOutput: text splicing of the cell name is a change of the instance's cell; mutate_sram_din_swap is left out.
- MiterSoundness.MiterIsSound: cores are arbitrary step functions; extra.vh invariants, MITER_STATE and the REG mode without SHARED are left out, and power-up reset is part of the inputs.
- SramModels.InvSimulatesMacro: the Yosys equivalence flow around the emitted Verilog (matching points, liveness-masked views) is left out.
- RowCut.RowIsProper: boxes have their left edge at or before their right edge and the halo is not negative.
- RowCut.OverrunIsLoneBlockage: the core has at least one site.
- RowIslands.IslandFreeAtClosure: macros lie in the core and have a positive width; obstructions are covered by `IslandFreeRow` only.
- RowCut.ClosureHalo: stripes are an input, grouping islands into channels is left out.
- Campaign bookkeeping, result-string parsing and the other breadth-first searches, which repeat the nearest-gate argument.
