/**
 The verdict on a run of one or more captures (demo/pe_capture.py: the frame part of analyze,
 class_stats, verdict).
 */
module RunVerdict {
  import opened Results
  import opened Arith
  import opened FrameCheck

  // ------------------------------------------------------------ several captures together

  datatype Run = Run(info: FrameInfo, frames: seq<Frame>, anchors: seq<nat>)

  datatype Aggregate = Aggregate(found: bool, complete: nat, identical: nat, onGrid: nat, lengths: multiset<int>,
                                 departure: Option<(nat, Departure)>)

  ghost predicate Analysed(segments: seq<seq<Event>>, pattern: Pattern, period: int, runs: seq<Run>) {
    && |runs| == |segments|
    && forall s | 0 <= s < |runs| ::
         Describes(runs[s].info, runs[s].frames, runs[s].anchors, segments[s], pattern, period)
  }

  function AllFrames(runs: seq<Run>): seq<Frame> {
    if runs == [] then [] else AllFrames(runs[..|runs| - 1]) + runs[|runs| - 1].frames
  }

  /** Complete frames, identical frames, events on the grid and frame lengths over all captures. */
  function Sum(runs: seq<Run>): (r: (nat, nat, nat, multiset<int>)) {
    if runs == [] then (0, 0, 0, multiset{})
    else
      var before, info := Sum(runs[..|runs| - 1]), runs[|runs| - 1].info;
      (before.0 + info.complete, before.1 + info.identical, before.2 + info.onGrid, before.3 + info.lengths)
  }

  /** The totals are those of each capture, added up. */
  lemma SumOfOne(runs: seq<Run>, run: Run)
    ensures var a, i := Sum(runs), run.info;
      Sum(runs + [run]) == (a.0 + i.complete, a.1 + i.identical, a.2 + i.onGrid, a.3 + i.lengths)
    ensures Sum([]) == (0, 0, 0, multiset{})
    ensures AllFrames(runs + [run]) == AllFrames(runs) + run.frames && AllFrames([]) == []
  {
    assert (runs + [run])[..|runs|] == runs;
  }

  ghost predicate Totals(agg: Aggregate, runs: seq<Run>) {
    && (agg.complete, agg.identical, agg.onGrid, agg.lengths) == Sum(runs)
    && (agg.found <==> exists s | 0 <= s < |runs| :: runs[s].info.first.Some?)
    && (forall s | 0 <= s < |runs| && (agg.departure.None? || s < agg.departure.value.0) ::
          runs[s].info.departure.None?)
    && (agg.departure.Some? ==>
          && agg.departure.value.0 < |runs|
          && runs[agg.departure.value.0].info.departure == Some(agg.departure.value.1))
  }

  method Analyse(segments: seq<seq<Event>>, pattern: Pattern, period: int) returns (agg: Aggregate, runs: seq<Run>)
    ensures Analysed(segments, pattern, period, runs) && Totals(agg, runs)
  {
    hide Describes;
    runs := [];
    agg := Aggregate(false, 0, 0, 0, multiset{}, None);
    for s := 0 to |segments|
      invariant |runs| == s && Totals(agg, runs)
      invariant forall s' | 0 <= s' < s ::
        Describes(runs[s'].info, runs[s'].frames, runs[s'].anchors, segments[s'], pattern, period)
    {
      var info, frames, anchors := FramesAgainst(segments[s], pattern, period);
      ghost var before := runs;
      runs := runs + [Run(info, frames, anchors)];
      assert runs[..s] == before;
      var departure := if agg.departure.None? && info.departure.Some? then Some((s, info.departure.value))
                       else agg.departure;
      agg := Aggregate(agg.found || info.first.Some?, agg.complete + info.complete,
                       agg.identical + info.identical, agg.onGrid + info.onGrid, agg.lengths + info.lengths, departure);
    }
  }

  // ------------------------------------------------------------ the verdict

  datatype Reason = NoPattern | OtherPattern | Departs | NoFrame | FramesDiffer(count: nat)

  method Verdict(pattern: Option<(Pattern, int)>, reference: Option<(Pattern, int)>, agg: Aggregate)
    returns (same: bool, reasons: seq<Reason>)
    requires agg.identical <= agg.complete
    ensures same <==> reasons == []
    ensures NoPattern in reasons <==> pattern.None?
    ensures pattern.Some? ==> (OtherPattern in reasons <==> reference.Some? && reference != pattern)
    ensures pattern.Some? ==> (Departs in reasons <==> agg.departure.Some?)
    ensures pattern.Some? ==> (NoFrame in reasons <==> agg.complete == 0)
    ensures pattern.Some? ==> forall n :: FramesDiffer(n) in reasons <==> n == agg.complete - agg.identical > 0
  {
    reasons := [];
    if pattern.None? {
      reasons := reasons + [NoPattern];
    } else {
      if reference.Some? && pattern.value != reference.value { reasons := reasons + [OtherPattern]; }
      if agg.departure.Some? { reasons := reasons + [Departs]; }
      if agg.complete == 0 {
        reasons := reasons + [NoFrame];
      } else if agg.identical != agg.complete {
        reasons := reasons + [FramesDiffer(agg.complete - agg.identical)];
      }
    }
    same := reasons == [];
  }

  // ------------------------------------------------------------ what the verdict means

  ghost predicate FirstAnchor(events: seq<Event>, pattern: Pattern, period: int, a: nat) {
    IsAnchor(events, pattern, period, a) && forall i | 0 <= i < a :: !IsAnchor(events, pattern, period, i)
  }

  ghost predicate TwoAnchors(events: seq<Event>, pattern: Pattern, period: int) {
    exists a, b | 0 <= a < b :: IsAnchor(events, pattern, period, a) && IsAnchor(events, pattern, period, b)
  }

  /** From its first anchor on, every event of the capture is where the schedule puts it. */
  ghost predicate Follows(events: seq<Event>, pattern: Pattern, period: int) {
    forall a | FirstAnchor(events, pattern, period, a) :: OnGrid(events, pattern, period, a)
  }

  lemma AnchorList(anchors: seq<nat>, events: seq<Event>, pattern: Pattern, period: int)
    requires AreAnchors(anchors, events, pattern, period)
    ensures anchors != [] ==> FirstAnchor(events, pattern, period, anchors[0])
    ensures forall a | FirstAnchor(events, pattern, period, a) :: anchors != [] && a == anchors[0]
    ensures |anchors| >= 2 <==> TwoAnchors(events, pattern, period)
  {
    hide IsAnchor;
    if anchors != [] {
      assert anchors[0] in anchors;
      forall i | 0 <= i < anchors[0] ensures i !in anchors {}
    }
    forall a | FirstAnchor(events, pattern, period, a) ensures anchors != [] && a == anchors[0] {
      assert a in anchors && anchors[0] in anchors;
    }
    if |anchors| >= 2 {
      assert anchors[0] in anchors && anchors[1] in anchors;
    }
    if TwoAnchors(events, pattern, period) {
      var a: nat, b: nat :| a < b && IsAnchor(events, pattern, period, a) && IsAnchor(events, pattern, period, b);
      assert a in anchors && b in anchors;
    }
  }

  /** One capture raises no objection exactly when it has no complete frame or follows the schedule. */
  lemma CleanCapture(events: seq<Event>, pattern: Pattern, period: int, run: Run)
    requires Describes(run.info, run.frames, run.anchors, events, pattern, period)
    ensures run.info.complete > 0 <==> TwoAnchors(events, pattern, period)
    ensures run.info.departure.None? && run.info.identical == run.info.complete
      <==> (TwoAnchors(events, pattern, period) ==> OneAnchor(pattern, period) && Follows(events, pattern, period))
  {
    hide OneAnchor, OnGrid, IsAnchor, Identical, FrameOf, FirstAnchor, TwoAnchors;
    AnchorList(run.anchors, events, pattern, period);
    if run.frames != [] {
      if run.info.departure.None? && run.info.identical == run.info.complete {
        assert run.frames[0] in run.frames;
        assert run.info.first == Some(0);
        PeriodicAfterStart(events, pattern, period, run.info, run.frames, run.anchors);
      }
      if OneAnchor(pattern, period) && Follows(events, pattern, period) {
        GridHasNoDeparture(events, pattern, period, run);
      }
    }
  }

  lemma GridHasNoDeparture(events: seq<Event>, pattern: Pattern, period: int, run: Run)
    requires Describes(run.info, run.frames, run.anchors, events, pattern, period) && run.frames != []
    requires OneAnchor(pattern, period) && OnGrid(events, pattern, period, run.anchors[0])
    ensures run.info.departure.None? && run.info.identical == run.info.complete
  {
    hide IsAnchor, OneAnchor, FrameOf;
    forall y | 0 <= y < |run.frames| ensures Identical(run.frames[y], pattern, period) {
      hide Identical;
      FramesOnGrid(events, pattern, period, run.frames, run.anchors, 0, y);
    }
    assert run.frames[0] in run.frames;
    assert run.info.first == Some(0);
  }

  /** A run follows the schedule: some capture shows a frame, and each that does stays on the grid. */
  ghost predicate RunFollows(segments: seq<seq<Event>>, pattern: Pattern, period: int) {
    && OneAnchor(pattern, period)
    && (exists s | 0 <= s < |segments| :: TwoAnchors(segments[s], pattern, period))
    && forall s | 0 <= s < |segments| && TwoAnchors(segments[s], pattern, period) ::
         Follows(segments[s], pattern, period)
  }

  lemma {:induction false} SumIsClean(runs: seq<Run>)
    requires forall s | 0 <= s < |runs| :: runs[s].info.identical <= runs[s].info.complete
    ensures Sum(runs).1 <= Sum(runs).0
    ensures Sum(runs).0 > 0 <==> exists s | 0 <= s < |runs| :: runs[s].info.complete > 0
    ensures Sum(runs).0 == Sum(runs).1
      <==> forall s | 0 <= s < |runs| :: runs[s].info.identical == runs[s].info.complete
  {
    if runs != [] {
      var front := runs[..|runs| - 1];
      SumIsClean(front);
      assert forall s | 0 <= s < |front| :: front[s] == runs[s];
    }
  }

  /**
   The verdict is exact. Checked against its reference, a run is called "same" if and only if the
   pattern has a single anchor position, some capture shows a complete frame, and every capture
   that shows one has all its events from its first anchor on at their scheduled cycles.
   */
  method Judge(segments: seq<seq<Event>>, pattern: Pattern, period: int, reference: Option<(Pattern, int)>)
    returns (same: bool, reasons: seq<Reason>)
    ensures same <==> (reference.None? || reference == Some((pattern, period))) && RunFollows(segments, pattern, period)
  {
    var agg, runs := Analyse(segments, pattern, period);
    AggregateIsExact(segments, pattern, period, agg, runs);
    same, reasons := Verdict(Some((pattern, period)), reference, agg);
    assert forall r | r in reasons :: r.NoPattern? || r.OtherPattern? || r.Departs? || r.NoFrame? || r.FramesDiffer?;
    assert FramesDiffer(agg.complete - agg.identical) in reasons <==> agg.complete > agg.identical;
    if reasons != [] {
      assert reasons[0] in reasons;
      assert reasons[0].FramesDiffer? ==> FramesDiffer(reasons[0].count) in reasons;
    }
  }

  lemma AggregateIsExact(segments: seq<seq<Event>>, pattern: Pattern, period: int, agg: Aggregate, runs: seq<Run>)
    requires Analysed(segments, pattern, period, runs) && Totals(agg, runs)
    ensures agg.identical <= agg.complete
    ensures agg.departure.None? && agg.complete > 0 && agg.identical == agg.complete
      <==> RunFollows(segments, pattern, period)
  {
    hide OneAnchor, TwoAnchors, Follows, Describes;
    forall s | 0 <= s < |runs|
      ensures runs[s].info.identical <= runs[s].info.complete
      ensures runs[s].info.complete > 0 <==> TwoAnchors(segments[s], pattern, period)
      ensures runs[s].info.departure.None? && runs[s].info.identical == runs[s].info.complete
        <==> (TwoAnchors(segments[s], pattern, period)
              ==> OneAnchor(pattern, period) && Follows(segments[s], pattern, period))
    {
      CleanCapture(segments[s], pattern, period, runs[s]);
      IdenticalAtMostComplete(segments[s], pattern, period, runs[s]);
    }
    SumIsClean(runs);
  }

  lemma IdenticalAtMostComplete(events: seq<Event>, pattern: Pattern, period: int, run: Run)
    requires Describes(run.info, run.frames, run.anchors, events, pattern, period)
    ensures run.info.identical <= run.info.complete
  {
  }

  // ------------------------------------------------------------ windows of a periodic signal

  /**
   Every window of the endless repetition of a one-anchor pattern follows the schedule, wherever
   the window starts: its first anchor is a frame start.
   */
  lemma WindowFollows(events: seq<Event>, pattern: Pattern, period: int, c0: int, shift: int)
    requires OneAnchor(pattern, period)
    requires forall i | 0 <= i < |events| :: events[i] == Scheduled(pattern, period, c0, i + shift)
    ensures Follows(events, pattern, period)
  {
    hide Scheduled, OneAnchor, IsAnchor;
    forall a: nat | FirstAnchor(events, pattern, period, a) ensures OnGrid(events, pattern, period, a) {
      AnchorStartsFrame(events, pattern, period, c0, shift, a);
      forall i | a <= i < |events| ensures events[i] == Scheduled(pattern, period, events[a].cycle, i - a) {
        ScheduleFromFrameStart(pattern, period, c0, a + shift, i - a);
        assert i + shift == a + shift + (i - a);
      }
    }
  }

  /** In such a window only slot 0 is an anchor. */
  lemma AnchorStartsFrame(events: seq<Event>, pattern: Pattern, period: int, c0: int, shift: int, a: nat)
    requires OneAnchor(pattern, period) && IsAnchor(events, pattern, period, a)
    requires forall i | 0 <= i < |events| :: events[i] == Scheduled(pattern, period, c0, i + shift)
    ensures a < |events| && pattern[0].offset == 0 && (a + shift) % |pattern| == 0
    ensures events[a].cycle == Scheduled(pattern, period, c0, a + shift).cycle
  {
    hide QuietGap;
    ScheduledGap(pattern, period, c0, a + shift);
    assert events[a - 1] == Scheduled(pattern, period, c0, a - 1 + shift);
    assert events[a] == Scheduled(pattern, period, c0, a + shift);
  }

  lemma ScheduleFromFrameStart(pattern: Pattern, period: int, c0: int, j: int, d: int)
    requires pattern[0].offset == 0 && j % |pattern| == 0
    ensures Scheduled(pattern, period, Scheduled(pattern, period, c0, j).cycle, d) == Scheduled(pattern, period, c0, j + d)
  {
    var k, f := |pattern|, j / |pattern|;
    assert j == f * k;
    DivPlus(d, k, f);
    assert (d / k + f) * period == d / k * period + f * period;
  }

  // ------------------------------------------------------------ jitter per slot

  predicate Matches(f: Frame, pattern: Pattern) {
    && |f.body| == |pattern|
    && forall j | 0 <= j < |pattern| :: f.body[j].ch == pattern[j].ch && f.body[j].pol == pattern[j].pol
  }

  function Matching(frames: seq<Frame>, pattern: Pattern): (r: seq<Frame>)
    ensures forall f | f in r :: Matches(f, pattern)
    ensures (forall f | f in frames :: Matches(f, pattern)) ==> r == frames
  {
    if frames == [] then []
    else
      var last := frames[|frames| - 1];
      var front := Matching(frames[..|frames| - 1], pattern);
      if Matches(last, pattern) then front + [last] else front
  }

  /** Exactly the frames that have the pattern's channels and polarities stay, in order. */
  lemma MatchingOfOne(frames: seq<Frame>, f: Frame, pattern: Pattern)
    ensures var kept := |f.body| == |pattern| && forall j | 0 <= j < |pattern| ::
        (f.body[j].ch, f.body[j].pol) == (pattern[j].ch, pattern[j].pol);
      Matching(frames + [f], pattern) == Matching(frames, pattern) + if kept then [f] else []
    ensures Matching([], pattern) == []
  {
    assert (frames + [f])[..|frames|] == frames;
  }

  function Least(xs: seq<int>): (m: int)
    requires xs != []
    ensures m in xs && forall x | x in xs :: m <= x
  {
    if |xs| == 1 then xs[0]
    else
      var m := Least(xs[1..]);
      assert forall x | x in xs :: x == xs[0] || x in xs[1..];
      if xs[0] < m then xs[0] else m
  }

  function Greatest(xs: seq<int>): (m: int)
    requires xs != []
    ensures m in xs && forall x | x in xs :: x <= m
  {
    if |xs| == 1 then xs[0]
    else
      var m := Greatest(xs[1..]);
      assert forall x | x in xs :: x == xs[0] || x in xs[1..];
      if xs[0] > m then xs[0] else m
  }

  /** slots holds the least and the greatest offset of each slot; it is empty when no frame matches. */
  datatype Stats = Stats(matched: nat, peakToPeak: Option<int>, lengths: Option<(int, int)>, slots: seq<(int, int)>)

  /** lo and hi are the least and the greatest offset of slot j. */
  ghost predicate SlotBounds(ms: seq<Frame>, j: nat, lo: int, hi: int)
    requires forall f | f in ms :: j < |f.body|
  {
    && (forall f | f in ms :: lo <= f.body[j].offset <= hi)
    && (exists f | f in ms :: f.body[j].offset == lo) && (exists f | f in ms :: f.body[j].offset == hi)
  }

  /** No two frames disagree about slot j by more than peak. */
  ghost predicate SpreadWithin(ms: seq<Frame>, j: nat, peak: int)
    requires forall f | f in ms :: j < |f.body|
  {
    forall f, g | f in ms && g in ms :: f.body[j].offset - g.body[j].offset <= peak
  }

  /** Two frames disagree about slot j by peak. */
  ghost predicate SpreadReached(ms: seq<Frame>, j: nat, peak: int)
    requires forall f | f in ms :: j < |f.body|
  {
    exists f, g | f in ms && g in ms :: f.body[j].offset - g.body[j].offset == peak
  }

  ghost predicate PeakOver(ms: seq<Frame>, n: nat, peak: int)
    requires forall f | f in ms :: n <= |f.body|
  {
    (forall j | 0 <= j < n :: SpreadWithin(ms, j, peak)) && exists j | 0 <= j < n :: SpreadReached(ms, j, peak)
  }

  /** Peak-to-peak jitter: the largest disagreement of two structurally matching frames about a slot. */
  ghost predicate IsStats(stats: Stats, frames: seq<Frame>, pattern: Pattern) {
    var ms := Matching(frames, pattern);
    && stats.matched == |ms|
    && (ms == [] <==> stats.peakToPeak.None?) && (ms == [] <==> stats.lengths.None?) && (ms == [] <==> stats.slots == [])
    && (ms != [] ==>
          && PeakOver(ms, |pattern|, stats.peakToPeak.value)
          && |stats.slots| == |pattern|
          && (forall j | 0 <= j < |pattern| :: SlotBounds(ms, j, stats.slots[j].0, stats.slots[j].1))
          && (forall f | f in ms :: stats.lengths.value.0 <= f.length <= stats.lengths.value.1)
          && (exists f | f in ms :: f.length == stats.lengths.value.0)
          && (exists f | f in ms :: f.length == stats.lengths.value.1))
  }

  function Offsets(ms: seq<Frame>, j: nat): (r: seq<int>)
    requires forall f | f in ms :: j < |f.body|
    ensures |r| == |ms| && forall x | 0 <= x < |ms| :: r[x] == ms[x].body[j].offset
  {
    seq(|ms|, x requires 0 <= x < |ms| => ms[x].body[j].offset)
  }

  /** The offsets of each slot and the frame lengths, over the structurally matching frames. */
  method CollectRows(frames: seq<Frame>, pattern: Pattern) returns (rows: seq<seq<int>>, lengths: seq<int>)
    ensures var ms := Matching(frames, pattern);
      && |rows| == |pattern| && (forall j | 0 <= j < |pattern| :: rows[j] == Offsets(ms, j))
      && |lengths| == |ms| && (forall y | 0 <= y < |ms| :: lengths[y] == ms[y].length)
  {
    rows := seq(|pattern|, _ => []);
    lengths := [];
    ghost var ms: seq<Frame> := [];
    for x := 0 to |frames|
      invariant ms == Matching(frames[..x], pattern)
      invariant |rows| == |pattern| && forall j | 0 <= j < |pattern| :: rows[j] == Offsets(ms, j)
      invariant |lengths| == |ms| && forall y | 0 <= y < |ms| :: lengths[y] == ms[y].length
    {
      assert frames[..x + 1][..x] == frames[..x];
      if Matches(frames[x], pattern) {
        lengths := lengths + [frames[x].length];
        rows := seq(|pattern|, j requires 0 <= j < |pattern| => rows[j] + [frames[x].body[j].offset]);
        ms := ms + [frames[x]];
      }
    }
    assert frames[..|frames|] == frames;
  }

  method ClassStats(frames: seq<Frame>, pattern: Pattern) returns (stats: Stats)
    ensures IsStats(stats, frames, pattern)
  {
    hide PeakOver, SlotBounds;
    var rows, lengths := CollectRows(frames, pattern);
    if lengths == [] { return Stats(0, None, None, []); }
    ghost var ms := Matching(frames, pattern);
    var slots, peak := Summarise(rows, ms);
    LengthBounds(ms, lengths);
    stats := Stats(|lengths|, Some(peak), Some((Least(lengths), Greatest(lengths))), slots);
  }

  method Summarise(rows: seq<seq<int>>, ghost ms: seq<Frame>) returns (slots: seq<(int, int)>, peak: int)
    requires rows != [] && ms != [] && forall f | f in ms :: |f.body| == |rows|
    requires forall j | 0 <= j < |rows| :: rows[j] == Offsets(ms, j)
    ensures |slots| == |rows| && forall j | 0 <= j < |rows| :: SlotBounds(ms, j, slots[j].0, slots[j].1)
    ensures PeakOver(ms, |rows|, peak)
  {
    hide PeakOver, SlotBounds, Offsets;
    slots, peak := [(Least(rows[0]), Greatest(rows[0]))], Greatest(rows[0]) - Least(rows[0]);
    RowBounds(ms, 0);
    PeakOfFirst(ms, slots[0].0, slots[0].1);
    for j := 1 to |rows|
      invariant |slots| == j && forall i | 0 <= i < j :: SlotBounds(ms, i, slots[i].0, slots[i].1)
      invariant PeakOver(ms, j, peak)
    {
      var lo, hi := Least(rows[j]), Greatest(rows[j]);
      RowBounds(ms, j);
      PeakOfNext(ms, j, peak, lo, hi);
      slots := slots + [(lo, hi)];
      if hi - lo > peak { peak := hi - lo; }
    }
  }

  lemma RowBounds(ms: seq<Frame>, j: nat)
    requires ms != [] && forall f | f in ms :: j < |f.body|
    ensures SlotBounds(ms, j, Least(Offsets(ms, j)), Greatest(Offsets(ms, j)))
  {
    var row := Offsets(ms, j);
    forall f | f in ms ensures f.body[j].offset in row {
      var x :| 0 <= x < |ms| && ms[x] == f;
      assert row[x] == f.body[j].offset;
    }
    var x :| 0 <= x < |row| && row[x] == Greatest(row);
    var y :| 0 <= y < |row| && row[y] == Least(row);
    assert ms[x] in ms && ms[y] in ms;
  }

  lemma SpreadOfSlot(ms: seq<Frame>, j: nat, lo: int, hi: int)
    requires (forall f | f in ms :: j < |f.body|) && SlotBounds(ms, j, lo, hi)
    ensures SpreadWithin(ms, j, hi - lo) && SpreadReached(ms, j, hi - lo)
  {
    var g :| g in ms && g.body[j].offset == lo;
    var f :| f in ms && f.body[j].offset == hi;
    assert f.body[j].offset - g.body[j].offset == hi - lo;
  }

  lemma PeakOfFirst(ms: seq<Frame>, lo: int, hi: int)
    requires (forall f | f in ms :: 1 <= |f.body|) && SlotBounds(ms, 0, lo, hi)
    ensures PeakOver(ms, 1, hi - lo)
  {
    hide SlotBounds, SpreadWithin, SpreadReached;
    SpreadOfSlot(ms, 0, lo, hi);
  }

  lemma WithinMore(ms: seq<Frame>, j: nat, peak: int, more: int)
    requires (forall f | f in ms :: j < |f.body|) && SpreadWithin(ms, j, peak) && peak <= more
    ensures SpreadWithin(ms, j, more)
  {
  }

  lemma PeakOfNext(ms: seq<Frame>, j: nat, peak: int, lo: int, hi: int)
    requires (forall f | f in ms :: j + 1 <= |f.body|) && PeakOver(ms, j, peak) && SlotBounds(ms, j, lo, hi)
    ensures PeakOver(ms, j + 1, if hi - lo > peak then hi - lo else peak)
  {
    hide SlotBounds, SpreadWithin, SpreadReached;
    SpreadOfSlot(ms, j, lo, hi);
    var top := if hi - lo > peak then hi - lo else peak;
    forall i | 0 <= i < j + 1 ensures SpreadWithin(ms, i, top) {
      WithinMore(ms, i, if i < j then peak else hi - lo, top);
    }
  }

  lemma LengthBounds(ms: seq<Frame>, lengths: seq<int>)
    requires ms != [] && |lengths| == |ms| && forall y | 0 <= y < |ms| :: lengths[y] == ms[y].length
    ensures forall f | f in ms :: Least(lengths) <= f.length <= Greatest(lengths)
    ensures exists f | f in ms :: f.length == Least(lengths)
    ensures exists f | f in ms :: f.length == Greatest(lengths)
  {
    var x :| 0 <= x < |lengths| && lengths[x] == Least(lengths);
    var y :| 0 <= y < |lengths| && lengths[y] == Greatest(lengths);
    assert ms[x] in ms && ms[y] in ms;
    forall f | f in ms ensures f.length in lengths {
      var z :| 0 <= z < |ms| && ms[z] == f;
      assert lengths[z] == f.length;
    }
  }

  /** No jitter: every slot at its own offset. */
  function Still(pattern: Pattern): seq<(int, int)> {
    seq(|pattern|, j requires 0 <= j < |pattern| => (pattern[j].offset, pattern[j].offset))
  }

  lemma AllMatch(frames: seq<Frame>, pattern: Pattern, period: int)
    requires forall f | f in frames :: Identical(f, pattern, period)
    ensures Matching(frames, pattern) == frames
    ensures forall f | f in frames :: |f.body| == |pattern| && f.length == period
  {
  }

  lemma NoSpread(ms: seq<Frame>, pattern: Pattern, period: int, peak: int)
    requires forall f | f in ms :: |f.body| == |pattern| && Identical(f, pattern, period)
    requires PeakOver(ms, |pattern|, peak)
    ensures peak == 0
  {
    var j :| 0 <= j < |pattern| && SpreadReached(ms, j, peak);
  }

  lemma OneOffset(ms: seq<Frame>, pattern: Pattern, period: int, j: nat, lo: int, hi: int)
    requires forall f | f in ms :: |f.body| == |pattern| && Identical(f, pattern, period)
    requires j < |pattern| && SlotBounds(ms, j, lo, hi)
    ensures lo == hi == pattern[j].offset
  {
  }

  /** Frames that all equal the pattern have no jitter and one length. */
  lemma IdenticalFramesHaveNoJitter(frames: seq<Frame>, pattern: Pattern, period: int, stats: Stats)
    requires frames != [] && IsStats(stats, frames, pattern)
    requires forall f | f in frames :: Identical(f, pattern, period)
    ensures stats == Stats(|frames|, Some(0), Some((period, period)), Still(pattern))
  {
    hide PeakOver, SlotBounds, Identical, Matching, Matches;
    AllMatch(frames, pattern, period);
    NoSpread(frames, pattern, period, stats.peakToPeak.value);
    forall j | 0 <= j < |pattern| ensures stats.slots[j] == Still(pattern)[j] {
      OneOffset(frames, pattern, period, j, stats.slots[j].0, stats.slots[j].1);
    }
  }

  /** A run called "same" shows zero jitter, and every frame lasts exactly one period. */
  lemma SameMeansNoJitter(segments: seq<seq<Event>>, pattern: Pattern, period: int, agg: Aggregate, runs: seq<Run>,
                          stats: Stats)
    requires Analysed(segments, pattern, period, runs) && Totals(agg, runs)
    requires RunFollows(segments, pattern, period) && IsStats(stats, AllFrames(runs), pattern)
    ensures stats == Stats(agg.complete, Some(0), Some((period, period)), Still(pattern))
  {
    hide RunFollows, IsStats;
    AggregateIsExact(segments, pattern, period, agg, runs);
    forall s | 0 <= s < |runs| ensures runs[s].info.identical <= runs[s].info.complete {
      IdenticalAtMostComplete(segments[s], pattern, period, runs[s]);
    }
    SumIsClean(runs);
    AllFramesIdentical(segments, pattern, period, runs);
    IdenticalFramesHaveNoJitter(AllFrames(runs), pattern, period, stats);
  }

  lemma {:induction false} AllFramesIdentical(segments: seq<seq<Event>>, pattern: Pattern, period: int, runs: seq<Run>)
    requires Analysed(segments, pattern, period, runs)
    requires forall s | 0 <= s < |runs| :: runs[s].info.identical == runs[s].info.complete
    ensures |AllFrames(runs)| == Sum(runs).0
    ensures forall f | f in AllFrames(runs) :: Identical(f, pattern, period)
  {
    hide Identical, AreAnchors, AreFrames, IsFirstIdentical, FirstDeparture;
    if runs != [] {
      AllFramesIdentical(segments[..|runs| - 1], pattern, period, runs[..|runs| - 1]);
      assert Describes(runs[|runs| - 1].info, runs[|runs| - 1].frames, runs[|runs| - 1].anchors,
                       segments[|runs| - 1], pattern, period);
    }
  }

  /** In one capture with no departure, the frames from the first identical one on have no jitter. */
  lemma NoJitterFromStart(events: seq<Event>, pattern: Pattern, period: int, run: Run, stats: Stats)
    requires Describes(run.info, run.frames, run.anchors, events, pattern, period)
    requires run.info.first.Some? && run.info.departure.None?
    requires IsStats(stats, run.frames[run.info.first.value..], pattern)
    ensures stats == Stats(|run.frames| - run.info.first.value, Some(0), Some((period, period)), Still(pattern))
  {
    hide Identical, IsStats, OnGrid, OneAnchor;
    PeriodicAfterStart(events, pattern, period, run.info, run.frames, run.anchors);
    IdenticalFramesHaveNoJitter(run.frames[run.info.first.value..], pattern, period, stats);
  }
}
