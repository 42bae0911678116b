/**
 Does a capture follow a periodic frame pattern (demo/pe_capture.py: frames_against)?

 A capture is cut at its anchors: edges with the pattern's first signature and at least the
 pattern's quiet gap before them. Frames are the stretches between consecutive anchors.
 */
module FrameCheck {
  import opened Results
  import opened Arith

  /** An edge of channel ch at a clock cycle; pol is the level after it. */
  datatype Event = Event(cycle: int, ch: nat, pol: int)

  /** An edge of the pattern, by its offset from the frame's first edge. */
  datatype Slot = Slot(offset: int, ch: nat, pol: int)

  type Pattern = p: seq<Slot> | p != [] witness [Slot(0, 0, 0)]

  // ------------------------------------------------------------ the periodic schedule

  function Place(s: Slot, cycle: int): Event { Event(cycle + s.offset, s.ch, s.pol) }

  /** Event j of the endless repetition of the pattern whose event 0 starts a frame at cycle c0. */
  function Scheduled(pattern: Pattern, period: int, c0: int, j: int): Event {
    Place(pattern[j % |pattern|], c0 + j / |pattern| * period)
  }

  /** From event a on, the capture is the repetition of the pattern. */
  ghost predicate OnGrid(events: seq<Event>, pattern: Pattern, period: int, a: nat) {
    a < |events| && forall i | a <= i < |events| :: events[i] == Scheduled(pattern, period, events[a].cycle, i - a)
  }

  function QuietGap(pattern: Pattern, period: int): int {
    period - if |pattern| > 1 then pattern[|pattern| - 1].offset else 0
  }

  predicate IsAnchor(events: seq<Event>, pattern: Pattern, period: int, i: nat) {
    && 1 <= i < |events|
    && events[i].ch == pattern[0].ch && events[i].pol == pattern[0].pol
    && events[i].cycle - events[i - 1].cycle >= QuietGap(pattern, period)
  }

  /** An anchor has the first signature and comes as late as the first slot after the last, or a whole period late. */
  lemma AnchorMeans(events: seq<Event>, pattern: Pattern, period: int, i: nat)
    requires pattern != [] && 1 <= i < |events|
    ensures var e, before, last := events[i], events[i - 1].cycle, pattern[|pattern| - 1].offset;
      IsAnchor(events, pattern, period, i) <==>
        && (e.ch, e.pol) == (pattern[0].ch, pattern[0].pol)
        && (if |pattern| == 1 then before + period <= e.cycle else before - last + period <= e.cycle)
  {
  }

  /** Only slot 0 looks like an anchor, and offsets count from it. */
  ghost predicate OneAnchor(pattern: Pattern, period: int) {
    && pattern[0].offset == 0
    && forall m | 1 <= m < |pattern| && pattern[m].ch == pattern[0].ch && pattern[m].pol == pattern[0].pol ::
      pattern[m].offset - pattern[m - 1].offset < QuietGap(pattern, period)
  }

  // ------------------------------------------------------------ frames

  datatype Frame = Frame(base: int, length: int, body: seq<Slot>, start: nat)

  function Body(events: seq<Event>, a: nat, b: nat): (s: seq<Slot>)
    requires a <= b <= |events| && a < |events|
    ensures |s| == b - a
    ensures forall i | 0 <= i < b - a :: Place(s[i], events[a].cycle) == events[a + i]
  {
    seq(b - a, i requires 0 <= i < b - a =>
      Slot(events[a + i].cycle - events[a].cycle, events[a + i].ch, events[a + i].pol))
  }

  function FrameOf(events: seq<Event>, a: nat, b: nat): Frame
    requires a <= b < |events|
  {
    Frame(events[a].cycle, events[b].cycle - events[a].cycle, Body(events, a, b), a)
  }

  predicate Identical(f: Frame, pattern: Pattern, period: int) {
    f.length == period && f.body == pattern
  }

  function CountIdentical(frames: seq<Frame>, pattern: Pattern, period: int): (c: nat)
    ensures c <= |frames|
    ensures c == |frames| <==> forall f | f in frames :: Identical(f, pattern, period)
    ensures c == 0 <==> forall f | f in frames :: !Identical(f, pattern, period)
  {
    if frames == [] then 0
    else
      var rest := CountIdentical(frames[1..], pattern, period);
      assert forall f :: f in frames <==> f == frames[0] || f in frames[1..];
      rest + if Identical(frames[0], pattern, period) then 1 else 0
  }

  datatype Departure =
    | NoMatch(index: nat, cycle: int)
    | OffGrid(index: nat, cycle: int, frame: nat, expected: Event, got: Slot)

  /** What frames_against reports about one capture; first is the index of the first identical frame. */
  datatype FrameInfo = FrameInfo(first: Option<nat>, complete: nat, identical: nat, lengths: multiset<int>,
                                 onGrid: nat, departure: Option<Departure>)

  /** How often each frame length occurs. */
  function Lengths(frames: seq<Frame>): multiset<int> {
    if frames == [] then multiset{} else Lengths(frames[..|frames| - 1]) + multiset{frames[|frames| - 1].length}
  }

  /** An event as seen from the frame that starts at a cycle. */
  function Seen(e: Event, base: int): Slot { Slot(e.cycle - base, e.ch, e.pol) }

  ghost predicate Increasing(xs: seq<nat>) {
    forall x, y | 0 <= x < y < |xs| :: xs[x] < xs[y]
  }

  /** The anchors of a capture, in order. */
  ghost predicate AreAnchors(anchors: seq<nat>, events: seq<Event>, pattern: Pattern, period: int) {
    Increasing(anchors) && forall i: nat :: i in anchors <==> IsAnchor(events, pattern, period, i)
  }

  ghost predicate AreFrames(frames: seq<Frame>, anchors: seq<nat>, events: seq<Event>) {
    && |frames| == (if |anchors| == 0 then 0 else |anchors| - 1)
    && (forall x | 0 <= x < |anchors| :: anchors[x] < |events|)
    && Increasing(anchors)
    && forall x | 0 <= x < |frames| :: frames[x] == FrameOf(events, anchors[x], anchors[x + 1])
  }

  ghost predicate IsFirstIdentical(first: Option<nat>, frames: seq<Frame>, pattern: Pattern, period: int) {
    && (first.Some? ==> first.value < |frames| && Identical(frames[first.value], pattern, period))
    && forall y | 0 <= y < (if first.Some? then first.value else |frames|) :: !Identical(frames[y], pattern, period)
  }

  /** The reported departure is the first event off the grid that starts at event a, in frame first. */
  ghost predicate FirstDeparture(departure: Option<Departure>, onGrid: nat, events: seq<Event>, pattern: Pattern,
                                 period: int, a: nat, first: nat)
    requires a < |events|
  {
    var idx := a + onGrid;
    && idx <= |events|
    && (forall i | a <= i < idx :: events[i] == Scheduled(pattern, period, events[a].cycle, i - a))
    && if departure.None? then idx == |events|
       else
         && idx < |events| && events[idx] != Scheduled(pattern, period, events[a].cycle, onGrid)
         && departure.value == OffGrid(idx, events[idx].cycle, first + onGrid / |pattern|,
                                       Scheduled(pattern, period, events[a].cycle, onGrid),
                                       Seen(events[idx], events[a].cycle + onGrid / |pattern| * period))
  }

  ghost predicate Describes(info: FrameInfo, frames: seq<Frame>, anchors: seq<nat>, events: seq<Event>,
                            pattern: Pattern, period: int)
  {
    && AreAnchors(anchors, events, pattern, period) && AreFrames(frames, anchors, events)
    && info.complete == |frames| && info.identical == CountIdentical(frames, pattern, period)
    && info.lengths == Lengths(frames)
    && IsFirstIdentical(info.first, frames, pattern, period)
    && match info.first {
         case Some(x) =>
           FirstDeparture(info.departure, info.onGrid, events, pattern, period, anchors[x], x)
         case None =>
           info.onGrid == 0
           && info.departure == if frames == [] then None else Some(NoMatch(frames[0].start, frames[0].base))
       }
  }

  /** The counts, over the frames one by one. */
  lemma {:induction false} CountIdenticalIs(frames: seq<Frame>, pattern: Pattern, period: int)
    ensures var flags := seq(|frames|, x requires 0 <= x < |frames| =>
        frames[x].length == period && frames[x].body == pattern);
      CountIdentical(frames, pattern, period) == multiset(flags)[true]
  {
    var flags := seq(|frames|, x requires 0 <= x < |frames| => frames[x].length == period && frames[x].body == pattern);
    if frames != [] {
      CountIdenticalIs(frames[1..], pattern, period);
      var rest := seq(|frames| - 1, x requires 0 <= x < |frames| - 1 =>
        frames[1..][x].length == period && frames[1..][x].body == pattern);
      assert flags == [flags[0]] + rest;
    }
  }

  lemma {:induction false} LengthsAre(frames: seq<Frame>)
    ensures Lengths(frames) == multiset(seq(|frames|, x requires 0 <= x < |frames| => frames[x].length))
  {
    if frames != [] {
      var n := |frames| - 1;
      LengthsAre(frames[..n]);
      var all := seq(|frames|, x requires 0 <= x < |frames| => frames[x].length);
      var front := seq(n, x requires 0 <= x < n => frames[..n][x].length);
      assert all == front + [frames[n].length];
    }
  }

  /** The departure in the capture's own terms: event m of frame f after the start is not where the pattern has it. */
  lemma DepartureMeans(events: seq<Event>, pattern: Pattern, period: int, a: nat, first: nat, onGrid: nat,
                       departure: Departure, f: nat, m: nat)
    requires a < |events| && FirstDeparture(Some(departure), onGrid, events, pattern, period, a, first)
    requires onGrid == f * |pattern| + m && m < |pattern|
    ensures var i, start, slot := a + onGrid, events[a].cycle + f * period, pattern[m];
      && i < |events| && events[i] != Event(start + slot.offset, slot.ch, slot.pol)
      && departure == OffGrid(i, events[i].cycle, first + f, Event(start + slot.offset, slot.ch, slot.pol),
                              Slot(events[i].cycle - start, events[i].ch, events[i].pol))
  {
    DivUnique(onGrid, |pattern|, f, m);
  }

  /** Without an identical frame the first frame is reported. */
  lemma NoMatchMeans(info: FrameInfo, frames: seq<Frame>, anchors: seq<nat>, events: seq<Event>, pattern: Pattern,
                     period: int)
    requires Describes(info, frames, anchors, events, pattern, period) && info.identical == 0
    ensures |anchors| < 2 ==> info.departure.None?
    ensures |anchors| >= 2 ==>
      anchors[0] < |events| && info.departure == Some(NoMatch(anchors[0], events[anchors[0]].cycle))
  {
    hide IsAnchor, Identical;
    if |anchors| >= 2 {
      assert frames[0] == FrameOf(events, anchors[0], anchors[1]);
    }
  }

  method FramesAgainst(events: seq<Event>, pattern: Pattern, period: int)
    returns (info: FrameInfo, frames: seq<Frame>, anchors: seq<nat>)
    ensures Describes(info, frames, anchors, events, pattern, period)
  {
    hide IsAnchor, FirstDeparture, Identical, FrameOf;
    anchors := FindAnchors(events, pattern, period);
    AnchorsInRange(anchors, events, pattern, period);
    frames := [];
    var first: Option<nat>, lengths: multiset<int> := None, multiset{};
    var x := 0;
    while x + 1 < |anchors|
      invariant |frames| == x && (|anchors| == 0 ==> x == 0) && (|anchors| > 0 ==> x < |anchors|)
      invariant forall y | 0 <= y < x :: frames[y] == FrameOf(events, anchors[y], anchors[y + 1])
      invariant IsFirstIdentical(first, frames, pattern, period) && lengths == Lengths(frames)
    {
      var f := FrameOf(events, anchors[x], anchors[x + 1]);
      if Identical(f, pattern, period) && first.None? { first := Some(x); }
      assert (frames + [f])[..x] == frames;
      frames, lengths := frames + [f], lengths + multiset{f.length};
      x := x + 1;
    }
    var departure: Option<Departure>, onGrid: nat := None, 0;
    if first.Some? {
      departure, onGrid := FindDeparture(events, pattern, period, anchors[first.value], first.value);
    } else if frames != [] {
      departure := Some(NoMatch(frames[0].start, frames[0].base));
    }
    info := FrameInfo(first, |frames|, CountIdentical(frames, pattern, period), lengths, onGrid, departure);
  }

  lemma AnchorsInRange(anchors: seq<nat>, events: seq<Event>, pattern: Pattern, period: int)
    requires AreAnchors(anchors, events, pattern, period)
    ensures forall x | 0 <= x < |anchors| :: anchors[x] < |events|
  {
    forall x | 0 <= x < |anchors| ensures anchors[x] < |events| {
      assert IsAnchor(events, pattern, period, anchors[x]);
    }
  }

  method FindAnchors(events: seq<Event>, pattern: Pattern, period: int) returns (anchors: seq<nat>)
    ensures AreAnchors(anchors, events, pattern, period)
  {
    anchors := [];
    var i := 1;
    while i < |events|
      invariant 1 <= i
      invariant Increasing(anchors)
      invariant forall a: nat :: a in anchors <==> a < i && IsAnchor(events, pattern, period, a)
    {
      forall x | 0 <= x < |anchors| ensures anchors[x] < i {
        assert anchors[x] in anchors;
      }
      if IsAnchor(events, pattern, period, i) { anchors := anchors + [i]; }
      i := i + 1;
    }
  }

  method FindDeparture(events: seq<Event>, pattern: Pattern, period: int, a: nat, first: nat)
    returns (departure: Option<Departure>, onGrid: nat)
    requires a < |events|
    ensures FirstDeparture(departure, onGrid, events, pattern, period, a, first)
  {
    var c0, idx := events[a].cycle, a;
    while idx < |events|
      invariant a <= idx <= |events|
      invariant forall i | a <= i < idx :: events[i] == Scheduled(pattern, period, c0, i - a)
    {
      var f, m := (idx - a) / |pattern|, (idx - a) % |pattern|;
      var expected := Place(pattern[m], c0 + f * period);
      if events[idx] != expected {
        var got := Seen(events[idx], c0 + f * period);
        return Some(OffGrid(idx, events[idx].cycle, first + f, expected, got)), idx - a;
      }
      idx := idx + 1;
    }
    return None, idx - a;
  }

  // ------------------------------------------------------------ one identical frame fixes all anchors

  lemma ScheduleWithinFrame(pattern: Pattern, period: int, c0: int, m: nat)
    requires m < |pattern|
    ensures Scheduled(pattern, period, c0, m) == Place(pattern[m], c0)
  {
    DivSmall(m, |pattern|);
  }

  /** The gap before scheduled event j depends on its slot only. */
  lemma ScheduledGap(pattern: Pattern, period: int, c0: int, j: int)
    requires pattern[0].offset == 0
    ensures var m := j % |pattern|;
      Scheduled(pattern, period, c0, j).cycle - Scheduled(pattern, period, c0, j - 1).cycle
      == if m == 0 then QuietGap(pattern, period) else pattern[m].offset - pattern[m - 1].offset
  {
    DivBack(j, |pattern|);
    var q := j / |pattern|;
    assert (q - 1) * period == q * period - period;
  }

  /** On the grid of a one-anchor pattern, anchors fall exactly every k events. */
  lemma GridAnchors(events: seq<Event>, pattern: Pattern, period: int, a: nat, i: nat)
    requires OnGrid(events, pattern, period, a) && OneAnchor(pattern, period) && a < i < |events|
    ensures IsAnchor(events, pattern, period, i) <==> (i - a) % |pattern| == 0
  {
    ScheduledGap(pattern, period, events[a].cycle, i - a);
    assert events[i - 1] == Scheduled(pattern, period, events[a].cycle, i - 1 - a);
  }

  /** An identical frame between two consecutive anchors shows that the pattern has one anchor. */
  lemma IdenticalFrameMeansOneAnchor(events: seq<Event>, pattern: Pattern, period: int, a: nat, b: nat)
    requires a < b < |events| && Identical(FrameOf(events, a, b), pattern, period)
    requires forall i | a < i < b :: !IsAnchor(events, pattern, period, i)
    ensures OneAnchor(pattern, period) && b == a + |pattern|
  {
    var body := Body(events, a, b);
    assert body[0].offset == 0;
    forall m | 1 <= m < |pattern| && pattern[m].ch == pattern[0].ch && pattern[m].pol == pattern[0].pol
      ensures pattern[m].offset - pattern[m - 1].offset < QuietGap(pattern, period)
    {
      assert body[m] == pattern[m] && body[m - 1] == pattern[m - 1];
      assert !IsAnchor(events, pattern, period, a + m);
    }
  }

  /**
   One identical frame at event a and no departure from its grid: every later anchor is a whole
   number of patterns after a, and every later complete frame equals the pattern in length and body.
   */
  lemma PeriodicAfterStart(events: seq<Event>, pattern: Pattern, period: int, info: FrameInfo,
                           frames: seq<Frame>, anchors: seq<nat>)
    requires Describes(info, frames, anchors, events, pattern, period)
    requires info.first.Some? && info.departure.None?
    ensures var x := info.first.value; var a := anchors[x];
      && OneAnchor(pattern, period) && OnGrid(events, pattern, period, a)
      && (forall i: nat | a < i :: i in anchors <==> i < |events| && (i - a) % |pattern| == 0)
      && (forall y | x <= y < |frames| :: Identical(frames[y], pattern, period))
  {
    hide OnGrid, OneAnchor, Identical, FirstDeparture, FrameOf, IsAnchor, CountIdentical, Lengths;
    var x := info.first.value;
    FirstFrameFixesGrid(events, pattern, period, info, frames, anchors);
    AnchorsOnGrid(events, pattern, period, anchors, anchors[x]);
    forall y | x <= y < |frames| ensures Identical(frames[y], pattern, period) {
      FramesOnGrid(events, pattern, period, frames, anchors, x, y);
    }
  }

  lemma AnchorsOnGrid(events: seq<Event>, pattern: Pattern, period: int, anchors: seq<nat>, a: nat)
    requires AreAnchors(anchors, events, pattern, period)
    requires OneAnchor(pattern, period) && OnGrid(events, pattern, period, a)
    ensures forall i: nat | a < i :: i in anchors <==> i < |events| && (i - a) % |pattern| == 0
  {
    hide OneAnchor, OnGrid;
    forall i: nat | a < i < |events| ensures i in anchors <==> (i - a) % |pattern| == 0 {
      GridAnchors(events, pattern, period, a, i);
    }
  }

  lemma FirstFrameFixesGrid(events: seq<Event>, pattern: Pattern, period: int, info: FrameInfo,
                            frames: seq<Frame>, anchors: seq<nat>)
    requires Describes(info, frames, anchors, events, pattern, period)
    requires info.first.Some? && info.departure.None?
    ensures OneAnchor(pattern, period) && OnGrid(events, pattern, period, anchors[info.first.value])
  {
    hide OneAnchor, Scheduled;
    var x := info.first.value;
    NoAnchorBetween(anchors, events, pattern, period, x);
    IdenticalFrameMeansOneAnchor(events, pattern, period, anchors[x], anchors[x + 1]);
  }

  lemma NoAnchorBetween(anchors: seq<nat>, events: seq<Event>, pattern: Pattern, period: int, x: nat)
    requires AreAnchors(anchors, events, pattern, period) && x + 1 < |anchors|
    ensures anchors[x] < anchors[x + 1] < |events|
    ensures forall i | anchors[x] < i < anchors[x + 1] :: !IsAnchor(events, pattern, period, i)
  {
    assert anchors[x + 1] in anchors;
    forall i | anchors[x] < i < anchors[x + 1] ensures i !in anchors {
      forall z | 0 <= z < |anchors| ensures anchors[z] != i {
        if z > x + 1 { assert anchors[x + 1] < anchors[z]; }
      }
    }
  }

  /** On the grid from anchor x, the later anchors are k events apart and cut identical frames. */
  lemma {:induction false} FramesOnGrid(events: seq<Event>, pattern: Pattern, period: int, frames: seq<Frame>,
                                        anchors: seq<nat>, x: nat, y: nat)
    requires AreAnchors(anchors, events, pattern, period) && AreFrames(frames, anchors, events)
    requires x <= y < |frames| && OneAnchor(pattern, period) && OnGrid(events, pattern, period, anchors[x])
    ensures anchors[y] == anchors[x] + (y - x) * |pattern| && anchors[y + 1] == anchors[y] + |pattern|
    ensures Identical(frames[y], pattern, period)
  {
    hide OnGrid, Scheduled, IsAnchor, Identical, OneAnchor, FrameOf, Increasing;
    var k, a, f := |pattern|, anchors[x], y - x;
    if y > x {
      FramesOnGrid(events, pattern, period, frames, anchors, x, y - 1);
      assert (f - 1) * k + k == f * k;
    }
    NextAnchorOnGrid(events, pattern, period, anchors, x, y, f);
    assert anchors[y + 1] in anchors;
    FrameOnGrid(events, pattern, period, a, f);
  }

  /** Frame f of the grid has the pattern's length and body. */
  lemma FrameOnGrid(events: seq<Event>, pattern: Pattern, period: int, a: nat, f: nat)
    requires OneAnchor(pattern, period) && OnGrid(events, pattern, period, a)
    requires a + f * |pattern| + |pattern| < |events|
    ensures Identical(FrameOf(events, a + f * |pattern|, a + f * |pattern| + |pattern|), pattern, period)
  {
    var k, b := |pattern|, a + f * |pattern|;
    forall m | 0 <= m < k
      ensures events[b + m] == Place(pattern[m], events[a].cycle + f * period)
    {
      DivSmall(m, k);
      DivPlus(m, k, f);
      assert b + m - a == m + f * k;
    }
    DivSmall(0, k);
    DivPlus(0, k, f + 1);
    assert b + k - a == 0 + (f + 1) * k by { assert (f + 1) * k == f * k + k; }
    assert events[b + k] == Scheduled(pattern, period, events[a].cycle, b + k - a);
    assert (f + 1) * period == f * period + period;
    assert Body(events, b, b + k) == pattern;
  }

  lemma NextAnchorOnGrid(events: seq<Event>, pattern: Pattern, period: int, anchors: seq<nat>, x: nat, y: nat, f: nat)
    requires AreAnchors(anchors, events, pattern, period) && x <= y && y + 1 < |anchors|
    requires OneAnchor(pattern, period) && OnGrid(events, pattern, period, anchors[x])
    requires anchors[y] == anchors[x] + f * |pattern|
    ensures anchors[y + 1] == anchors[y] + |pattern| == anchors[x] + (f + 1) * |pattern|
  {
    var k, a, b, c := |pattern|, anchors[x], anchors[y], anchors[y + 1];
    assert (f + 1) * k == f * k + k;
    NoAnchorBetween(anchors, events, pattern, period, y);
    assert c in anchors && a <= b;
    GridAnchors(events, pattern, period, a, c);
    var d := c - b;
    assert (c - a) % k == d % k by { DivPlus(d, k, f); }
    if d < k {
      DivSmall(d, k);
    } else if d > k {
      DivSmall(0, k);
      DivPlus(0, k, f + 1);
      GridAnchors(events, pattern, period, a, b + k);
    }
  }
}
