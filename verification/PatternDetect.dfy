/**
 Finding the frame pattern of a capture (demo/pe_capture.py, detect_pattern): the smallest k such
 that, in a window in the middle of the capture, every event recurs k events later one period later.
 The pattern is one such block, rotated to start at the event with the widest gap before it.
 */
module PatternDetect {
  import opened Results
  import opened Arith
  import opened FrameCheck
  import opened Sorting

  const MAX_EVENTS: nat := 4096

  /** Events in the order the analysis sorts them: by cycle, then by channel. */
  ghost predicate InOrder(events: seq<Event>) {
    forall i, j | 0 <= i < j < |events| ::
      events[i].cycle < events[j].cycle || (events[i].cycle == events[j].cycle && events[i].ch <= events[j].ch)
  }

  function Later(e: Event, period: int): Event { e.(cycle := e.cycle + period) }

  // ------------------------------------------------------------ the tested window

  function Begin(events: seq<Event>): nat { |events| / 4 }

  function Limit(events: seq<Event>): nat {
    var most := (|events| - Begin(events)) / 3;
    if MAX_EVENTS < most then MAX_EVENTS else most
  }

  function Period(events: seq<Event>, k: nat): int
    requires Begin(events) + k < |events|
  {
    events[Begin(events) + k].cycle - events[Begin(events)].cycle
  }

  /** How many events are compared with the event k later. */
  function Tested(events: seq<Event>, k: nat): int {
    var most := |events| - Begin(events) - k;
    if most < 3 * k + 64 then most else 3 * k + 64
  }

  ghost predicate Repeats(events: seq<Event>, k: nat)
    requires 1 <= k <= Limit(events)
  {
    var r0, period := Begin(events), Period(events, k);
    period > 0 && forall i | r0 <= i < r0 + Tested(events, k) :: events[i + k] == Later(events[i], period)
  }

  /**
   What is tested, in numbers: from a quarter of the capture on, 3k + 64 events or as many as there are, each with
   the one k later; k is at most a third of what follows the first quarter, and at most MAX_EVENTS.
   */
  lemma TestedEvents(events: seq<Event>, k: nat)
    requires 1 <= k <= Limit(events)
    ensures var first := |events| / 4;
      Repeats(events, k) <==>
        && events[first + k].cycle > events[first].cycle
        && forall i | first <= i < first + 3 * k + 64 && i + k < |events| ::
             events[i + k] == events[i].(cycle := events[i].cycle + events[first + k].cycle - events[first].cycle)
  {
  }

  lemma LimitIs(events: seq<Event>)
    ensures forall k: nat :: k <= Limit(events) <==> k <= MAX_EVENTS && |events| / 4 + 3 * k <= |events|
  {
  }

  // ------------------------------------------------------------ the rotated block

  function GapBefore(block: seq<Event>, period: int, j: nat): int
    requires j < |block|
  {
    if j == 0 then block[0].cycle - (block[|block| - 1].cycle - period) else block[j].cycle - block[j - 1].cycle
  }

  /** The first position with the widest gap before it. */
  ghost predicate IsWidest(block: seq<Event>, period: int, a: nat) {
    && a < |block|
    && forall j | 0 <= j < |block| ::
         GapBefore(block, period, j) < GapBefore(block, period, a)
         || (GapBefore(block, period, j) == GapBefore(block, period, a) && a <= j)
  }

  method FindWidest(block: seq<Event>, period: int) returns (a: nat)
    requires block != []
    ensures IsWidest(block, period, a)
  {
    a := 0;
    for j := 1 to |block|
      invariant a < j
      invariant forall i | 0 <= i < j ::
        GapBefore(block, period, i) < GapBefore(block, period, a)
        || (GapBefore(block, period, i) == GapBefore(block, period, a) && a <= i)
    {
      if GapBefore(block, period, j) > GapBefore(block, period, a) { a := j; }
    }
  }

  function Rotated(block: seq<Event>, period: int, a: nat): (r: seq<Slot>)
    requires a < |block| && period > 0
    ensures |r| == |block|
  {
    var rot := block[a..] + block[..a];
    seq(|rot|, j requires 0 <= j < |rot| =>
      Slot(if j == 0 then 0 else (rot[j].cycle - rot[0].cycle) % period, rot[j].ch, rot[j].pol))
  }

  /** The order of a pattern's slots: by offset, then channel. */
  predicate Before(p: Slot, q: Slot) { p.offset < q.offset || (p.offset == q.offset && p.ch < q.ch) }

  /** k is the smallest distance at which the tested window repeats. */
  ghost predicate IsSmallest(events: seq<Event>, k: nat) {
    1 <= k <= Limit(events) && Repeats(events, k) && forall k' | 1 <= k' < k :: !Repeats(events, k')
  }

  ghost predicate IsPatternOf(events: seq<Event>, k: nat, pattern: Pattern, period: int)
    requires 1 <= k <= Limit(events)
  {
    var block := events[Begin(events)..Begin(events) + k];
    && period == Period(events, k) && period > 0
    && exists a | IsWidest(block, period, a) :: pattern == Sorted(Before, Rotated(block, period, a))
  }

  /** A pattern is in order, whatever the capture: by offset and, at one offset, by channel. */
  lemma PatternIsOrdered(events: seq<Event>, k: nat, pattern: Pattern, period: int, i: nat, j: nat)
    requires 1 <= k <= Limit(events) && IsPatternOf(events, k, pattern, period) && i < j < |pattern|
    ensures pattern[i].offset < pattern[j].offset
      || (pattern[i].offset == pattern[j].offset && pattern[i].ch <= pattern[j].ch)
  {
    var block := events[Begin(events)..Begin(events) + k];
    var a :| IsWidest(block, period, a) && pattern == Sorted(Before, Rotated(block, period, a));
    SortedIsOrdered(Before, Rotated(block, period, a));
  }

  method DetectPattern(events: seq<Event>) returns (found: Option<(Pattern, int)>)
    ensures found.None? <==> |events| < 8 || forall k | 1 <= k <= Limit(events) :: !Repeats(events, k)
    ensures found.Some? ==>
      var k := |found.value.0|;
      IsSmallest(events, k) && IsPatternOf(events, k, found.value.0, found.value.1)
  {
    hide Repeats, Rotated, Sorted;
    if |events| < 8 { return None; }
    var r0 := Begin(events);
    var k: nat := 1;
    while k <= Limit(events)
      invariant 1 <= k
      invariant forall k' | 1 <= k' < k && k' <= Limit(events) :: !Repeats(events, k')
      decreases Limit(events) + 1 - k
    {
      var period := Period(events, k);
      if period <= 0 {
        NoPeriod(events, k);
      } else {
        var ok := TestPeriod(events, k, period);
        if ok {
          var block := events[r0..r0 + k];
          var a := FindWidest(block, period);
          var pattern := Sorted(Before, Rotated(block, period, a));
          WidestGivesPattern(events, k, a);
          return Some((pattern, period));
        }
      }
      k := k + 1;
    }
    return None;
  }

  lemma WidestGivesPattern(events: seq<Event>, k: nat, a: nat)
    requires 1 <= k <= Limit(events) && Period(events, k) > 0
    requires IsWidest(events[Begin(events)..Begin(events) + k], Period(events, k), a)
    ensures var block, period := events[Begin(events)..Begin(events) + k], Period(events, k);
      IsPatternOf(events, k, Sorted(Before, Rotated(block, period, a)), period)
  {
  }

  lemma NoPeriod(events: seq<Event>, k: nat)
    requires 1 <= k <= Limit(events) && Period(events, k) <= 0
    ensures !Repeats(events, k)
  {
  }

  method TestPeriod(events: seq<Event>, k: nat, period: int) returns (ok: bool)
    requires 1 <= k <= Limit(events) && period == Period(events, k) > 0
    ensures ok <==> Repeats(events, k)
  {
    var r0, length := Begin(events), Tested(events, k);
    var i := r0;
    while i < r0 + length
      invariant r0 <= i <= r0 + length
      invariant forall j | r0 <= j < i :: events[j + k] == Later(events[j], period)
    {
      if events[i].ch != events[i + k].ch || events[i].pol != events[i + k].pol
         || events[i + k].cycle - events[i].cycle != period {
        return false;
      }
      i := i + 1;
    }
    return true;
  }

  // ------------------------------------------------------------ the widest gap is the quiet gap

  ghost function SumOfGaps(block: seq<Event>, period: int, m: nat): int
    requires m <= |block|
  {
    if m == 0 then 0 else SumOfGaps(block, period, m - 1) + GapBefore(block, period, m - 1)
  }

  lemma {:induction false} GapsTelescope(block: seq<Event>, period: int, m: nat)
    requires 1 <= m <= |block|
    ensures SumOfGaps(block, period, m) == block[m - 1].cycle - block[|block| - 1].cycle + period
  {
    if m > 1 {
      GapsTelescope(block, period, m - 1);
    } else {
      assert SumOfGaps(block, period, 0) == 0;
    }
  }

  /** All gaps of a block together make up exactly one period. */
  lemma GapsSumToPeriod(block: seq<Event>, period: int)
    requires block != []
    ensures SumOfGaps(block, period, |block|) == period
  {
    GapsTelescope(block, period, |block|);
  }

  lemma {:induction false} SumIsBounded(block: seq<Event>, period: int, m: nat, widest: int)
    requires m <= |block| && forall j | 0 <= j < |block| :: GapBefore(block, period, j) <= widest
    ensures SumOfGaps(block, period, m) <= m * widest
  {
    if m > 0 {
      SumIsBounded(block, period, m - 1, widest);
      assert m * widest == (m - 1) * widest + widest;
    }
  }

  lemma WidestIsPositive(block: seq<Event>, period: int, a: nat)
    requires IsWidest(block, period, a) && period > 0
    ensures GapBefore(block, period, a) > 0
  {
    var g, k := GapBefore(block, period, a), |block|;
    GapsSumToPeriod(block, period);
    SumIsBounded(block, period, k, g);
    if g <= 0 { MulMonotone(g, 0, k); }
  }

  /** Where the frame that starts at the widest gap of the block begins. */
  ghost predicate IsFrameStart(events: seq<Event>, k: nat, b: nat)
    requires 1 <= k <= Limit(events)
  {
    var r0 := Begin(events);
    r0 <= b < r0 + k && IsWidest(events[r0..r0 + k], Period(events, k), b - r0)
  }

  lemma TestedIsLong(events: seq<Event>, k: nat)
    requires 1 <= k <= Limit(events)
    ensures Tested(events, k) >= 2 * k
  {
  }

  /** Gaps of the block, read off the capture. */
  lemma GapInCapture(events: seq<Event>, k: nat, i: nat)
    requires 1 <= k <= Limit(events) && Repeats(events, k)
    requires Begin(events) < i <= Begin(events) + 2 * k
    ensures var r0 := Begin(events); var j := (i - r0) % k;
      GapBefore(events[r0..r0 + k], Period(events, k), j) == events[i].cycle - events[i - 1].cycle
  {
    TestedIsLong(events, k);
    var r0, d := Begin(events), i - Begin(events);
    if d < k {
      DivSmall(d, k);
    } else if d < 2 * k {
      DivUnique(d, k, 1, d - k);
    } else {
      DivUnique(d, k, 2, 0);
    }
  }

  /** The frame's events are those of the block, the ones before its start a period later. */
  lemma FrameEvents(events: seq<Event>, k: nat, b: nat, m: nat)
    requires InOrder(events) && 1 <= k <= Limit(events) && Repeats(events, k) && IsFrameStart(events, k, b) && m < k
    requires b + m < |events|
    ensures 0 <= events[b + m].cycle - events[b].cycle < Period(events, k)
  {
    hide GapBefore, IsWidest, Limit;
    TestedIsLong(events, k);
    var r0, period := Begin(events), Period(events, k);
    WidestIsPositive(events[r0..r0 + k], period, b - r0);
    GapInCapture(events, k, b + k);
    DivUnique(b + k - r0, k, 1, b - r0);
    assert events[b + k] == Later(events[b], period);
  }

  /** The frame's offsets are the distances of its events from its start. */
  lemma PatternIsFrame(events: seq<Event>, k: nat, b: nat, m: nat)
    requires InOrder(events) && 1 <= k <= Limit(events) && Repeats(events, k) && IsFrameStart(events, k, b) && m < k
    requires b + m < |events|
    ensures var rot := Rotated(events[Begin(events)..Begin(events) + k], Period(events, k), b - Begin(events));
      Place(rot[m], events[b].cycle) == events[b + m] && 0 <= rot[m].offset < Period(events, k)
  {
    FrameEvents(events, k, b, m);
    TestedIsLong(events, k);
    hide InOrder, IsWidest;
    var r0, period, d := Begin(events), Period(events, k), events[b + m].cycle - events[b].cycle;
    if b + m < r0 + k {
      DivUnique(d, period, 0, d);
    } else {
      assert events[b + m] == Later(events[b + m - k], period);
      DivUnique(d - period, period, -1, d);
    }
  }

  lemma FrameIsInOrder(events: seq<Event>, k: nat, b: nat)
    requires InOrder(events) && 1 <= k <= Limit(events) && Repeats(events, k) && IsFrameStart(events, k, b)
    ensures var rot := Rotated(events[Begin(events)..Begin(events) + k], Period(events, k), b - Begin(events));
      Ordered(Before, rot) && Sorted(Before, rot) == rot
  {
    var rot := Rotated(events[Begin(events)..Begin(events) + k], Period(events, k), b - Begin(events));
    forall i, j | 0 <= i < j < k ensures !Before(rot[j], rot[i]) {
      PatternIsFrame(events, k, b, i);
      PatternIsFrame(events, k, b, j);
      assert events[b + j].cycle >= events[b + i].cycle;
    }
    SortedAlready(Before, rot);
  }

  /** The frame that starts at event b shows the pattern. */
  ghost predicate ShowsPattern(events: seq<Event>, pattern: Pattern, period: int, b: nat) {
    && b + |pattern| <= |events|
    && (forall m | 0 <= m < |pattern| :: events[b + m] == Place(pattern[m], events[b].cycle))
    && (forall m | 0 <= m < |pattern| :: 0 <= pattern[m].offset < period)
  }

  /** What detect_pattern promises about a pattern of k events found in a capture. */
  ghost predicate SoundPattern(events: seq<Event>, pattern: Pattern, period: int, b: nat) {
    var k, r0 := |pattern|, Begin(events);
    && 1 <= k <= Limit(events) && period == Period(events, k) > 0 && r0 <= b < r0 + k
    && ShowsPattern(events, pattern, period, b) && Ordered(Before, pattern) && QuietIsWidest(pattern, period)
    && forall i | r0 <= i < r0 + Tested(events, k) + k ::
         events[i] == Scheduled(pattern, period, events[b].cycle, i - b)
  }

  ghost predicate QuietIsWidest(pattern: Pattern, period: int) {
    && QuietGap(pattern, period) > 0
    && forall m | 1 <= m < |pattern| :: pattern[m].offset - pattern[m - 1].offset <= QuietGap(pattern, period)
  }

  lemma ScheduledNext(pattern: Pattern, period: int, c0: int, j: int)
    ensures Scheduled(pattern, period, c0, j + |pattern|) == Later(Scheduled(pattern, period, c0, j), period)
  {
    DivPlus(j, |pattern|, 1);
    assert (j / |pattern| + 1) * period == j / |pattern| * period + period;
  }

  /** The pattern's schedule passes through every event of the tested window. */
  lemma SlotShown(events: seq<Event>, pattern: Pattern, period: int, b: nat, i: nat)
    requires ShowsPattern(events, pattern, period, b) && b <= i < b + |pattern|
    ensures events[i] == Place(pattern[i - b], events[b].cycle)
  {
    assert events[b + (i - b)] == events[i];
  }

  lemma {:induction false} WindowOnSchedule(events: seq<Event>, k: nat, b: nat, pattern: Pattern, i: nat)
    requires 1 <= k <= Limit(events) && Repeats(events, k) && |pattern| == k && Begin(events) <= b < Begin(events) + k
    requires ShowsPattern(events, pattern, Period(events, k), b)
    requires Begin(events) <= i < Begin(events) + Tested(events, k) + k
    ensures events[i] == Scheduled(pattern, Period(events, k), events[b].cycle, i - b)
    decreases i < b, i
  {
    hide Scheduled, Limit, ShowsPattern;
    TestedIsLong(events, k);
    var c0, period := events[b].cycle, Period(events, k);
    if i < b {
      WindowOnSchedule(events, k, b, pattern, i + k);
      ScheduledNext(pattern, period, c0, i - b);
    } else if i < b + k {
      ScheduleWithinFrame(pattern, period, c0, i - b);
      SlotShown(events, pattern, period, b, i);
    } else {
      WindowOnSchedule(events, k, b, pattern, i - k);
      ScheduledNext(pattern, period, c0, i - k - b);
      assert events[i - k + k] == Later(events[i - k], period);
    }
  }

  /**
   Soundness: on an ordered capture the pattern starts at offset 0, is ordered with all offsets in
   the period, its quiet gap is positive and no other gap is wider, and its schedule reproduces
   every event of the tested window.
   */
  lemma DetectedPatternIsSound(events: seq<Event>, pattern: Pattern, period: int)
    requires InOrder(events) && 1 <= |pattern| <= Limit(events) && Repeats(events, |pattern|)
    requires IsPatternOf(events, |pattern|, pattern, period)
    ensures exists b :: SoundPattern(events, pattern, period, b)
  {
    hide InOrder, Repeats, Sorted, Rotated, SoundPattern, GapBefore, Period, Tested;
    var r0, k := Begin(events), |pattern|;
    var a: nat :| IsWidest(events[r0..r0 + k], period, a)
      && pattern == Sorted(Before, Rotated(events[r0..r0 + k], period, a));
    PatternFromStart(events, pattern, period, r0 + a);
    assert SoundPattern(events, pattern, period, r0 + a);
  }

  lemma PatternFromStart(events: seq<Event>, pattern: Pattern, period: int, b: nat)
    requires InOrder(events) && 1 <= |pattern| <= Limit(events) && Repeats(events, |pattern|)
    requires period == Period(events, |pattern|) && IsFrameStart(events, |pattern|, b)
    requires var block := events[Begin(events)..Begin(events) + |pattern|];
      pattern == Sorted(Before, Rotated(block, period, b - Begin(events)))
    ensures SoundPattern(events, pattern, period, b)
  {
    hide InOrder, IsWidest, Rotated, Sorted, Ordered, Scheduled, QuietIsWidest, ShowsPattern;
    FrameIsInOrder(events, |pattern|, b);
    StartShowsPattern(events, pattern, period, b);
    QuietGapIsWidest(events, pattern, period, b);
    forall i | Begin(events) <= i < Begin(events) + Tested(events, |pattern|) + |pattern|
      ensures events[i] == Scheduled(pattern, period, events[b].cycle, i - b)
    {
      hide Repeats, IsFrameStart;
      WindowOnSchedule(events, |pattern|, b, pattern, i);
    }
  }

  lemma StartShowsPattern(events: seq<Event>, pattern: Pattern, period: int, b: nat)
    requires InOrder(events) && 1 <= |pattern| <= Limit(events) && Repeats(events, |pattern|)
    requires period == Period(events, |pattern|) && IsFrameStart(events, |pattern|, b)
    requires var block := events[Begin(events)..Begin(events) + |pattern|];
      pattern == Sorted(Before, Rotated(block, period, b - Begin(events)))
    ensures ShowsPattern(events, pattern, period, b)
  {
    hide InOrder, Repeats, IsWidest, Rotated, Sorted, Ordered, Period;
    TestedIsLong(events, |pattern|);
    FrameIsInOrder(events, |pattern|, b);
    forall m | 0 <= m < |pattern|
      ensures events[b + m] == Place(pattern[m], events[b].cycle) && 0 <= pattern[m].offset < period
    {
      PatternIsFrame(events, |pattern|, b, m);
    }
  }

  lemma QuietGapIsWidest(events: seq<Event>, pattern: Pattern, period: int, b: nat)
    requires 1 <= |pattern| <= Limit(events) && Repeats(events, |pattern|) && IsFrameStart(events, |pattern|, b)
    requires period == Period(events, |pattern|) && ShowsPattern(events, pattern, period, b)
    ensures QuietIsWidest(pattern, period)
  {
    var r0, k := Begin(events), |pattern|;
    var block, a := events[r0..r0 + k], b - r0;
    QuietGapInCapture(events, pattern, period, b);
    WidestIsPositive(block, period, a);
    hide Repeats, QuietGap, IsFrameStart;
    forall m | 1 <= m < k ensures pattern[m].offset - pattern[m - 1].offset <= QuietGap(pattern, period) {
      GapInFrame(events, pattern, period, b, m);
    }
  }

  lemma GapInFrame(events: seq<Event>, pattern: Pattern, period: int, b: nat, m: nat)
    requires 1 <= m < |pattern| <= Limit(events) && Repeats(events, |pattern|) && IsFrameStart(events, |pattern|, b)
    requires period == Period(events, |pattern|) && ShowsPattern(events, pattern, period, b)
    ensures var r0, k := Begin(events), |pattern|;
      pattern[m].offset - pattern[m - 1].offset <= GapBefore(events[r0..r0 + k], period, b - r0)
  {
    hide GapBefore, Repeats, Limit, IsWidest;
    var r0, k := Begin(events), |pattern|;
    TestedIsLong(events, k);
    GapInCapture(events, k, b + m);
    GapIsAtMostWidest(events, k, b, (b + m - r0) % k);
    assert events[b + m] == Place(pattern[m], events[b].cycle);
    assert events[b + (m - 1)] == Place(pattern[m - 1], events[b].cycle);
  }

  lemma GapIsAtMostWidest(events: seq<Event>, k: nat, b: nat, j: nat)
    requires 1 <= k <= Limit(events) && IsFrameStart(events, k, b) && j < k
    ensures var block := events[Begin(events)..Begin(events) + k];
      GapBefore(block, Period(events, k), j) <= GapBefore(block, Period(events, k), b - Begin(events))
  {
    hide GapBefore;
  }

  lemma QuietGapInCapture(events: seq<Event>, pattern: Pattern, period: int, b: nat)
    requires 1 <= |pattern| <= Limit(events) && Repeats(events, |pattern|)
    requires Begin(events) <= b < Begin(events) + |pattern|
    requires period == Period(events, |pattern|) && ShowsPattern(events, pattern, period, b)
    ensures var r0, k := Begin(events), |pattern|;
      QuietGap(pattern, period) == GapBefore(events[r0..r0 + k], period, b - r0)
  {
    var r0, k := Begin(events), |pattern|;
    TestedIsLong(events, k);
    assert events[b + k] == Later(events[b], period);
    GapInCapture(events, k, b + k);
    DivUnique(b + k - r0, k, 1, b - r0);
    assert events[b + (k - 1)] == Place(pattern[k - 1], events[b].cycle);
    assert events[b + 0] == Place(pattern[0], events[b].cycle);
  }

  /** So a detected pattern has one anchor position unless its widest gap is tied at the same signature. */
  lemma DetectedPatternHasOneAnchor(events: seq<Event>, pattern: Pattern, period: int, b: nat)
    requires SoundPattern(events, pattern, period, b)
    ensures OneAnchor(pattern, period)
      <==> forall m | 1 <= m < |pattern| && pattern[m].ch == pattern[0].ch && pattern[m].pol == pattern[0].pol ::
        pattern[m].offset - pattern[m - 1].offset != QuietGap(pattern, period)
  {
    assert events[b + 0] == Place(pattern[0], events[b].cycle);
  }
}
