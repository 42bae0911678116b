/**
 Runs judged against the pattern of one of their own captures (demo/pe_capture.py: detect_pattern,
 frames_against, verdict): when that is "same", and what the verdict does not look at.
 */
module OwnPattern {
  import opened Results
  import opened Arith
  import opened FrameCheck
  import opened PatternDetect
  import opened Sorting
  import opened RunVerdict

  // ------------------------------------------------------------ tied quiet gaps

  /** Slot m has the anchor's signature and a gap before it that is no shorter than the quiet gap. */
  predicate Ties(pattern: Pattern, period: int, m: nat) {
    && 1 <= m < |pattern| && pattern[m].ch == pattern[0].ch && pattern[m].pol == pattern[0].pol
    && pattern[m].offset - pattern[m - 1].offset >= QuietGap(pattern, period)
  }

  /** No run is "same" against a pattern with such a slot. */
  lemma TiedIsNeverSame(segments: seq<seq<Event>>, pattern: Pattern, period: int, m: nat)
    requires Ties(pattern, period, m)
    ensures !RunFollows(segments, pattern, period)
  {
    assert !OneAnchor(pattern, period);
  }

  /** A window of the endless repetition of a pattern. */
  ghost predicate IsWindow(events: seq<Event>, pattern: Pattern, period: int) {
    exists c0, shift :: WindowAt(events, pattern, period, c0, shift)
  }

  ghost predicate WindowAt(events: seq<Event>, pattern: Pattern, period: int, c0: int, shift: int) {
    forall i | 0 <= i < |events| :: events[i] == Scheduled(pattern, period, c0, i + shift)
  }

  /**
   A window of a pattern's own schedule that shows a frame is "same" if and only if no later slot ties
   with the quiet gap at the anchor's signature.
   */
  lemma WindowIsSame(events: seq<Event>, pattern: Pattern, period: int)
    requires pattern[0].offset == 0 && IsWindow(events, pattern, period) && TwoAnchors(events, pattern, period)
    ensures RunFollows([events], pattern, period) <==> forall m :: !Ties(pattern, period, m)
  {
    hide TwoAnchors, Follows;
    if forall m :: !Ties(pattern, period, m) {
      forall m | 1 <= m < |pattern| && pattern[m].ch == pattern[0].ch && pattern[m].pol == pattern[0].pol
        ensures pattern[m].offset - pattern[m - 1].offset < QuietGap(pattern, period)
      {
        assert !Ties(pattern, period, m);
      }
      var c0, shift :| WindowAt(events, pattern, period, c0, shift);
      WindowFollows(events, pattern, period, c0, shift);
      assert [events][0] == events;
    } else {
      var m :| Ties(pattern, period, m);
      TiedIsNeverSame([events], pattern, period, m);
    }
  }

  /** The part of a capture that the detection compares. */
  ghost function TestedPart(capture: seq<Event>, k: nat): seq<Event>
    requires 1 <= k <= Limit(capture)
  {
    capture[Begin(capture)..Begin(capture) + Tested(capture, k) + k]
  }

  /** The tested part is long enough for two frame starts after the one where the pattern was taken. */
  lemma AnchorsOfTestedPart(capture: seq<Event>, pattern: Pattern, period: int, b: nat)
    requires SoundPattern(capture, pattern, period, b)
    ensures TwoAnchors(TestedPart(capture, |pattern|), pattern, period)
  {
    hide Scheduled, QuietGap, Limit, Ordered, QuietIsWidest;
    var events, k, first := TestedPart(capture, |pattern|), |pattern|, b - Begin(capture) + |pattern|;
    TestedIsLong(capture, k);
    FrameStartIsAnchor(capture, pattern, period, b, k, 1);
    FrameStartIsAnchor(capture, pattern, period, b, 2 * k, 2);
    assert IsAnchor(events, pattern, period, first) && IsAnchor(events, pattern, period, first + k);
  }

  lemma FrameStartIsAnchor(capture: seq<Event>, pattern: Pattern, period: int, b: nat, j: nat, f: nat)
    requires SoundPattern(capture, pattern, period, b) && j == f * |pattern| && f > 0
    requires b + j < Begin(capture) + Tested(capture, |pattern|) + |pattern|
    ensures IsAnchor(TestedPart(capture, |pattern|), pattern, period, b + j - Begin(capture))
  {
    hide QuietGap, Limit, Ordered, QuietIsWidest, Scheduled;
    var r0, c0 := Begin(capture), capture[b].cycle;
    assert capture[b + 0] == Place(pattern[0], c0);
    MulMonotone(1, f, |pattern|);
    FrameStartGap(pattern, period, c0, j, f);
    InTested(capture, pattern, period, b, b + j);
    InTested(capture, pattern, period, b, b + j - 1);
  }

  lemma InTested(capture: seq<Event>, pattern: Pattern, period: int, b: nat, i: nat)
    requires SoundPattern(capture, pattern, period, b)
    requires Begin(capture) <= i < Begin(capture) + Tested(capture, |pattern|) + |pattern|
    ensures TestedPart(capture, |pattern|)[i - Begin(capture)] == Scheduled(pattern, period, capture[b].cycle, i - b)
  {
    hide Scheduled, ShowsPattern, Ordered, QuietIsWidest;
  }

  /** Each later frame of the schedule starts with the anchor's signature and the quiet gap before it. */
  lemma FrameStartGap(pattern: Pattern, period: int, c0: int, j: int, f: int)
    requires pattern[0].offset == 0 && j == f * |pattern|
    ensures var start := Scheduled(pattern, period, c0, j);
      && start.ch == pattern[0].ch && start.pol == pattern[0].pol
      && start.cycle - Scheduled(pattern, period, c0, j - 1).cycle == QuietGap(pattern, period)
  {
    hide QuietGap;
    DivUnique(j, |pattern|, f, 0);
    ScheduledGap(pattern, period, c0, j);
  }

  /**
   The capture a pattern was detected in is not always "same" against it. Its tested part is exactly if
   no later slot of the pattern has the anchor's signature and as wide a gap.
   */
  lemma DetectedIsSame(capture: seq<Event>, pattern: Pattern, period: int, b: nat)
    requires SoundPattern(capture, pattern, period, b)
    ensures RunFollows([TestedPart(capture, |pattern|)], pattern, period)
      <==> forall m | 1 <= m < |pattern| && pattern[m].ch == pattern[0].ch && pattern[m].pol == pattern[0].pol ::
        pattern[m].offset - pattern[m - 1].offset != QuietGap(pattern, period)
  {
    hide TwoAnchors, Scheduled;
    TestedIsLong(capture, |pattern|);
    var events, r0 := TestedPart(capture, |pattern|), Begin(capture);
    assert capture[b] == Place(pattern[0], capture[b].cycle);
    assert WindowAt(events, pattern, period, capture[b].cycle, r0 - b) by {
      forall i | 0 <= i < |events|
        ensures events[i] == Scheduled(pattern, period, capture[b].cycle, i + (r0 - b))
      {
        assert events[i] == capture[r0 + i] && r0 + i - b == i + (r0 - b);
      }
    }
    AnchorsOfTestedPart(capture, pattern, period, b);
    WindowIsSame(events, pattern, period);
    forall m | 1 <= m < |pattern| && pattern[m].ch == pattern[0].ch && pattern[m].pol == pattern[0].pol
      ensures Ties(pattern, period, m) <==> pattern[m].offset - pattern[m - 1].offset == QuietGap(pattern, period)
    {
    }
  }

  // ------------------------------------------------------------ a capture that is never "same"

  const TIED: Pattern := [Slot(0, 0, 1), Slot(3, 0, 0), Slot(13, 0, 1), Slot(17, 0, 0)]

  /** Four frames of one channel: gaps of 10, 3, 10 and 4 cycles. */
  const TIED_CAPTURE: seq<Event> := [
    Event(0, 0, 1), Event(3, 0, 0), Event(13, 0, 1), Event(17, 0, 0),
    Event(27, 0, 1), Event(30, 0, 0), Event(40, 0, 1), Event(44, 0, 0),
    Event(54, 0, 1), Event(57, 0, 0), Event(67, 0, 1), Event(71, 0, 0),
    Event(81, 0, 1), Event(84, 0, 0), Event(94, 0, 1), Event(98, 0, 0)]

  /** What the detection can find in a capture. */
  ghost predicate Finds(events: seq<Event>, found: Option<(Pattern, int)>) {
    && (found.None? <==> |events| < 8 || forall k | 1 <= k <= Limit(events) :: !Repeats(events, k))
    && (found.Some? ==> var k := |found.value.0|;
          IsSmallest(events, k) && IsPatternOf(events, k, found.value.0, found.value.1))
  }

  /** The detection has one answer. */
  lemma DetectionIsUnique(events: seq<Event>, found: Option<(Pattern, int)>, found': Option<(Pattern, int)>)
    requires Finds(events, found) && Finds(events, found')
    ensures found == found'
  {
    hide Repeats, Rotated, Sorted, IsWidest;
    if found.Some? && found'.Some? {
      var k := |found.value.0|;
      var block, period := events[Begin(events)..Begin(events) + k], Period(events, k);
      forall a: nat, a': nat | IsWidest(block, period, a) && IsWidest(block, period, a') ensures a == a' {
        WidestIsUnique(block, period, a, a');
      }
    }
  }

  lemma WidestIsUnique(block: seq<Event>, period: int, a: nat, a': nat)
    requires IsWidest(block, period, a) && IsWidest(block, period, a')
    ensures a == a'
  {
    hide GapBefore;
    var x, y := GapBefore(block, period, a), GapBefore(block, period, a');
    assert x < y || (x == y && a' <= a);
    assert y < x || (x == y && a <= a');
  }

  lemma TiedRepeats()
    ensures IsSmallest(TIED_CAPTURE, 4) && Period(TIED_CAPTURE, 4) == 27
  {
    NotEarlier();
    var e := TIED_CAPTURE;
    assert Begin(e) == 4 && Limit(e) == 4 && Tested(e, 4) == 8;
  }

  lemma NotEarlier()
    ensures Limit(TIED_CAPTURE) == 4 && forall k | 1 <= k < 4 :: !Repeats(TIED_CAPTURE, k)
  {
    var e := TIED_CAPTURE;
    assert e[5].pol != e[4].pol && e[7].pol != e[4].pol && e[7].cycle - e[5].cycle != e[6].cycle - e[4].cycle;
    forall k | 1 <= k < 4 ensures !Repeats(e, k) {
      assert e[4 + k] != Later(e[4], Period(e, k)) || e[5 + k] != Later(e[5], Period(e, k));
    }
  }

  lemma TiedPattern()
    ensures var block := TIED_CAPTURE[4..8];
      IsWidest(block, 27, 0) && Rotated(block, 27, 0) == TIED && Sorted(Before, TIED) == TIED
  {
    var block := TIED_CAPTURE[4..8];
    assert block == [Event(27, 0, 1), Event(30, 0, 0), Event(40, 0, 1), Event(44, 0, 0)];
    assert block[0..] + block[..0] == block;
    SortedAlready(Before, TIED);
  }

  /** Its own pattern is detected in this capture, and it is judged "different" against it. */
  lemma TiedCaptureDiffers(found: Option<(Pattern, int)>)
    requires Finds(TIED_CAPTURE, found)
    ensures found == Some((TIED, 27))
    ensures TwoAnchors(TIED_CAPTURE, TIED, 27) && IsWindow(TIED_CAPTURE, TIED, 27)
    ensures !RunFollows([TIED_CAPTURE], TIED, 27)
  {
    hide IsSmallest, IsWidest, Rotated, Sorted, Scheduled;
    TiedRepeats();
    TiedPattern();
    TiedWindow();
    assert IsPatternOf(TIED_CAPTURE, 4, TIED, 27);
    FoundIs(TIED_CAPTURE, TIED, 27);
    DetectionIsUnique(TIED_CAPTURE, found, Some((TIED, 27)));
    assert IsAnchor(TIED_CAPTURE, TIED, 27, 2) && IsAnchor(TIED_CAPTURE, TIED, 27, 4);
    assert Ties(TIED, 27, 2);
    TiedIsNeverSame([TIED_CAPTURE], TIED, 27, 2);
  }

  lemma FoundIs(events: seq<Event>, pattern: Pattern, period: int)
    requires |events| >= 8 && IsSmallest(events, |pattern|) && IsPatternOf(events, |pattern|, pattern, period)
    ensures Finds(events, Some((pattern, period)))
  {
  }

  lemma TiedFrame(q: nat)
    requires q < 4
    ensures forall m | 0 <= m < 4 :: TIED_CAPTURE[4 * q + m] == Place(TIED[m], 27 * q)
  {
  }

  lemma TiedWindow()
    ensures IsWindow(TIED_CAPTURE, TIED, 27)
  {
    forall i | 0 <= i < 16 ensures TIED_CAPTURE[i] == Scheduled(TIED, 27, 0, i) {
      TiedFrame(i / 4);
    }
    assert WindowAt(TIED_CAPTURE, TIED, 27, 0, 0);
  }

  // ------------------------------------------------------------ captures without a frame

  /** A capture with fewer than two anchors changes no verdict, whatever it holds. */
  lemma FramelessIsUnexamined(segments: seq<seq<Event>>, extra: seq<Event>, pattern: Pattern, period: int)
    requires !TwoAnchors(extra, pattern, period)
    ensures RunFollows(segments + [extra], pattern, period) <==> RunFollows(segments, pattern, period)
  {
    hide TwoAnchors, Follows, OneAnchor;
    var all := segments + [extra];
    if s: nat :| s < |all| && TwoAnchors(all[s], pattern, period) { assert all[s] == segments[s]; }
    assert forall s | 0 <= s < |segments| :: all[s] == segments[s];
  }

  const PULSE: Pattern := [Slot(0, 0, 1), Slot(3, 0, 0)]

  const CLEAN: seq<Event> := [Event(0, 0, 1), Event(3, 0, 0), Event(10, 0, 1), Event(13, 0, 0), Event(20, 0, 1)]

  const OFF: seq<Event> := [Event(0, 0, 1), Event(5, 0, 0)]

  /** So a run is "same" although one of its captures is nowhere on the schedule. */
  lemma OffScheduleUnexamined()
    ensures RunFollows([CLEAN], PULSE, 10) && RunFollows([CLEAN, OFF], PULSE, 10)
    ensures !TwoAnchors(OFF, PULSE, 10) && !IsWindow(OFF, PULSE, 10)
  {
    hide RunFollows, TwoAnchors, IsWindow;
    CleanIsSame();
    OffIsOff();
    FramelessIsUnexamined([CLEAN], OFF, PULSE, 10);
    assert [CLEAN] + [OFF] == [CLEAN, OFF];
  }

  lemma CleanIsSame()
    ensures RunFollows([CLEAN], PULSE, 10)
  {
    hide RunFollows, Scheduled;
    assert IsAnchor(CLEAN, PULSE, 10, 2) && IsAnchor(CLEAN, PULSE, 10, 4);
    CleanWindow();
    WindowIsSame(CLEAN, PULSE, 10);
  }

  lemma CleanWindow()
    ensures IsWindow(CLEAN, PULSE, 10)
  {
    assert WindowAt(CLEAN, PULSE, 10, 0, 0);
  }

  lemma OffIsOff()
    ensures !TwoAnchors(OFF, PULSE, 10) && !IsWindow(OFF, PULSE, 10)
  {
    hide Scheduled;
    forall c0, shift ensures !WindowAt(OFF, PULSE, 10, c0, shift) {
      if WindowAt(OFF, PULSE, 10, c0, shift) { FirstGap(OFF, PULSE, 10, c0, shift); }
    }
  }

  lemma FirstGap(events: seq<Event>, pattern: Pattern, period: int, c0: int, shift: int)
    requires WindowAt(events, pattern, period, c0, shift) && |events| >= 2 && pattern[0].offset == 0
    ensures var m := (shift + 1) % |pattern|;
      events[1].cycle - events[0].cycle
      == if m == 0 then QuietGap(pattern, period) else pattern[m].offset - pattern[m - 1].offset
  {
    hide Scheduled;
    ScheduledGap(pattern, period, c0, shift + 1);
    assert events[0] == Scheduled(pattern, period, c0, 0 + shift);
    assert events[1] == Scheduled(pattern, period, c0, 1 + shift);
  }
}
