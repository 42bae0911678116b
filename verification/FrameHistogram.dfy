/**
 Edge-interval histograms per frame (demo/pe_capture.py: frame_histograms, _per_frame_hist).

 An interval runs from an edge to the next edge of the same channel. It is filed under the
 channel, the level it shows and its length; a histogram is the multiset of filed intervals.
 */
module FrameHistogram {
  import opened Results
  import opened Arith
  import opened FrameCheck

  datatype Interval = Interval(ch: nat, high: bool, length: int)

  // ------------------------------------------------------------ the histogram of a capture

  /** The first event of a channel at or after an index. */
  function NextEdge(events: seq<Event>, ch: nat, from: nat): (next: Option<nat>)
    ensures next.Some? ==> from <= next.value < |events| && events[next.value].ch == ch
    ensures forall i | from <= i < (if next.Some? then next.value else |events|) :: events[i].ch != ch
    decreases |events| - from
  {
    if from >= |events| then None
    else if events[from].ch == ch then Some(from)
    else NextEdge(events, ch, from + 1)
  }

  /** What event i contributes: nothing when its channel has no later edge. */
  function Filed(events: seq<Event>, i: nat, next: Option<nat>): multiset<Interval>
    requires i < |events| && (next.Some? ==> next.value < |events|)
  {
    if next.None? then multiset{}
    else multiset{Interval(events[i].ch, events[i].pol == 1, events[next.value].cycle - events[i].cycle)}
  }

  /** The level of a channel before event x, by its last edge. */
  function LevelBefore(events: seq<Event>, ch: nat, x: nat): Option<int>
    requires x <= |events|
  {
    if x == 0 then None else if events[x - 1].ch == ch then Some(events[x - 1].pol) else LevelBefore(events, ch, x - 1)
  }

  /** A filed interval is a stretch from edge to edge in which the channel keeps the level it is filed under. */
  lemma {:induction false} FiledIsLevel(events: seq<Event>, i: nat, j: nat, x: nat)
    requires i < x <= j < |events| && NextEdge(events, events[i].ch, i + 1) == Some(j)
    ensures var ch, level := events[i].ch, LevelBefore(events, events[i].ch, x);
      Filed(events, i, Some(j)) == multiset{Interval(ch, level == Some(1), events[j].cycle - events[i].cycle)}
  {
    hide NextEdge;
    if x > i + 1 { FiledIsLevel(events, i, j, x - 1); }
  }

  ghost function Histogram(events: seq<Event>, lo: nat, hi: nat): multiset<Interval>
    requires lo <= hi <= |events|
  {
    if lo == hi then multiset{}
    else Histogram(events, lo, hi - 1) + Filed(events, hi - 1, NextEdge(events, events[hi - 1].ch, hi))
  }

  /** The dictionary of a backward scan that has reached index i. */
  ghost predicate IsNextMap(next: map<nat, nat>, events: seq<Event>, i: nat) {
    forall ch: nat :: NextEdge(events, ch, i) == Lookup(next, ch)
  }

  function Lookup(next: map<nat, nat>, ch: nat): Option<nat> {
    if ch in next then Some(next[ch]) else None
  }

  lemma NextMapStep(next: map<nat, nat>, events: seq<Event>, i: nat)
    requires i < |events| && IsNextMap(next, events, i + 1)
    ensures IsNextMap(next[events[i].ch := i], events, i)
  {
    forall ch: nat ensures NextEdge(events, ch, i) == Lookup(next[events[i].ch := i], ch) {
      assert NextEdge(events, ch, i + 1) == Lookup(next, ch);
    }
  }

  /** From event i on, the entries are the next edges. */
  ghost predicate IsFollowing(following: seq<Option<nat>>, events: seq<Event>, i: nat) {
    |following| == |events| && forall j | i <= j < |events| :: following[j] == NextEdge(events, events[j].ch, j + 1)
  }

  lemma FollowingStep(following: seq<Option<nat>>, events: seq<Event>, i: nat, next: Option<nat>)
    requires i < |events| && IsFollowing(following, events, i + 1) && next == NextEdge(events, events[i].ch, i + 1)
    ensures IsFollowing(following[i := next], events, i)
  {
    hide NextEdge;
  }

  /** The next edge of every event, by one scan from the end. */
  method Following(events: seq<Event>) returns (following: seq<Option<nat>>)
    ensures IsFollowing(following, events, 0)
  {
    hide NextEdge, IsNextMap, Lookup;
    var next: map<nat, nat> := map[];
    following := seq(|events|, _ => None);
    var i := |events|;
    NothingFollows(events);
    while i > 0
      invariant 0 <= i <= |events| && IsFollowing(following, events, i) && IsNextMap(next, events, i)
    {
      i := i - 1;
      var ch := events[i].ch;
      NextIsLookup(next, events, i + 1, ch);
      FollowingStep(following, events, i, Lookup(next, ch));
      following := following[i := Lookup(next, ch)];
      NextMapStep(next, events, i);
      next := next[ch := i];
    }
  }

  lemma NextIsLookup(next: map<nat, nat>, events: seq<Event>, i: nat, ch: nat)
    requires IsNextMap(next, events, i)
    ensures NextEdge(events, ch, i) == Lookup(next, ch)
  {
  }

  lemma NothingFollows(events: seq<Event>)
    ensures IsNextMap(map[], events, |events|)
  {
  }

  method FrameHistograms(events: seq<Event>, lo: nat, hi: nat, into: multiset<Interval>)
    returns (into': multiset<Interval>)
    requires lo <= hi <= |events|
    ensures into' == into + Histogram(events, lo, hi)
  {
    var following := Following(events);
    into' := into;
    for i := lo to hi
      invariant into' == into + Histogram(events, lo, i)
    {
      into' := into' + Filed(events, i, following[i]);
    }
  }

  // ------------------------------------------------------------ the histogram of one frame

  /** One frame's edges, from cycle 0. */
  function Placed(pattern: seq<Slot>): (events: seq<Event>)
    ensures |events| == |pattern| && forall j | 0 <= j < |pattern| :: events[j] == Place(pattern[j], 0)
  {
    seq(|pattern|, j requires 0 <= j < |pattern| => Place(pattern[j], 0))
  }

  function NextSlot(pattern: seq<Slot>, ch: nat, from: nat): (next: Option<nat>)
    ensures next.Some? ==> from <= next.value < |pattern| && pattern[next.value].ch == ch
    ensures forall i | from <= i < (if next.Some? then next.value else |pattern|) :: pattern[i].ch != ch
  {
    var events := Placed(pattern);
    var next := NextEdge(events, ch, from);
    assert forall i | 0 <= i < |pattern| :: pattern[i].ch == events[i].ch;
    next
  }

  /** The next slot of the same channel, going around the frame. */
  function NextAround(pattern: seq<Slot>, m: nat): (next: nat)
    requires m < |pattern|
    ensures next < |pattern| && pattern[next].ch == pattern[m].ch
  {
    var ch := pattern[m].ch;
    var later := NextSlot(pattern, ch, m + 1);
    if later.Some? then later.value else NextSlot(pattern, ch, 0).value
  }

  function SlotInterval(pattern: seq<Slot>, period: int, m: nat, next: nat): Interval
    requires m < |pattern| && next < |pattern| && period > 0
  {
    var d := (pattern[next].offset - pattern[m].offset) % period;
    Interval(pattern[m].ch, pattern[m].pol == 1, if d == 0 then period else d)
  }

  /** The intervals of the first m slots of the endlessly repeated frame. */
  ghost function Cyclic(pattern: seq<Slot>, period: int, m: nat): multiset<Interval>
    requires m <= |pattern| && period > 0
  {
    if m == 0 then multiset{}
    else Cyclic(pattern, period, m - 1) + multiset{SlotInterval(pattern, period, m - 1, NextAround(pattern, m - 1))}
  }

  /** The part of the cyclic histogram that belongs to channels lo .. hi - 1. */
  ghost function CyclicOf(pattern: seq<Slot>, period: int, lo: nat, hi: nat, m: nat): multiset<Interval>
    requires m <= |pattern| && period > 0
  {
    if m == 0 then multiset{}
    else if lo <= pattern[m - 1].ch < hi then
      CyclicOf(pattern, period, lo, hi, m - 1)
      + multiset{SlotInterval(pattern, period, m - 1, NextAround(pattern, m - 1))}
    else CyclicOf(pattern, period, lo, hi, m - 1)
  }

  /** The slots of one channel, in order. */
  function Only(pattern: seq<Slot>, ch: nat, m: nat): (r: seq<nat>)
    requires m <= |pattern|
    ensures forall j | 0 <= j < |r| :: r[j] < m && pattern[r[j]].ch == ch
    ensures forall i | 0 <= i < m && pattern[i].ch == ch :: i in r
    ensures forall x, y | 0 <= x < y < |r| :: r[x] < r[y]
  {
    if m == 0 then []
    else if pattern[m - 1].ch == ch then Only(pattern, ch, m - 1) + [m - 1]
    else Only(pattern, ch, m - 1)
  }

  lemma NextSlotIs(pattern: seq<Slot>, ch: nat, from: nat, j: nat)
    requires from <= j < |pattern| && pattern[j].ch == ch && forall i | from <= i < j :: pattern[i].ch != ch
    ensures NextSlot(pattern, ch, from) == Some(j)
  {
  }

  lemma NextEdgeIs(events: seq<Event>, ch: nat, from: nat, j: nat)
    requires from <= j < |events| && events[j].ch == ch && forall i | from <= i < j :: events[i].ch != ch
    ensures NextEdge(events, ch, from) == Some(j)
  {
  }

  /** In the list of a channel's slots, the cyclic successor is the next slot around the frame. */
  lemma SuccessorIsNextAround(pattern: seq<Slot>, ch: nat, x: nat)
    requires x < |Only(pattern, ch, |pattern|)|
    ensures var slots := Only(pattern, ch, |pattern|);
      NextAround(pattern, slots[x]) == slots[if x + 1 == |slots| then 0 else x + 1]
  {
    hide NextSlot, Only;
    var slots := Only(pattern, ch, |pattern|);
    if x + 1 < |slots| {
      forall i | slots[x] < i < slots[x + 1] ensures pattern[i].ch != ch {
        NotListed(slots, x, i);
      }
      NextSlotIs(pattern, ch, slots[x] + 1, slots[x + 1]);
    } else {
      forall i | slots[x] < i < |pattern| ensures pattern[i].ch != ch {
        NotListed(slots, x, i);
      }
      assert NextSlot(pattern, ch, slots[x] + 1).None?;
      forall i | 0 <= i < slots[0] ensures pattern[i].ch != ch {
        assert forall z | 0 <= z < |slots| :: slots[0] <= slots[z];
      }
      NextSlotIs(pattern, ch, 0, slots[0]);
    }
  }

  lemma NotListed(slots: seq<nat>, x: nat, i: nat)
    requires x < |slots| && slots[x] < i && (x + 1 < |slots| ==> i < slots[x + 1])
    requires forall y, z | 0 <= y < z < |slots| :: slots[y] < slots[z]
    ensures i !in slots
  {
    forall z | 0 <= z < |slots| ensures slots[z] != i {
      if z > x + 1 { assert slots[x + 1] < slots[z]; }
    }
  }

  /** One channel's slots, filed one by one, are its part of the cyclic histogram. */
  ghost function Listed(pattern: seq<Slot>, period: int, slots: seq<nat>): multiset<Interval>
    requires period > 0 && forall x | 0 <= x < |slots| :: slots[x] < |pattern|
  {
    if slots == [] then multiset{}
    else
      var m := slots[|slots| - 1];
      Listed(pattern, period, slots[..|slots| - 1]) + multiset{SlotInterval(pattern, period, m, NextAround(pattern, m))}
  }

  lemma {:induction false} ListedIsCyclicOf(pattern: seq<Slot>, period: int, ch: nat, m: nat)
    requires m <= |pattern| && period > 0
    ensures Listed(pattern, period, Only(pattern, ch, m)) == CyclicOf(pattern, period, ch, ch + 1, m)
  {
    hide SlotInterval, NextAround, Listed, Only, CyclicOf;
    CyclicOfStep(pattern, period, ch, ch + 1, m);
    if m == 0 {
      NoneListed(pattern, period, ch);
    } else {
      ListedIsCyclicOf(pattern, period, ch, m - 1);
      OnlyStep(pattern, ch, m - 1);
      if pattern[m - 1].ch == ch { ListedStep(pattern, period, Only(pattern, ch, m - 1), m - 1); }
    }
  }

  lemma CyclicOfStep(pattern: seq<Slot>, period: int, lo: nat, hi: nat, m: nat)
    requires m <= |pattern| && period > 0
    ensures CyclicOf(pattern, period, lo, hi, m) ==
      if m == 0 then multiset{}
      else if lo <= pattern[m - 1].ch < hi then
        CyclicOf(pattern, period, lo, hi, m - 1)
        + multiset{SlotInterval(pattern, period, m - 1, NextAround(pattern, m - 1))}
      else CyclicOf(pattern, period, lo, hi, m - 1)
  {
  }

  lemma NoneListed(pattern: seq<Slot>, period: int, ch: nat)
    requires period > 0
    ensures Only(pattern, ch, 0) == [] && Listed(pattern, period, []) == multiset{}
  {
  }

  lemma OnlyStep(pattern: seq<Slot>, ch: nat, m: nat)
    requires m < |pattern|
    ensures var slots := Only(pattern, ch, m);
      Only(pattern, ch, m + 1) == if pattern[m].ch == ch then slots + [m] else slots
  {
  }

  lemma ListedStep(pattern: seq<Slot>, period: int, slots: seq<nat>, m: nat)
    requires period > 0 && m < |pattern| && forall x | 0 <= x < |slots| :: slots[x] < |pattern|
    ensures Listed(pattern, period, slots + [m])
         == Listed(pattern, period, slots) + multiset{SlotInterval(pattern, period, m, NextAround(pattern, m))}
  {
    assert (slots + [m])[..|slots|] == slots;
  }

  lemma {:induction false} CyclicOfNextChannel(pattern: seq<Slot>, period: int, ch: nat, m: nat)
    requires m <= |pattern| && period > 0
    ensures CyclicOf(pattern, period, 0, ch + 1, m)
         == CyclicOf(pattern, period, 0, ch, m) + CyclicOf(pattern, period, ch, ch + 1, m)
  {
    hide SlotInterval, NextAround;
    if m > 0 { CyclicOfNextChannel(pattern, period, ch, m - 1); }
  }

  lemma {:induction false} CyclicOfAll(pattern: seq<Slot>, period: int, channels: nat, m: nat)
    requires m <= |pattern| && period > 0 && forall i | 0 <= i < |pattern| :: pattern[i].ch < channels
    ensures CyclicOf(pattern, period, 0, channels, m) == Cyclic(pattern, period, m)
  {
    if m > 0 { CyclicOfAll(pattern, period, channels, m - 1); }
  }

  lemma {:induction false} CyclicOfNone(pattern: seq<Slot>, period: int, m: nat)
    requires m <= |pattern| && period > 0
    ensures CyclicOf(pattern, period, 0, 0, m) == multiset{}
  {
    if m > 0 { CyclicOfNone(pattern, period, m - 1); }
  }

  method ChannelHist(pattern: seq<Slot>, period: int, ch: nat, into: multiset<Interval>)
    returns (into': multiset<Interval>)
    requires period > 0
    ensures into' == into + CyclicOf(pattern, period, ch, ch + 1, |pattern|)
  {
    hide SlotInterval, NextAround, Only;
    var slots := Only(pattern, ch, |pattern|);
    into' := into;
    for x := 0 to |slots|
      invariant into' == into + Listed(pattern, period, slots[..x])
    {
      assert slots[..x + 1][..x] == slots[..x];
      SuccessorIsNextAround(pattern, ch, x);
      var next := if x + 1 == |slots| then 0 else x + 1;
      into' := into' + multiset{SlotInterval(pattern, period, slots[x], slots[next])};
    }
    assert slots[..|slots|] == slots;
    ListedIsCyclicOf(pattern, period, ch, |pattern|);
  }

  /** The histogram of one frame, channel by channel. */
  method PerFrameHist(pattern: seq<Slot>, period: int, channels: nat) returns (hist: multiset<Interval>)
    requires period > 0 && forall i | 0 <= i < |pattern| :: pattern[i].ch < channels
    ensures hist == Cyclic(pattern, period, |pattern|)
  {
    hist := multiset{};
    CyclicOfNone(pattern, period, |pattern|);
    for ch := 0 to channels
      invariant hist == CyclicOf(pattern, period, 0, ch, |pattern|)
    {
      hist := ChannelHist(pattern, period, ch, hist);
      CyclicOfNextChannel(pattern, period, ch, |pattern|);
    }
    CyclicOfAll(pattern, period, channels, |pattern|);
  }

  // ------------------------------------------------------------ captures on the grid

  /** Offsets lie in the period, in order, and no two edges of a channel share one. */
  ghost predicate ChannelsApart(pattern: Pattern, period: int) {
    && period > 0
    && (forall m | 0 <= m < |pattern| :: 0 <= pattern[m].offset < period)
    && forall m, m' | 0 <= m < m' < |pattern| && pattern[m].ch == pattern[m'].ch :: pattern[m].offset < pattern[m'].offset
  }

  ghost predicate Closed(events: seq<Event>, ch: nat, b: nat) {
    exists i | b <= i < |events| :: events[i].ch == ch
  }

  /** Every channel of the pattern has an edge at or after event b. */
  ghost predicate ClosedAfter(events: seq<Event>, pattern: Pattern, b: nat) {
    forall m | 0 <= m < |pattern| :: Closed(events, pattern[m].ch, b)
  }

  /** The interval of slot m, if it leads into the next frame, to event b or later, where its channel has no edge. */
  ghost function LostAt(events: seq<Event>, pattern: Pattern, period: int, b: nat, m: nat): multiset<Interval>
    requires m < |pattern| && period > 0
  {
    var next := NextAround(pattern, m);
    if next <= m && !Closed(events, pattern[m].ch, b) then multiset{SlotInterval(pattern, period, m, next)}
    else multiset{}
  }

  ghost function Lost(events: seq<Event>, pattern: Pattern, period: int, b: nat, m: nat): multiset<Interval>
    requires m <= |pattern| && period > 0
  {
    if m == 0 then multiset{}
    else Lost(events, pattern, period, b, m - 1) + LostAt(events, pattern, period, b, m - 1)
  }

  /** Event m of frame f, counted from event a. */
  lemma EventOfFrame(events: seq<Event>, pattern: Pattern, period: int, a: nat, f: nat, m: nat)
    requires OnGrid(events, pattern, period, a) && m < |pattern| && a + f * |pattern| + m < |events|
    ensures events[a + f * |pattern| + m] == Place(pattern[m], events[a].cycle + f * period)
  {
    DivSmall(m, |pattern|);
    DivPlus(m, |pattern|, f);
    assert a + f * |pattern| + m - a == m + f * |pattern|;
  }

  lemma ChannelInFrame(events: seq<Event>, pattern: Pattern, period: int, a: nat, f: nat, b: nat, m: nat)
    requires OnGrid(events, pattern, period, a) && m < |pattern| && b == a + f * |pattern| && b + m < |events|
    ensures events[b + m].ch == pattern[m].ch
  {
    EventOfFrame(events, pattern, period, a, f, m);
  }

  /** After slot m, the next edge of its channel is the next slot around, in this frame or the next one. */
  lemma NextEdgeOnGrid(events: seq<Event>, pattern: Pattern, period: int, a: nat, f: nat, m: nat, next: nat)
    requires OnGrid(events, pattern, period, a) && m < |pattern| && next == NextAround(pattern, m)
    requires var k := |pattern|; a + f * k + k <= |events| && (next <= m ==> a + f * k + k + next < |events|)
    ensures var k, i := |pattern|, a + f * |pattern| + m;
      NextEdge(events, pattern[m].ch, i + 1) == Some(a + f * k + next + if next <= m then k else 0)
  {
    hide OnGrid, NextEdge;
    var k, ch, base := |pattern|, pattern[m].ch, a + f * |pattern|;
    var after := base + k;
    assert after == a + (f + 1) * k by { assert (f + 1) * k == f * k + k; }
    NextEdgeFromBase(events, pattern, period, a, f, m, next, base, after);
  }

  lemma NextEdgeFromBase(events: seq<Event>, pattern: Pattern, period: int, a: nat, f: nat, m: nat, next: nat,
                         base: nat, after: nat)
    requires OnGrid(events, pattern, period, a) && m < |pattern| && next == NextAround(pattern, m)
    requires base == a + f * |pattern| && after == a + (f + 1) * |pattern| == base + |pattern| <= |events|
    requires next <= m ==> after + next < |events|
    ensures NextEdge(events, pattern[m].ch, base + m + 1) == Some(if next <= m then after + next else base + next)
  {
    hide OnGrid, NextEdge;
    var ch, j := pattern[m].ch, if next <= m then after + next else base + next;
    if next <= m {
      ChannelInFrame(events, pattern, period, a, f + 1, after, next);
    } else {
      ChannelInFrame(events, pattern, period, a, f, base, next);
    }
    forall i | base + m < i < j ensures events[i].ch != ch {
      if i < after {
        ChannelInFrame(events, pattern, period, a, f, base, i - base);
      } else {
        ChannelInFrame(events, pattern, period, a, f + 1, after, i - after);
      }
    }
    NextEdgeIs(events, ch, base + m + 1, j);
  }

  lemma SlotDistance(pattern: Pattern, period: int, m: nat, next: nat)
    requires ChannelsApart(pattern, period) && m < |pattern| && next < |pattern| && pattern[m].ch == pattern[next].ch
    ensures SlotInterval(pattern, period, m, next).length
         == pattern[next].offset - pattern[m].offset + if next <= m then period else 0
  {
    var d := pattern[next].offset - pattern[m].offset;
    if next < m {
      DivUnique(d, period, -1, d + period);
    } else {
      DivUnique(d, period, 0, d);
    }
  }

  /** An event of a complete frame files the interval of its slot when that ends in the capture. */
  lemma FiledOnGrid(events: seq<Event>, pattern: Pattern, period: int, a: nat, f: nat, m: nat, base: nat)
    requires OnGrid(events, pattern, period, a) && ChannelsApart(pattern, period) && m < |pattern|
    requires base == a + f * |pattern| && base + |pattern| <= |events|
    requires var next := NextAround(pattern, m); next <= m ==> base + |pattern| + next < |events|
    ensures Filed(events, base + m, NextEdge(events, pattern[m].ch, base + m + 1))
         == multiset{SlotInterval(pattern, period, m, NextAround(pattern, m))}
    ensures events[base + m].ch == pattern[m].ch
  {
    hide OnGrid;
    var k, next := |pattern|, NextAround(pattern, m);
    assert (f + 1) * k == f * k + k && (f + 1) * period == f * period + period;
    if next <= m {
      EventOfFrame(events, pattern, period, a, f + 1, next);
    } else {
      EventOfFrame(events, pattern, period, a, f, next);
    }
    EventOfFrame(events, pattern, period, a, f, m);
    NextEdgeOnGrid(events, pattern, period, a, f, m, next);
    SlotDistance(pattern, period, m, next);
  }

  /** The edge that a slot leads to in the next frame is recorded if and only if its channel has any edge there. */
  lemma ClosedIsRecorded(events: seq<Event>, pattern: Pattern, period: int, a: nat, f: nat, m: nat, after: nat)
    requires OnGrid(events, pattern, period, a) && m < |pattern| && NextAround(pattern, m) <= m
    requires after == a + f * |pattern|
    ensures Closed(events, pattern[m].ch, after) <==> after + NextAround(pattern, m) < |events|
  {
    hide OnGrid, NextSlot;
    var next, ch := NextAround(pattern, m), pattern[m].ch;
    if after + next < |events| {
      ChannelInFrame(events, pattern, period, a, f, after, next);
    } else if Closed(events, ch, after) {
      var i :| after <= i < |events| && events[i].ch == ch;
      ChannelInFrame(events, pattern, period, a, f, after, i - after);
    }
  }

  /** Each event of a complete frame files the interval of its slot, or that is lost. */
  lemma FiledOrLost(events: seq<Event>, pattern: Pattern, period: int, a: nat, f: nat, m: nat, base: nat)
    requires OnGrid(events, pattern, period, a) && ChannelsApart(pattern, period) && m < |pattern|
    requires base == a + f * |pattern| && base + |pattern| <= |events|
    ensures events[base + m].ch == pattern[m].ch
    ensures Filed(events, base + m, NextEdge(events, pattern[m].ch, base + m + 1))
            + LostAt(events, pattern, period, base + |pattern|, m)
         == multiset{SlotInterval(pattern, period, m, NextAround(pattern, m))}
  {
    hide OnGrid, NextEdge, SlotInterval, NextAround, Closed;
    var k, after := |pattern|, base + |pattern|;
    assert after == a + (f + 1) * k by { assert (f + 1) * k == f * k + k; }
    if NextAround(pattern, m) <= m {
      ClosedIsRecorded(events, pattern, period, a, f + 1, m, after);
    }
    if NextAround(pattern, m) <= m && !Closed(events, pattern[m].ch, after) {
      ChannelInFrame(events, pattern, period, a, f, base, m);
      NoLaterEdge(events, pattern, period, a, f, m, base);
    } else {
      FiledOnGrid(events, pattern, period, a, f, m, base);
    }
  }

  /** The last edge of a channel that is not closed has no next edge. */
  lemma NoLaterEdge(events: seq<Event>, pattern: Pattern, period: int, a: nat, f: nat, m: nat, base: nat)
    requires OnGrid(events, pattern, period, a) && m < |pattern| && NextAround(pattern, m) <= m
    requires base == a + f * |pattern| && base + |pattern| <= |events|
    requires !Closed(events, pattern[m].ch, base + |pattern|)
    ensures NextEdge(events, pattern[m].ch, base + m + 1).None?
  {
    hide OnGrid, NextSlot;
    var next := NextEdge(events, pattern[m].ch, base + m + 1);
    if next.Some? && next.value < base + |pattern| {
      ChannelInFrame(events, pattern, period, a, f, base, next.value - base);
    }
  }

  function Times(hist: multiset<Interval>, n: nat): multiset<Interval> {
    if n == 0 then multiset{} else Times(hist, n - 1) + hist
  }

  /** The first m slots of frame f, which starts at event b, add the first m slots of the cyclic histogram. */
  lemma {:induction false} HistogramOfFrame(events: seq<Event>, pattern: Pattern, period: int, a: nat, f: nat, m: nat,
                                            b: nat)
    requires OnGrid(events, pattern, period, a) && ChannelsApart(pattern, period) && m <= |pattern|
    requires b == a + f * |pattern| && a <= b && b + |pattern| <= |events|
    ensures Histogram(events, a, b + m) + Lost(events, pattern, period, b + |pattern|, m)
         == Histogram(events, a, b) + Cyclic(pattern, period, m)
  {
    hide OnGrid, Lost, LostAt, Filed, SlotInterval, NextAround, NextEdge, Histogram, Cyclic;
    if m == 0 {
      EmptyCyclic(pattern, period);
      NoneLost(events, pattern, period, b + |pattern|);
    } else {
      HistogramOfFrame(events, pattern, period, a, f, m - 1, b);
      FiledOrLost(events, pattern, period, a, f, m - 1, b);
      HistogramStep(events, a, b + m - 1);
      CyclicStep(pattern, period, m - 1);
      LostStep(events, pattern, period, b + |pattern|, m - 1);
      OneMore(Histogram(events, a, b + m - 1), Lost(events, pattern, period, b + |pattern|, m - 1),
              Histogram(events, a, b), Cyclic(pattern, period, m - 1),
              Filed(events, b + m - 1, NextEdge(events, pattern[m - 1].ch, b + m)),
              LostAt(events, pattern, period, b + |pattern|, m - 1),
              multiset{SlotInterval(pattern, period, m - 1, NextAround(pattern, m - 1))});
    }
  }

  lemma OneMore(h: multiset<Interval>, lost: multiset<Interval>, before: multiset<Interval>, c: multiset<Interval>,
                filed: multiset<Interval>, last: multiset<Interval>, slot: multiset<Interval>)
    requires h + lost == before + c && filed + last == slot
    ensures (h + filed) + (lost + last) == before + (c + slot)
  {
    assert (h + filed) + (lost + last) == (h + lost) + (filed + last);
  }

  lemma NoneLost(events: seq<Event>, pattern: Pattern, period: int, b: nat)
    requires ChannelsApart(pattern, period)
    ensures Lost(events, pattern, period, b, 0) == multiset{}
  {
  }

  lemma LostStep(events: seq<Event>, pattern: Pattern, period: int, b: nat, m: nat)
    requires m < |pattern| && ChannelsApart(pattern, period)
    ensures Lost(events, pattern, period, b, m + 1)
         == Lost(events, pattern, period, b, m) + LostAt(events, pattern, period, b, m)
  {
  }

  lemma HistogramStep(events: seq<Event>, lo: nat, hi: nat)
    requires lo <= hi < |events|
    ensures Histogram(events, lo, hi + 1)
         == Histogram(events, lo, hi) + Filed(events, hi, NextEdge(events, events[hi].ch, hi + 1))
  {
  }

  lemma CyclicStep(pattern: Pattern, period: int, m: nat)
    requires m < |pattern| && ChannelsApart(pattern, period)
    ensures Cyclic(pattern, period, m + 1)
         == Cyclic(pattern, period, m) + multiset{SlotInterval(pattern, period, m, NextAround(pattern, m))}
  {
  }

  /** Nothing is lost if and only if every channel is closed. */
  lemma {:induction false} NothingLost(events: seq<Event>, pattern: Pattern, period: int, b: nat, m: nat)
    requires m <= |pattern| && period > 0 && ClosedAfter(events, pattern, b)
    ensures Lost(events, pattern, period, b, m) == multiset{}
  {
    hide Closed, NextAround, SlotInterval;
    if m > 0 { NothingLost(events, pattern, period, b, m - 1); }
  }

  lemma {:induction false} SomethingLost(events: seq<Event>, pattern: Pattern, period: int, b: nat, j: nat, m: nat)
    requires j < m <= |pattern| && period > 0 && LostAt(events, pattern, period, b, j) != multiset{}
    ensures Lost(events, pattern, period, b, m) != multiset{}
  {
    hide LostAt;
    if j < m - 1 { SomethingLost(events, pattern, period, b, j, m - 1); }
  }

  /** The last slot of a channel leads into the next frame. */
  lemma {:induction false} LastOfChannel(pattern: seq<Slot>, m: nat) returns (j: nat)
    requires m < |pattern|
    ensures m <= j < |pattern| && pattern[j].ch == pattern[m].ch && NextAround(pattern, j) <= j
    decreases |pattern| - m
  {
    hide NextSlot;
    var next := NextAround(pattern, m);
    if next <= m { j := m; } else { j := LastOfChannel(pattern, next); }
  }

  lemma LostIsNotClosed(events: seq<Event>, pattern: Pattern, period: int, b: nat)
    requires period > 0
    ensures Lost(events, pattern, period, b, |pattern|) == multiset{} <==> ClosedAfter(events, pattern, b)
  {
    hide Closed, NextAround, SlotInterval, Lost;
    if ClosedAfter(events, pattern, b) {
      NothingLost(events, pattern, period, b, |pattern|);
    } else {
      var m :| 0 <= m < |pattern| && !Closed(events, pattern[m].ch, b);
      var j := LastOfChannel(pattern, m);
      SomethingLost(events, pattern, period, b, j, |pattern|);
    }
  }

  /** Frames that another one follows lose nothing. */
  lemma {:induction false} HistogramOfFrames(events: seq<Event>, pattern: Pattern, period: int, a: nat, f: nat, b: nat)
    requires OnGrid(events, pattern, period, a) && ChannelsApart(pattern, period)
    requires b == a + f * |pattern| && a <= b && b + |pattern| <= |events|
    ensures Histogram(events, a, b) == Times(Cyclic(pattern, period, |pattern|), f)
  {
    hide OnGrid, ClosedAfter, Cyclic, Filed, NextEdge, Lost;
    if f > 0 {
      var k, b' := |pattern|, b - |pattern|;
      FrameBefore(a, f, k, b);
      HistogramOfFrames(events, pattern, period, a, f - 1, b');
      HistogramOfFrame(events, pattern, period, a, f - 1, k, b');
      ClosedByFrame(events, pattern, period, a, f, b);
      NothingLost(events, pattern, period, b, k);
    }
  }

  lemma FrameBefore(a: nat, f: nat, k: nat, b: nat)
    requires f > 0 && b == a + f * k
    ensures b - k == a + (f - 1) * k >= a
  {
    assert (f - 1) * k == f * k - k;
    MulMonotone(0, f - 1, k);
  }

  lemma ClosedByFrame(events: seq<Event>, pattern: Pattern, period: int, a: nat, f: nat, b: nat)
    requires OnGrid(events, pattern, period, a) && b == a + f * |pattern| && b + |pattern| <= |events|
    ensures ClosedAfter(events, pattern, b)
  {
    hide OnGrid;
    forall m | 0 <= m < |pattern| ensures Closed(events, pattern[m].ch, b) {
      ChannelInFrame(events, pattern, period, a, f, b, m);
    }
  }

  /**
   For a capture that stays on the grid from its first anchor, the histogram between its first and its last
   anchor is the number of complete frames times the cyclic histogram of the pattern, less the interval of each channel
   that has no edge at or after the last anchor.
   */
  lemma HistogramLoses(events: seq<Event>, pattern: Pattern, period: int, info: FrameInfo, frames: seq<Frame>,
                       anchors: seq<nat>)
    requires Describes(info, frames, anchors, events, pattern, period) && ChannelsApart(pattern, period)
    requires info.first == Some(0) && info.departure.None?
    ensures anchors[0] <= anchors[|anchors| - 1] <= |events|
    ensures Histogram(events, anchors[0], anchors[|anchors| - 1])
            + Lost(events, pattern, period, anchors[|anchors| - 1], |pattern|)
         == Times(Cyclic(pattern, period, |pattern|), info.complete)
  {
    hide Describes, OnGrid, ChannelsApart, Lost, Histogram, Cyclic;
    LastAnchorOnGrid(events, pattern, period, info, frames, anchors);
    var a, b, k, n := anchors[0], anchors[|anchors| - 1], |pattern|, info.complete;
    FrameBefore(a, n, k, b);
    HistogramOfFrames(events, pattern, period, a, n - 1, b - k);
    HistogramOfFrame(events, pattern, period, a, n - 1, k, b - k);
  }

  /** So it counts the frames if and only if every channel has an edge there. */
  lemma HistogramCountsFrames(events: seq<Event>, pattern: Pattern, period: int, info: FrameInfo, frames: seq<Frame>,
                              anchors: seq<nat>)
    requires Describes(info, frames, anchors, events, pattern, period) && ChannelsApart(pattern, period)
    requires info.first == Some(0) && info.departure.None?
    ensures anchors[0] <= anchors[|anchors| - 1] <= |events|
    ensures Histogram(events, anchors[0], anchors[|anchors| - 1])
         == Times(Cyclic(pattern, period, |pattern|), info.complete)
      <==> ClosedAfter(events, pattern, anchors[|anchors| - 1])
  {
    hide Describes, OnGrid, Lost, Histogram, Cyclic, ClosedAfter;
    LastAnchorOnGrid(events, pattern, period, info, frames, anchors);
    HistogramLoses(events, pattern, period, info, frames, anchors);
    LostIsNotClosed(events, pattern, period, anchors[|anchors| - 1]);
    var h, lost := Histogram(events, anchors[0], anchors[|anchors| - 1]),
      Lost(events, pattern, period, anchors[|anchors| - 1], |pattern|);
    assert h + lost == h <==> lost == multiset{} by { AddsNothing(h, lost); }
  }

  lemma AddsNothing(h: multiset<Interval>, more: multiset<Interval>)
    ensures h + more == h <==> more == multiset{}
  {
    if h + more == h {
      forall x ensures more[x] == 0 { assert (h + more)[x] == h[x] + more[x]; }
    }
  }

  lemma LastAnchorOnGrid(events: seq<Event>, pattern: Pattern, period: int, info: FrameInfo, frames: seq<Frame>,
                         anchors: seq<nat>)
    requires Describes(info, frames, anchors, events, pattern, period)
    requires info.first == Some(0) && info.departure.None?
    ensures |anchors| >= 2 && info.complete >= 1 && OnGrid(events, pattern, period, anchors[0])
    ensures anchors[|anchors| - 1] == anchors[0] + info.complete * |pattern| < |events|
  {
    hide OnGrid, OneAnchor, Identical, FrameOf, FirstDeparture;
    PeriodicAfterStart(events, pattern, period, info, frames, anchors);
    var k, n := |pattern|, |frames|;
    FramesOnGrid(events, pattern, period, frames, anchors, 0, n - 1);
    assert (n - 1) * k + k == n * k;
  }

  lemma EmptyCyclic(pattern: Pattern, period: int)
    requires ChannelsApart(pattern, period)
    ensures Cyclic(pattern, period, 0) == multiset{}
  {
  }
}
