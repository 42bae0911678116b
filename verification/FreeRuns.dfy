/**
 The segments of a row without the sweep (variants6x4/row_islands.py: row_segments): they are exactly
 the longest runs of sites that no blockage overlaps.
 */
module FreeRuns {
  import opened Results
  import opened Sorting
  import opened RowCut

  ghost predicate Free(blk: seq<Span>, s: int) {
    forall b | b in blk :: !Hits(b, s)
  }

  /** A blockage without width on a site boundary overlaps no site, but ends a segment. */
  ghost predicate Split(blk: seq<Span>, x: int) {
    exists b | b in blk :: b.0 == x == b.1
  }

  /** A run of free sites from boundary to boundary, not split, and not to be continued on either side. */
  ghost predicate IsRun(core: Core, blk: seq<Span>, g: Span) {
    && Aligned(core, g.0) && Aligned(core, g.1)
    && core.box.x0 <= g.0 && g.0 + SITE <= g.1 <= core.box.x1
    && (forall s | Aligned(core, s) && g.0 <= s && s + SITE <= g.1 :: Free(blk, s))
    && (forall x | Aligned(core, x) && g.0 < x < g.1 :: !Split(blk, x))
    && (g.0 == core.box.x0 || !Free(blk, g.0 - SITE) || Split(blk, g.0))
    && (g.1 == core.box.x1 || !Free(blk, g.1) || Split(blk, g.1))
  }

  /** The segment that ends before blockage k, or at the core's edge. */
  ghost predicate SegmentAt(core: Core, blk: seq<Span>, k: nat, g: Span)
    requires k <= |blk|
  {
    var start, end := Start(core, blk, k), if k < |blk| then Down(core, blk[k].0) else core.box.x1;
    end - start >= SITE && g == (start, Min(end, core.box.x1))
  }

  /** Where the blockages end that the sweep has passed, and where the others start. */
  lemma AroundStart(core: Core, blk: seq<Span>, k: nat)
    requires k <= |blk| && Ascending(blk)
    ensures var start := Start(core, blk, k);
      && Aligned(core, start) && start >= core.box.x0
      && (forall j | 0 <= j < k :: blk[j].1 <= start)
      && (start > core.box.x0 ==> exists j | 0 <= j < k :: start - SITE < blk[j].1)
  {
    hide Start, Up;
    var start := Start(core, blk, k);
    StartPasses(core, blk, k, core.box.x0);
    StartPasses(core, blk, k, start);
    if start > core.box.x0 {
      AlignedApart(core, start, core.box.x0);
      AlignedBefore(core, start);
      StartPasses(core, blk, k, start - SITE);
    }
  }

  lemma AlignedBefore(core: Core, x: int)
    requires Aligned(core, x)
    ensures Aligned(core, x - SITE) && Aligned(core, x + SITE)
    ensures x > core.box.x0 ==> x - SITE >= core.box.x0
  {
    var k := (x - core.box.x0) / SITE;
    assert x == core.box.x0 + k * SITE;
  }

  /** What lies at the end of a stretch before blockage k: it overlaps the next site or splits there. */
  lemma BlockedAtDown(core: Core, blk: seq<Span>, k: nat)
    requires k < |blk| && blk[k].0 <= blk[k].1 && Down(core, blk[k].0) > core.box.x0
    ensures var end := Down(core, blk[k].0);
      Aligned(core, end) && end <= blk[k].0 < end + SITE && (!Free(blk, end) || Split(blk, end))
  {
    var end := Down(core, blk[k].0);
    assert end <= blk[k].0 < end + SITE;
    assert blk[k] in blk;
    assert Hits(blk[k], end) || blk[k].0 == end == blk[k].1;
  }

  lemma FreeAt(blk: seq<Span>, k: nat, from: int, s: int)
    requires k <= |blk| && (forall j | 0 <= j < k :: blk[j].1 <= from) && from <= s
    requires forall j | k <= j < |blk| :: blk[j].0 >= s + SITE
    ensures Free(blk, s)
  {
    forall b | b in blk ensures !Hits(b, s) {
      var j :| 0 <= j < |blk| && blk[j] == b;
    }
  }

  lemma NoSplitAt(blk: seq<Span>, k: nat, from: int, x: int)
    requires k <= |blk| && (forall j | 0 <= j < k :: blk[j].1 <= from) && from < x
    requires forall j | k <= j < |blk| :: blk[j].0 > x
    ensures !Split(blk, x)
  {
    forall b | b in blk ensures b.0 != x || b.1 != x {
      var j :| 0 <= j < |blk| && blk[j] == b;
    }
  }

  lemma SegmentIsRun(core: Core, blk: seq<Span>, k: nat, g: Span)
    requires WholeSites(core) && Ascending(blk) && (forall b | b in blk :: b.0 <= b.1)
    requires k <= |blk| && SegmentAt(core, blk, k, g) && g.0 < core.box.x1
    ensures IsRun(core, blk, g)
  {
    hide Start, Down, Aligned;
    AroundStart(core, blk, k);
    if k < |blk| { BlockedAtDown(core, blk, k); }
    AlignedBefore(core, g.0);
    AlignedApart(core, core.box.x1, g.0 + SITE);
    FreeBetween(core, blk, k, g);
    if g.0 > core.box.x0 {
      var j :| 0 <= j < k && g.0 - SITE < blk[j].1;
      assert blk[j] in blk;
      assert Hits(blk[j], g.0 - SITE) || blk[j].0 == g.0 == blk[j].1;
    }
  }

  /** Nothing reaches in between where the sweep stands and where the next blockage starts. */
  lemma FreeBetween(core: Core, blk: seq<Span>, k: nat, g: Span)
    requires k <= |blk| && Ascending(blk) && forall j | 0 <= j < k :: blk[j].1 <= g.0
    requires k < |blk| ==> g.1 <= blk[k].0
    ensures forall s | g.0 <= s && s + SITE <= g.1 :: Free(blk, s)
    ensures forall x | g.0 < x < g.1 :: !Split(blk, x)
  {
    forall b | b in blk ensures b.1 <= g.0 || b.0 >= g.1 {
      var j :| 0 <= j < |blk| && blk[j] == b;
    }
  }

  /** The first blockage that starts right of a free site; the ones before end left of it. */
  lemma FirstBeyondSite(blk: seq<Span>, s: int) returns (k: nat)
    requires Ascending(blk) && Free(blk, s)
    ensures k <= |blk| && FirstBeyond(blk, k, s) && forall j | k <= j < |blk| :: blk[j].0 >= s + SITE
  {
    FreeMeansBeyond(blk, s);
    k :| 0 <= k <= |blk| && FirstBeyond(blk, k, s);
  }

  lemma RunIsSegment(core: Core, blk: seq<Span>, g: Span) returns (k: nat)
    requires WholeSites(core) && Ascending(blk) && (forall b | b in blk :: b.0 <= b.1) && IsRun(core, blk, g)
    ensures k <= |blk| && SegmentAt(core, blk, k, g)
  {
    hide Start, Down, Aligned;
    k := FirstBeyondSite(blk, g.0);
    StartOfRun(core, blk, k, g);
    var end := if k < |blk| then Min(Down(core, blk[k].0), core.box.x1) else core.box.x1;
    if k < |blk| {
      Snapping(core, blk[k].0, g.0);
      BlockedAtDown(core, blk, k);
    }
    AlignedBefore(core, g.1);
    AlignedBefore(core, end);
    AlignedApart(core, end, g.1 + SITE);
    AlignedApart(core, g.1, end + SITE);
    if g.1 < end {
      FreeAt(blk, k, g.0, g.1);
      NoSplitAt(blk, k, g.0, g.1);
    }
  }

  lemma StartOfRun(core: Core, blk: seq<Span>, k: nat, g: Span)
    requires WholeSites(core) && Ascending(blk) && (forall b | b in blk :: b.0 <= b.1) && IsRun(core, blk, g)
    requires k <= |blk| && FirstBeyond(blk, k, g.0) && forall j | k <= j < |blk| :: blk[j].0 >= g.0 + SITE
    ensures Start(core, blk, k) == g.0
  {
    hide Start, Aligned;
    StartPasses(core, blk, k, g.0);
    var start := Start(core, blk, k);
    if start < g.0 {
      AroundStart(core, blk, k);
      AlignedBefore(core, start);
      AlignedApart(core, g.0, start + SITE);
      FreeAt(blk, k, start, g.0 - SITE);
      NoSplitAt(blk, k, start, g.0);
    }
  }

  lemma {:induction false} InCut(core: Core, blk: seq<Span>, k: nat, g: Span)
    requires k <= |blk|
    ensures g in Cut(core, blk, k) <==> exists j | 0 <= j < k :: SegmentAt(core, blk, j, g)
  {
    hide SegmentAt, Emitted;
    if k > 0 {
      InCut(core, blk, k - 1, g);
      InEmitted(core, blk, k - 1, g);
    }
  }

  lemma InEmitted(core: Core, blk: seq<Span>, k: nat, g: Span)
    requires k < |blk|
    ensures g in Emitted(core, blk, k) <==> SegmentAt(core, blk, k, g)
  {
    hide Start, Down;
  }

  lemma IsSegment(core: Core, blk: seq<Span>, g: Span)
    ensures g in Segments(core, blk) <==> exists j: nat | j <= |blk| :: SegmentAt(core, blk, j, g)
  {
    hide Start, Cut, SegmentAt;
    var n := |blk|;
    InCut(core, blk, n, g);
    LastSegment(core, blk, g);
  }

  lemma LastSegment(core: Core, blk: seq<Span>, g: Span)
    ensures SegmentAt(core, blk, |blk|, g) <==>
      var start := Start(core, blk, |blk|); core.box.x1 - start >= SITE && g == (start, core.box.x1)
  {
    hide Start;
  }

  /** The sweep emits exactly the free runs, unless it overruns. */
  lemma SegmentsAreRuns(core: Core, blk: seq<Span>)
    requires WholeSites(core) && Ascending(blk) && forall b | b in blk :: b.0 <= b.1
    ensures (forall g :: g in Segments(core, blk) <==> IsRun(core, blk, g)) <==> NoOverrun(core, blk, |blk|)
  {
    hide Segments, IsRun, SegmentAt;
    forall g | IsRun(core, blk, g) ensures g in Segments(core, blk) {
      var k := RunIsSegment(core, blk, g);
      IsSegment(core, blk, g);
    }
    if NoOverrun(core, blk, |blk|) {
      forall g | g in Segments(core, blk) ensures IsRun(core, blk, g) {
        IsSegment(core, blk, g);
        var k: nat :| k <= |blk| && SegmentAt(core, blk, k, g);
        StartsInside(core, blk, k, g);
        SegmentIsRun(core, blk, k, g);
      }
    } else {
      var g := Overrunning(core, blk);
      assert !IsRun(core, blk, g) by { OutsideIsNoRun(core, blk, g); }
    }
  }

  lemma OutsideIsNoRun(core: Core, blk: seq<Span>, g: Span)
    requires g.0 >= core.box.x1
    ensures !IsRun(core, blk, g)
  {
  }

  lemma StartsInside(core: Core, blk: seq<Span>, k: nat, g: Span)
    requires WholeSites(core) && k <= |blk| && SegmentAt(core, blk, k, g) && NoOverrun(core, blk, |blk|)
    ensures g.0 < core.box.x1
  {
    hide Start, Down;
  }

  lemma Overrunning(core: Core, blk: seq<Span>) returns (g: Span)
    requires !NoOverrun(core, blk, |blk|)
    ensures g in Segments(core, blk) && g.0 >= core.box.x1
  {
    hide Start, Down, Cut;
    var i :| 0 <= i < |blk| && Start(core, blk, i) >= core.box.x1
             && Down(core, blk[i].0) >= Start(core, blk, i) + SITE;
    OverrunIsEmitted(core, blk, |blk|, i);
    g := Emitted(core, blk, i)[0];
  }
}
