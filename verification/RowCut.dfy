/**
 Standard-cell rows around macros (variants6x4/row_islands.py: core_box, row_segments, closure_halo),
 in database units.

 Each row is swept from left to right over the blockages that touch it, and what is left between them
 is snapped to the site grid. The halo that closes the stripe-free gaps is computed from the macros alone.
 */
module RowCut {
  import opened Names
  import opened Results
  import opened Sorting

  const SITE := 480
  const ROW_H := 3780
  const MARGIN_X := 2880
  const MARGIN_Y := 3780

  datatype Box = Box(x0: int, y0: int, x1: int, y1: int)

  datatype Macro = Macro(name: string, box: Box)

  // ------------------------------------------------------------ the core

  datatype Core = Core(box: Box, rows: int)

  function RoundDiv(a: int, b: int): int
    requires b > 0
  {
    (2 * a + b) / (2 * b)
  }

  function CoreBox(w: int, h: int): Core {
    var sites := RoundDiv(w - 2 * MARGIN_X, SITE);
    var rows := RoundDiv(h - 2 * MARGIN_Y, ROW_H);
    Core(Box(MARGIN_X, MARGIN_Y, MARGIN_X + sites * SITE, MARGIN_Y + rows * ROW_H), rows)
  }

  const TILE_SIZES: seq<(int, int)> := [
    (202080, 154980), (202080, 313740), (419520, 154980), (419520, 313740), (636960, 154980), (636960, 313740),
    (636960, 710640), (854400, 154980), (854400, 313740), (854400, 710640), (1071840, 710640), (1289280, 154980),
    (1289280, 313740), (1289280, 710640), (1724160, 154980), (1724160, 313740), (1724160, 710640)]

  /** For every tile size the rows fill the die up to the margins, with whole sites and whole rows. */
  lemma TilesAreFilled(i: nat)
    requires i < |TILE_SIZES|
    ensures var (w, h) := TILE_SIZES[i];
      var core := CoreBox(w, h);
      && core.box == Box(MARGIN_X, MARGIN_Y, w - MARGIN_X, h - MARGIN_Y) && WholeSites(core)
  {
    var (w, h) := TILE_SIZES[i];
    assert RoundDiv(w - 2 * MARGIN_X, SITE) * SITE == w - 2 * MARGIN_X;
    assert RoundDiv(h - 2 * MARGIN_Y, ROW_H) * ROW_H == h - 2 * MARGIN_Y;
  }

  ghost predicate WholeSites(core: Core) {
    core.box.x0 <= core.box.x1 && Aligned(core, core.box.x1)
  }

  predicate Aligned(core: Core, x: int) { (x - core.box.x0) % SITE == 0 }

  /** A placement site of a row: left edge x, one site wide. */
  ghost predicate IsSite(core: Core, x: int) {
    Aligned(core, x) && core.box.x0 <= x && x + SITE <= core.box.x1
  }

  // ------------------------------------------------------------ the sweep

  type Span = (int, int)

  function Max(a: int, b: int): int { if a > b then a else b }

  function Min(a: int, b: int): int { if a < b then a else b }

  /** The last site boundary at or before x, not left of the core. */
  function Down(core: Core, x: int): int { core.box.x0 + Max(0, (x - core.box.x0) / SITE) * SITE }

  /** The first site boundary at or after x. */
  function Up(core: Core, x: int): int { core.box.x0 + -(-(x - core.box.x0) / SITE) * SITE }

  lemma Snapping(core: Core, x: int, s: int)
    requires Aligned(core, s) && s >= core.box.x0
    ensures Aligned(core, Down(core, x)) && Aligned(core, Up(core, x))
    ensures x >= s + SITE <==> Down(core, x) >= s + SITE
    ensures Down(core, x) >= s + SITE <==> Down(core, x) > s
    ensures x > s <==> Up(core, x) > s
  {
    var k := (s - core.box.x0) / SITE;
    assert s == core.box.x0 + k * SITE;
  }

  /** Where the sweep stands after k blockages. */
  function Start(core: Core, blk: seq<Span>, k: nat): int
    requires k <= |blk|
  {
    if k == 0 then core.box.x0 else Max(Start(core, blk, k - 1), Up(core, blk[k - 1].1))
  }

  /** What the sweep emits before blockage k. */
  function Emitted(core: Core, blk: seq<Span>, k: nat): seq<Span>
    requires k < |blk|
  {
    var start, end := Start(core, blk, k), Down(core, blk[k].0);
    if end - start >= SITE then [(start, Min(end, core.box.x1))] else []
  }

  function Cut(core: Core, blk: seq<Span>, k: nat): seq<Span>
    requires k <= |blk|
  {
    if k == 0 then [] else Cut(core, blk, k - 1) + Emitted(core, blk, k - 1)
  }

  function Segments(core: Core, blk: seq<Span>): seq<Span> {
    var start := Start(core, blk, |blk|);
    Cut(core, blk, |blk|) + if core.box.x1 - start >= SITE then [(start, core.box.x1)] else []
  }

  method Sweep(core: Core, blk: seq<Span>) returns (segs: seq<Span>)
    ensures segs == Segments(core, blk)
  {
    segs := [];
    var start := core.box.x0;
    for k := 0 to |blk|
      invariant segs == Cut(core, blk, k) && start == Start(core, blk, k)
    {
      var end := core.box.x0 + Max(0, (blk[k].0 - core.box.x0) / SITE) * SITE;
      if end - start >= SITE {
        segs := segs + [(start, Min(end, core.box.x1))];
      }
      var next := core.box.x0 + -(-(blk[k].1 - core.box.x0) / SITE) * SITE;
      start := Max(start, next);
    }
    if core.box.x1 - start >= SITE {
      segs := segs + [(start, core.box.x1)];
    }
  }

  // ------------------------------------------------------------ which sites are kept

  ghost predicate Ascending(blk: seq<Span>) {
    forall i, j | 0 <= i < j < |blk| :: blk[i].0 <= blk[j].0
  }

  /** The blockage and the site at s overlap. */
  predicate Hits(b: Span, s: int) { b.0 < s + SITE && b.1 > s }

  ghost predicate Kept(segs: seq<Span>, s: int) {
    exists g | g in segs :: g.0 <= s && s + SITE <= g.1
  }

  lemma {:induction false} StartPasses(core: Core, blk: seq<Span>, k: nat, s: int)
    requires k <= |blk| && Aligned(core, s) && s >= core.box.x0
    ensures Start(core, blk, k) <= s <==> forall j | 0 <= j < k :: blk[j].1 <= s
    ensures Aligned(core, Start(core, blk, k)) && Start(core, blk, k) >= core.box.x0
  {
    hide Up;
    if k > 0 {
      StartPasses(core, blk, k - 1, s);
      Snapping(core, blk[k - 1].1, s);
    }
  }

  /** Blockage k is the first to start right of the site, and the earlier ones end left of it. */
  ghost predicate FirstBeyond(blk: seq<Span>, k: nat, s: int)
    requires k <= |blk|
  {
    (k < |blk| ==> blk[k].0 >= s + SITE) && forall j | 0 <= j < k :: blk[j].1 <= s
  }

  lemma {:induction false} KeptByCut(core: Core, blk: seq<Span>, k: nat, s: int)
    requires k <= |blk| && IsSite(core, s)
    ensures Kept(Cut(core, blk, k), s) <==> exists j: nat :: j < k && FirstBeyond(blk, j, s)
  {
    hide Start, Down, Aligned;
    if k > 0 {
      KeptByCut(core, blk, k - 1, s);
      StartPasses(core, blk, k - 1, s);
      Snapping(core, blk[k - 1].0, s);
      KeptByParts(Cut(core, blk, k - 1), Emitted(core, blk, k - 1), s);
      assert Kept(Emitted(core, blk, k - 1), s) <==> FirstBeyond(blk, k - 1, s) by {
        var start, end := Start(core, blk, k - 1), Down(core, blk[k - 1].0);
        if end - start >= SITE { assert (start, Min(end, core.box.x1)) in Emitted(core, blk, k - 1); }
      }
    }
  }

  lemma KeptByParts(front: seq<Span>, back: seq<Span>, s: int)
    ensures Kept(front + back, s) <==> Kept(front, s) || Kept(back, s)
  {
  }

  /** A site is kept if and only if no blockage overlaps it. */
  lemma KeptWhenFree(core: Core, blk: seq<Span>, s: int)
    requires WholeSites(core) && Ascending(blk) && IsSite(core, s)
    ensures Kept(Segments(core, blk), s) <==> forall b | b in blk :: !Hits(b, s)
  {
    hide Start, Cut, Aligned;
    var n, start := |blk|, Start(core, blk, |blk|);
    KeptByCut(core, blk, n, s);
    StartPasses(core, blk, n, s);
    var rest: seq<Span> := if core.box.x1 - start >= SITE then [(start, core.box.x1)] else [];
    KeptByParts(Cut(core, blk, n), rest, s);
    assert Kept(rest, s) <==> FirstBeyond(blk, n, s) by {
      if start <= s { assert (start, core.box.x1) in rest; }
    }
    FreeMeansBeyond(blk, s);
  }

  lemma FreeMeansBeyond(blk: seq<Span>, s: int)
    requires Ascending(blk)
    ensures (exists k: nat :: k <= |blk| && FirstBeyond(blk, k, s)) <==> forall b | b in blk :: !Hits(b, s)
  {
    if forall b | b in blk :: !Hits(b, s) {
      var k := 0;
      while k < |blk| && blk[k].0 < s + SITE
        invariant k <= |blk| && forall j | 0 <= j < k :: blk[j].1 <= s
      {
        assert blk[k] in blk;
        k := k + 1;
      }
      assert FirstBeyond(blk, k, s);
    }
  }

  // ------------------------------------------------------------ the shape of the segments

  /** Segments inside the core, on the site grid, at least one site wide, in order and disjoint. */
  ghost predicate Proper(core: Core, segs: seq<Span>) {
    && (forall g | g in segs ::
          && core.box.x0 <= g.0 && g.0 + SITE <= g.1 <= core.box.x1
          && Aligned(core, g.0) && Aligned(core, g.1))
    && forall i | 0 < i < |segs| :: segs[i - 1].1 <= segs[i].0
  }

  /**
   Wherever the blockages so far already reach the right edge of the core, the next one starts less
   than a site beyond where they end.
   */
  ghost predicate NoOverrun(core: Core, blk: seq<Span>, k: nat)
    requires k <= |blk|
  {
    forall i | 0 <= i < k && Start(core, blk, i) >= core.box.x1 :: Down(core, blk[i].0) < Start(core, blk, i) + SITE
  }

  /** The segments are proper and end at or before a point. */
  ghost predicate ProperUpTo(core: Core, segs: seq<Span>, x: int) {
    Proper(core, segs) && (segs != [] ==> segs[|segs| - 1].1 <= x)
  }

  lemma OneMoreSegment(core: Core, segs: seq<Span>, g: Span, x: int)
    requires ProperUpTo(core, segs, g.0) && g.1 <= x && Proper(core, [g])
    ensures ProperUpTo(core, segs + [g], x)
  {
    hide Aligned;
    assert g in [g];
  }

  lemma OneSegment(core: Core, start: int, end: int)
    requires WholeSites(core) && Aligned(core, start) && Aligned(core, end)
    requires core.box.x0 <= start < core.box.x1 && end - start >= SITE
    ensures Proper(core, [(start, Min(end, core.box.x1))])
  {
  }

  lemma {:induction false} CutIsProper(core: Core, blk: seq<Span>, k: nat)
    requires k <= |blk| && WholeSites(core) && NoOverrun(core, blk, k) && forall b | b in blk :: b.0 <= b.1
    ensures ProperUpTo(core, Cut(core, blk, k), Start(core, blk, k))
  {
    hide Down, Up, Aligned, Proper, NoOverrun, Start, WholeSites;
    NoSegments(core);
    if k > 0 {
      NoOverrunBefore(core, blk, k);
      var start, end := Start(core, blk, k - 1), Down(core, blk[k - 1].0);
      CutIsProper(core, blk, k - 1);
      StartPasses(core, blk, k - 1, core.box.x0);
      Snapping(core, blk[k - 1].0, core.box.x0);
      assert blk[k - 1] in blk;
      DownBelowUp(core, blk[k - 1]);
      if end - start >= SITE {
        OneSegment(core, start, end);
        OneMoreSegment(core, Cut(core, blk, k - 1), (start, Min(end, core.box.x1)), Start(core, blk, k));
      } else {
        assert Cut(core, blk, k) == Cut(core, blk, k - 1);
      }
    }
  }

  lemma NoOverrunBefore(core: Core, blk: seq<Span>, k: nat)
    requires 0 < k <= |blk| && NoOverrun(core, blk, k)
    ensures NoOverrun(core, blk, k - 1)
    ensures Start(core, blk, k - 1) < core.box.x1 || Down(core, blk[k - 1].0) < Start(core, blk, k - 1) + SITE
    ensures Start(core, blk, k) == Max(Start(core, blk, k - 1), Up(core, blk[k - 1].1))
  {
    hide Down, Up;
  }

  lemma NoSegments(core: Core)
    ensures Proper(core, []) && Aligned(core, core.box.x0)
  {
  }

  lemma DownBelowUp(core: Core, b: Span)
    requires b.0 <= b.1
    ensures Down(core, b.0) > core.box.x0 ==> Down(core, b.0) <= Up(core, b.1)
  {
  }

  lemma {:induction false} OverrunIsEmitted(core: Core, blk: seq<Span>, k: nat, i: nat)
    requires i < k <= |blk| && Emitted(core, blk, i) != []
    ensures Emitted(core, blk, i)[0] in Cut(core, blk, k)
  {
    hide Emitted;
    if i < k - 1 { OverrunIsEmitted(core, blk, k - 1, i); }
  }

  /** The segments are proper if and only if nothing overruns. */
  lemma ProperWithoutOverrun(core: Core, blk: seq<Span>)
    requires WholeSites(core) && forall b | b in blk :: b.0 <= b.1
    ensures Proper(core, Segments(core, blk)) <==> NoOverrun(core, blk, |blk|)
  {
    hide Down, Up, Start, Cut;
    var n := |blk|;
    StartPasses(core, blk, n, core.box.x0);
    if NoOverrun(core, blk, n) {
      CutIsProper(core, blk, n);
      var start := Start(core, blk, n);
      if core.box.x1 - start >= SITE {
        OneSegment(core, start, core.box.x1);
        OneMoreSegment(core, Cut(core, blk, n), (start, core.box.x1), core.box.x1);
      }
    } else {
      var i :| 0 <= i < n && Start(core, blk, i) >= core.box.x1 && Down(core, blk[i].0) >= Start(core, blk, i) + SITE;
      OverrunIsEmitted(core, blk, n, i);
      assert Emitted(core, blk, i)[0] in Segments(core, blk);
    }
  }

  /** Blockages that start at or before the right edge of the core do not overrun ... */
  lemma InsideMeansNoOverrun(core: Core, blk: seq<Span>)
    requires WholeSites(core) && forall b | b in blk :: b.0 <= core.box.x1
    ensures NoOverrun(core, blk, |blk|)
  {
    hide Start;
    forall i | 0 <= i < |blk| && Start(core, blk, i) >= core.box.x1
      ensures Down(core, blk[i].0) < Start(core, blk, i) + SITE
    {
      assert blk[i] in blk;
    }
  }

  /** An earlier blockage leaves no whole site before the right edge. */
  ghost predicate EdgeReached(core: Core, blk: seq<Span>, i: nat)
    requires i <= |blk|
  {
    exists j | 0 <= j < i :: blk[j].1 > core.box.x1 - SITE
  }

  /** Blockage i starts less than a site beyond where some earlier one ends. */
  ghost predicate Follows(core: Core, blk: seq<Span>, i: nat)
    requires i < |blk|
  {
    exists j | 0 <= j < i :: blk[i].0 < Up(core, blk[j].1) + SITE
  }

  /** Overrun in terms of the blockages alone: each one behind the right edge must follow an earlier one. */
  lemma OverrunIsLoneBlockage(core: Core, blk: seq<Span>)
    requires WholeSites(core) && core.box.x0 < core.box.x1
    ensures NoOverrun(core, blk, |blk|) <==> forall i | 0 <= i < |blk| && EdgeReached(core, blk, i) :: Follows(core, blk, i)
  {
    hide Start, Down, Up;
    forall i | 0 <= i < |blk|
      ensures Start(core, blk, i) >= core.box.x1 <==> EdgeReached(core, blk, i)
      ensures EdgeReached(core, blk, i) ==>
        (Down(core, blk[i].0) < Start(core, blk, i) + SITE <==> Follows(core, blk, i))
    {
      var start := Start(core, blk, i);
      StartPasses(core, blk, i, core.box.x1 - SITE);
      AlignedApart(core, start, core.box.x1);
      Snapping(core, blk[i].0, start);
      StartIsLargest(core, blk, i);
    }
  }

  lemma AlignedApart(core: Core, x: int, y: int)
    requires Aligned(core, x) && Aligned(core, y)
    ensures x > y - SITE <==> x >= y
  {
  }

  lemma {:induction false} StartIsLargest(core: Core, blk: seq<Span>, k: nat)
    requires k <= |blk|
    ensures forall j | 0 <= j < k :: Up(core, blk[j].1) <= Start(core, blk, k)
    ensures Start(core, blk, k) == core.box.x0 || exists j | 0 <= j < k :: Start(core, blk, k) == Up(core, blk[j].1)
  {
    hide Up;
    if k > 0 { StartIsLargest(core, blk, k - 1); }
  }

  // ------------------------------------------------------------ the rows

  function RowBox(core: Core, r: int): Box {
    Box(core.box.x0, core.box.y0 + r * ROW_H, core.box.x1, core.box.y0 + r * ROW_H + ROW_H)
  }

  /** The rows lie on one another from the bottom of the core, and on a tile the last one ends at its top. */
  lemma RowsFillCore(core: Core, r: int)
    ensures RowBox(core, 0).y0 == core.box.y0 && RowBox(core, r + 1).y0 == RowBox(core, r).y1
    ensures RowBox(core, r).y1 - RowBox(core, r).y0 == ROW_H
    ensures RowBox(core, r).x0 == core.box.x0 && RowBox(core, r).x1 == core.box.x1
    ensures (exists w, h :: core == CoreBox(w, h)) ==> RowBox(core, core.rows - 1).y1 == core.box.y1
  {
    if w, h :| core == CoreBox(w, h) { assert core.box.y1 == core.box.y0 + core.rows * ROW_H; }
  }

  /** The blockage reaches into the row. */
  predicate InRow(core: Core, r: int, b: Box) { b.y0 < RowBox(core, r).y1 && b.y1 > RowBox(core, r).y0 }

  function Grown(b: Box, hh: int, vh: int): Box { Box(b.x0 - hh, b.y0 - vh, b.x1 + hh, b.y1 + vh) }

  /** What blocks cells: the macros with their halo, and the obstructions. */
  function Blockages(macros: seq<Macro>, hh: int, vh: int, obs: seq<Box>): seq<Box> {
    seq(|macros|, i requires 0 <= i < |macros| => Grown(macros[i].box, hh, vh)) + obs
  }

  function SpansIn(core: Core, r: int, boxes: seq<Box>): (blk: seq<Span>)
    ensures forall b | b in boxes && InRow(core, r, b) :: (b.x0, b.x1) in blk
    ensures forall p | p in blk :: exists b | b in boxes :: InRow(core, r, b) && p == (b.x0, b.x1)
  {
    if boxes == [] then []
    else
      var b := boxes[0];
      assert boxes == [b] + boxes[1..];
      (if InRow(core, r, b) then [(b.x0, b.x1)] else []) + SpansIn(core, r, boxes[1..])
  }

  /** The order of the pairs (left end, right end). */
  predicate Sooner(p: Span, q: Span) { p.0 < q.0 || (p.0 == q.0 && p.1 < q.1) }

  lemma SortedInOrder(blk: seq<Span>)
    ensures Ascending(Sorted(Sooner, blk)) && forall q :: q in Sorted(Sooner, blk) <==> q in blk
  {
    var sorted := Sorted(Sooner, blk);
    SortedIsOrdered(Sooner, blk);
    forall q ensures q in sorted <==> q in blk {
      assert q in multiset(sorted) <==> q in multiset(blk);
    }
  }

  /** The cut of row r. */
  function RowOf(core: Core, r: int, macros: seq<Macro>, hh: int, vh: int, obs: seq<Box>): seq<Span> {
    Segments(core, Sorted(Sooner, SpansIn(core, r, Blockages(macros, hh, vh, obs))))
  }

  method RowSegments(core: Core, macros: seq<Macro>, hh: int, vh: int, obs: seq<Box>) returns (rows: seq<seq<Span>>)
    requires core.rows >= 0
    ensures |rows| == core.rows
    ensures forall r | 0 <= r < core.rows :: rows[r] == RowOf(core, r, macros, hh, vh, obs)
  {
    hide Segments, Sorted, SpansIn, Blockages;
    rows := [];
    for r := 0 to core.rows
      invariant |rows| == r && forall q | 0 <= q < r :: rows[q] == RowOf(core, q, macros, hh, vh, obs)
    {
      var row := Sweep(core, Sorted(Sooner, SpansIn(core, r, Blockages(macros, hh, vh, obs))));
      rows := rows + [row];
    }
  }

  /** Open rectangles overlap. */
  predicate Overlap(p: Box, q: Box) { p.x0 < q.x1 && q.x0 < p.x1 && p.y0 < q.y1 && q.y0 < p.y1 }

  /** The rectangle of a site: rows are ROW_H high and start at the bottom of the core. */
  function SiteBox(core: Core, r: int, s: int): Box {
    Box(s, core.box.y0 + r * ROW_H, s + SITE, core.box.y0 + (r + 1) * ROW_H)
  }

  /** A site of row r is kept if and only if no macro with its halo and no obstruction overlaps it. */
  lemma RowKeepsFreeSites(core: Core, r: int, macros: seq<Macro>, hh: int, vh: int, obs: seq<Box>, s: int)
    requires WholeSites(core) && IsSite(core, s)
    ensures Kept(RowOf(core, r, macros, hh, vh, obs), s) <==>
      (forall m | m in macros :: !Overlap(Grown(m.box, hh, vh), SiteBox(core, r, s)))
      && forall o | o in obs :: !Overlap(o, SiteBox(core, r, s))
  {
    hide Segments, Sorted, SpansIn, Kept;
    var boxes := Blockages(macros, hh, vh, obs);
    var blk := SpansIn(core, r, boxes);
    SortedInOrder(blk);
    KeptWhenFree(core, Sorted(Sooner, blk), s);
    assert (forall b | b in blk :: !Hits(b, s)) <==> forall b | b in boxes :: !Overlap(b, SiteBox(core, r, s)) by {
      if exists b | b in boxes :: Overlap(b, SiteBox(core, r, s)) {
        var b :| b in boxes && Overlap(b, SiteBox(core, r, s));
        assert (b.x0, b.x1) in blk && Hits((b.x0, b.x1), s);
      }
    }
    BlockagesAre(macros, hh, vh, obs);
  }

  /** In coordinates: row r of ROW_H from the core's bottom, a macro with hh on either side and vh above and below. */
  lemma KeptSiteIsClear(core: Core, r: int, macros: seq<Macro>, hh: int, vh: int, obs: seq<Box>, s: int)
    requires WholeSites(core) && IsSite(core, s)
    ensures var bottom, top := core.box.y0 + r * ROW_H, core.box.y0 + r * ROW_H + ROW_H;
      Kept(RowOf(core, r, macros, hh, vh, obs), s) <==>
      (forall m | m in macros ::
         m.box.x1 + hh <= s || s + SITE <= m.box.x0 - hh || m.box.y1 + vh <= bottom || top <= m.box.y0 - vh)
      && forall o | o in obs :: o.x1 <= s || s + SITE <= o.x0 || o.y1 <= bottom || top <= o.y0
  {
    hide RowOf, Kept, WholeSites, IsSite;
    RowKeepsFreeSites(core, r, macros, hh, vh, obs, s);
    var site := SiteBox(core, r, s);
    forall m | m in macros ensures !Overlap(Grown(m.box, hh, vh), site) <==>
      m.box.x1 + hh <= s || s + SITE <= m.box.x0 - hh || m.box.y1 + vh <= site.y0 || site.y1 <= m.box.y0 - vh
    {
    }
  }

  lemma BlockagesAre(macros: seq<Macro>, hh: int, vh: int, obs: seq<Box>)
    ensures forall m | m in macros :: Grown(m.box, hh, vh) in Blockages(macros, hh, vh, obs)
    ensures forall o | o in obs :: o in Blockages(macros, hh, vh, obs)
    ensures forall b | b in Blockages(macros, hh, vh, obs) ::
      b in obs || exists m | m in macros :: b == Grown(m.box, hh, vh)
  {
    var boxes := Blockages(macros, hh, vh, obs);
    forall m | m in macros ensures Grown(m.box, hh, vh) in boxes {
      var i :| 0 <= i < |macros| && macros[i] == m;
      assert boxes[i] == Grown(m.box, hh, vh);
    }
    forall o | o in obs ensures o in boxes {
      var i :| 0 <= i < |obs| && obs[i] == o;
      assert boxes[|macros| + i] == o;
    }
  }

  /** The left edge is at or before the right edge. */
  predicate IsBox(b: Box) { b.x0 <= b.x1 }

  /** The segments of a row are in order, disjoint, on the grid and inside the core, unless the sweep overruns. */
  lemma RowIsProper(core: Core, r: int, macros: seq<Macro>, hh: nat, vh: int, obs: seq<Box>)
    requires WholeSites(core) && (forall m | m in macros :: IsBox(m.box)) && forall o | o in obs :: IsBox(o)
    ensures var blk := Sorted(Sooner, SpansIn(core, r, Blockages(macros, hh, vh, obs)));
      Proper(core, RowOf(core, r, macros, hh, vh, obs)) <==> NoOverrun(core, blk, |blk|)
  {
    hide Segments, Sorted, SpansIn, Proper, NoOverrun;
    var blk := SpansIn(core, r, Blockages(macros, hh, vh, obs));
    BlockagesAre(macros, hh, vh, obs);
    SortedInOrder(blk);
    ProperWithoutOverrun(core, Sorted(Sooner, blk));
  }

  /** On the core of a 1x1 tile, two obstructions that end beyond it make a segment that ends before it starts. */
  lemma OverrunOnTile()
    ensures var (w, h) := TILE_SIZES[0]; var core := CoreBox(w, h);
      var obs := [Box(2880, 0, 199680, 10000), Box(200640, 0, 201600, 10000)];
      RowOf(core, 0, [], 0, 0, obs) == [(199680, 199200)]
  {
    hide Down, Up, RoundDiv;
    TilesAreFilled(0);
    var core := Core(Box(2880, 3780, 199200, 151200), CoreBox(202080, 154980).rows);
    var obs := [Box(2880, 0, 199680, 10000), Box(200640, 0, 201600, 10000)];
    var blk := [(2880, 199680), (200640, 201600)];
    TwoInRow(core, 0, obs);
    SortedAlready(Sooner, blk);
    OnTileGrid(core);
    SegmentsOfTwo(core, blk);
  }

  lemma OnTileGrid(core: Core)
    requires core.box.x0 == 2880
    ensures Down(core, 2880) == 2880 && Up(core, 199680) == 199680
    ensures Down(core, 200640) == 200640 && Up(core, 201600) == 201600
  {
  }

  lemma TwoInRow(core: Core, r: int, obs: seq<Box>)
    requires |obs| == 2 && InRow(core, r, obs[0]) && InRow(core, r, obs[1])
    ensures SpansIn(core, r, Blockages([], 0, 0, obs)) == [(obs[0].x0, obs[0].x1), (obs[1].x0, obs[1].x1)]
  {
    assert Blockages([], 0, 0, obs) == obs && obs[1..] == [obs[1]] && [obs[1]][1..] == [];
    assert SpansIn(core, r, [obs[1]]) == [(obs[1].x0, obs[1].x1)] + SpansIn(core, r, []);
  }

  lemma SegmentsOfTwo(core: Core, blk: seq<Span>)
    requires |blk| == 2
    ensures Start(core, blk, 1) == Max(core.box.x0, Up(core, blk[0].1))
    ensures Start(core, blk, 2) == Max(Start(core, blk, 1), Up(core, blk[1].1))
    ensures Segments(core, blk) == Emitted(core, blk, 0) + Emitted(core, blk, 1)
      + if core.box.x1 - Start(core, blk, 2) >= SITE then [(Start(core, blk, 2), core.box.x1)] else []
  {
    hide Emitted, Up;
    assert Start(core, blk, 0) == core.box.x0 && Cut(core, blk, 0) == [];
    assert Cut(core, blk, 1) == Emitted(core, blk, 0) && Cut(core, blk, 2) == Cut(core, blk, 1) + Emitted(core, blk, 1);
  }

  // ------------------------------------------------------------ gaps without both supplies

  datatype Stripe = Stripe(net: string, x0: int, x1: int)

  /** A VPWR and a VGND stripe lie between a and b. */
  predicate Supplied(stripes: seq<Stripe>, a: int, b: int) {
    && (exists s | s in stripes :: s.net == "VPWR" && s.x0 >= a && s.x1 <= b)
    && exists s | s in stripes :: s.net == "VGND" && s.x0 >= a && s.x1 <= b
  }

  predicate ShareRows(m: Macro, o: Macro, vh: int) {
    o.box.y0 - vh < m.box.y1 + vh && o.box.y1 + vh > m.box.y0 - vh
  }

  /** The macro's extent in y, with vh above and below. */
  function Height(m: Macro, vh: int): Box { Box(0, m.box.y0 - vh, 1, m.box.y1 + vh) }

  predicate RightOf(m: Macro, o: Macro, vh: int) { o.box.x0 >= m.box.x1 && ShareRows(m, o, vh) }

  predicate LeftOf(m: Macro, o: Macro, vh: int) { o.box.x1 <= m.box.x0 && ShareRows(m, o, vh) }

  /** The order of the pairs (left edge, name). */
  predicate Before(o: Macro, p: Macro) {
    o.box.x0 < p.box.x0 || (o.box.x0 == p.box.x0 && Leq(o.name, p.name))
  }

  /** The first macro to the right of m, among the first k. */
  function RightNeighbour(macros: seq<Macro>, m: Macro, vh: int, k: nat): (best: Option<Macro>)
    requires k <= |macros|
    ensures best.Some? ==> best.value in macros && RightOf(m, best.value, vh)
    ensures forall i | 0 <= i < k && RightOf(m, macros[i], vh) :: best.Some? && best.value.box.x0 <= macros[i].box.x0
  {
    if k == 0 then None
    else
      var best, o := RightNeighbour(macros, m, vh, k - 1), macros[k - 1];
      if !RightOf(m, o, vh) then best
      else if best.Some? && Before(best.value, o) then best
      else Some(o)
  }

  /** A stretch between a and b without both supplies, and the halo that closes it. */
  datatype Gap =
    | Between(left: Macro, right: Macro, a: int, b: int, halo: int)
    | ToRightEdge(left: Macro, a: int, b: int, halo: int)
    | ToLeftEdge(right: Macro, a: int, b: int, halo: int)

  function RightGap(core: Core, macros: seq<Macro>, stripes: seq<Stripe>, vh: int, m: Macro): seq<Gap> {
    var next := RightNeighbour(macros, m, vh, |macros|);
    var a, b := m.box.x1, if next.Some? then next.value.box.x0 else core.box.x1;
    if b <= a || Supplied(stripes, a, b) then []
    else if next.Some? then [Between(m, next.value, a, b, (b - a + 1) / 2)]
    else [ToRightEdge(m, a, b, b - a)]
  }

  function LeftGap(core: Core, macros: seq<Macro>, stripes: seq<Stripe>, vh: int, m: Macro): seq<Gap> {
    var a, b := core.box.x0, m.box.x0;
    if (exists o | o in macros :: LeftOf(m, o, vh)) || b <= a || Supplied(stripes, a, b) then []
    else [ToLeftEdge(m, a, b, b - a)]
  }

  function GapsOf(core: Core, macros: seq<Macro>, stripes: seq<Stripe>, vh: int, k: nat): seq<Gap>
    requires k <= |macros|
  {
    if k == 0 then []
    else
      GapsOf(core, macros, stripes, vh, k - 1) + RightGap(core, macros, stripes, vh, macros[k - 1])
      + LeftGap(core, macros, stripes, vh, macros[k - 1])
  }

  /** need is the largest halo that a gap asks for, 0 without gaps. */
  ghost predicate Largest(gaps: seq<Gap>, need: int) {
    && need >= 0 && (forall g | g in gaps :: g.halo <= need)
    && (need == 0 || exists g | g in gaps :: g.halo == need)
  }

  method FindRight(macros: seq<Macro>, m: Macro, vh: int) returns (best: Option<Macro>)
    ensures best == RightNeighbour(macros, m, vh, |macros|)
  {
    best := None;
    for k := 0 to |macros|
      invariant best == RightNeighbour(macros, m, vh, k)
    {
      if RightOf(m, macros[k], vh) && (best.None? || !Before(best.value, macros[k])) {
        best := Some(macros[k]);
      }
    }
  }

  method ClosureHalo(core: Core, macros: seq<Macro>, stripes: seq<Stripe>, vh: int)
    returns (need: int, gaps: seq<Gap>)
    ensures gaps == GapsOf(core, macros, stripes, vh, |macros|) && Largest(gaps, need)
  {
    hide Supplied, LeftOf, RightNeighbour, Largest, GapsOf, RightOf;
    need, gaps := 0, [];
    NoGaps(core, macros, stripes, vh);
    for k := 0 to |macros|
      invariant gaps == GapsOf(core, macros, stripes, vh, k) && Largest(gaps, need)
    {
      var m := macros[k];
      ghost var before := gaps;
      var next := FindRight(macros, m, vh);
      var a, b := m.box.x1, if next.Some? then next.value.box.x0 else core.box.x1;
      if b > a && !Supplied(stripes, a, b) {
        var halo := if next.Some? then (b - a + 1) / 2 else b - a;
        var gap := if next.Some? then Between(m, next.value, a, b, halo) else ToRightEdge(m, a, b, halo);
        LargerStill(gaps, need, gap);
        gaps, need := gaps + [gap], Max(need, halo);
      }
      ghost var right, left := RightGap(core, macros, stripes, vh, m), LeftGap(core, macros, stripes, vh, m);
      assert gaps == before + right;
      if !exists o | o in macros :: LeftOf(m, o, vh) {
        a, b := core.box.x0, m.box.x0;
        if b > a && !Supplied(stripes, a, b) {
          LargerStill(gaps, need, ToLeftEdge(m, a, b, b - a));
          gaps, need := gaps + [ToLeftEdge(m, a, b, b - a)], Max(need, b - a);
        }
      }
      assert gaps == before + right + left;
      GapsOfOneMore(core, macros, stripes, vh, k);
    }
  }

  lemma NoGaps(core: Core, macros: seq<Macro>, stripes: seq<Stripe>, vh: int)
    ensures GapsOf(core, macros, stripes, vh, 0) == [] && Largest([], 0)
  {
  }

  lemma GapsOfOneMore(core: Core, macros: seq<Macro>, stripes: seq<Stripe>, vh: int, k: nat)
    requires k < |macros|
    ensures GapsOf(core, macros, stripes, vh, k + 1) == GapsOf(core, macros, stripes, vh, k)
      + RightGap(core, macros, stripes, vh, macros[k]) + LeftGap(core, macros, stripes, vh, macros[k])
  {
  }

  lemma LargerStill(gaps: seq<Gap>, need: int, g: Gap)
    requires Largest(gaps, need)
    ensures Largest(gaps + [g], Max(need, g.halo))
  {
    assert g in gaps + [g];
    if need > 0 {
      var w :| w in gaps && w.halo == need;
      assert w in gaps + [g];
    }
  }

  /** Every stripe of the net starts left of a or ends right of b. */
  ghost predicate Lacks(stripes: seq<Stripe>, net: string, a: int, b: int) {
    forall s | s in stripes && s.net == net :: s.x0 < a || b < s.x1
  }

  lemma UnsuppliedLacks(stripes: seq<Stripe>, a: int, b: int)
    ensures !Supplied(stripes, a, b) <==> Lacks(stripes, "VPWR", a, b) || Lacks(stripes, "VGND", a, b)
  {
  }

  /** o begins at or after the end of m, and their heights overlap. */
  ghost predicate IsRight(m: Macro, o: Macro, vh: int) {
    m.box.x1 <= o.box.x0 && Overlap(Height(m, vh), Height(o, vh))
  }

  ghost predicate IsLeft(m: Macro, o: Macro, vh: int) {
    o.box.x1 <= m.box.x0 && Overlap(Height(m, vh), Height(o, vh))
  }

  lemma SidesAre(vh: int)
    ensures forall m, o :: RightOf(m, o, vh) <==> IsRight(m, o, vh)
    ensures forall m, o :: LeftOf(m, o, vh) <==> IsLeft(m, o, vh)
  {
  }

  /** Of the macros to the right the first by left edge is taken, then by name. */
  lemma {:induction false} NextIsFirst(macros: seq<Macro>, m: Macro, vh: int, k: nat, i: nat)
    requires i < k <= |macros| && IsRight(m, macros[i], vh)
    ensures var next, o := RightNeighbour(macros, m, vh, k), macros[i];
      next.Some? && (next.value.box.x0 < o.box.x0 || (next.value.box.x0 == o.box.x0 && Leq(next.value.name, o.name)))
  {
    hide Leq, IsRight, RightOf;
    SidesAre(vh);
    if i < k - 1 { NextIsFirst(macros, m, vh, k - 1, i); }
    var last, best := macros[k - 1], RightNeighbour(macros, m, vh, k - 1);
    LeqTotal(last.name, last.name);
    if best.Some? {
      LeqTotal(best.value.name, last.name);
      if Leq(last.name, best.value.name) && Leq(best.value.name, macros[i].name) {
        LeqTransitive(last.name, best.value.name, macros[i].name);
      }
    }
  }

  /** What a reported gap is: it runs to the next macro in the shared rows, or to the edge when there is none. */
  ghost predicate IsGap(core: Core, macros: seq<Macro>, stripes: seq<Stripe>, vh: int, g: Gap) {
    && g.a < g.b && (Lacks(stripes, "VPWR", g.a, g.b) || Lacks(stripes, "VGND", g.a, g.b))
    && match g
       case Between(left, right, a, b, halo) =>
         && left in macros && right in macros && a == left.box.x1 && b == right.box.x0 && IsRight(left, right, vh)
         && (forall o | o in macros && IsRight(left, o, vh) :: b <= o.box.x0)
         && halo == (b - a + 1) / 2
       case ToRightEdge(left, a, b, halo) =>
         && left in macros && a == left.box.x1 && b == core.box.x1 && halo == b - a
         && forall o | o in macros :: !IsRight(left, o, vh)
       case ToLeftEdge(right, a, b, halo) =>
         && right in macros && a == core.box.x0 && b == right.box.x0 && halo == b - a
         && forall o | o in macros :: !IsLeft(right, o, vh)
  }

  lemma {:induction false} GapsAreGaps(core: Core, macros: seq<Macro>, stripes: seq<Stripe>, vh: int, k: nat, g: Gap)
    requires k <= |macros| && g in GapsOf(core, macros, stripes, vh, k)
    ensures IsGap(core, macros, stripes, vh, g)
  {
    hide RightGap, LeftGap, IsGap;
    if g in GapsOf(core, macros, stripes, vh, k - 1) {
      GapsAreGaps(core, macros, stripes, vh, k - 1, g);
    } else if g in RightGap(core, macros, stripes, vh, macros[k - 1]) {
      RightGapIsGap(core, macros, stripes, vh, macros[k - 1], g);
    } else {
      LeftGapIsGap(core, macros, stripes, vh, macros[k - 1], g);
    }
  }

  lemma RightGapIsGap(core: Core, macros: seq<Macro>, stripes: seq<Stripe>, vh: int, m: Macro, g: Gap)
    requires m in macros && g in RightGap(core, macros, stripes, vh, m)
    ensures IsGap(core, macros, stripes, vh, g)
  {
    hide Supplied, RightOf, RightNeighbour, Lacks, IsRight, IsLeft;
    SidesAre(vh);
    UnsuppliedLacks(stripes, g.a, g.b);
  }

  lemma LeftGapIsGap(core: Core, macros: seq<Macro>, stripes: seq<Stripe>, vh: int, m: Macro, g: Gap)
    requires m in macros && g in LeftGap(core, macros, stripes, vh, m)
    ensures IsGap(core, macros, stripes, vh, g)
  {
    hide Supplied, LeftOf, Lacks, IsRight, IsLeft;
    SidesAre(vh);
    UnsuppliedLacks(stripes, g.a, g.b);
  }

  lemma {:induction false} GapsInclude(core: Core, macros: seq<Macro>, stripes: seq<Stripe>, vh: int, k: nat, j: nat,
                                       g: Gap)
    requires j < k <= |macros|
    requires g in RightGap(core, macros, stripes, vh, macros[j]) + LeftGap(core, macros, stripes, vh, macros[j])
    ensures g in GapsOf(core, macros, stripes, vh, k)
  {
    hide RightGap, LeftGap;
    if j < k - 1 { GapsInclude(core, macros, stripes, vh, k - 1, j, g); }
  }

  /** The same gap, up to which of several macros with the same left edge is named on the right. */
  predicate SameGap(g: Gap, h: Gap) {
    h == g || (g.Between? && h.Between? && h == g.(right := h.right))
  }

  /** Every gap is reported; where several macros bound it on the right, one of them is named. */
  lemma EveryGapIsReported(core: Core, macros: seq<Macro>, stripes: seq<Stripe>, vh: int, g: Gap)
    requires IsGap(core, macros, stripes, vh, g)
    ensures exists h | h in GapsOf(core, macros, stripes, vh, |macros|) :: SameGap(g, h)
  {
    hide Supplied, RightOf, LeftOf, GapsOf, Lacks, IsRight, IsLeft;
    SidesAre(vh);
    UnsuppliedLacks(stripes, g.a, g.b);
    var m := if g.ToLeftEdge? then g.right else g.left;
    var j :| 0 <= j < |macros| && macros[j] == m;
    if g.Between? {
      var i :| 0 <= i < |macros| && macros[i] == g.right;
      var next := RightNeighbour(macros, m, vh, |macros|);
      assert next.Some? && next.value.box.x0 == g.b;
      GapsInclude(core, macros, stripes, vh, |macros|, j, Between(m, next.value, g.a, g.b, g.halo));
    } else {
      GapsInclude(core, macros, stripes, vh, |macros|, j, g);
    }
  }

  /** The halos of the bounding macros meet, or reach the edge. */
  predicate Closes(g: Gap, hh: int) {
    match g
    case Between(_, _, a, b, _) => a + hh >= b - hh
    case ToRightEdge(_, a, b, _) => a + hh >= b
    case ToLeftEdge(_, a, b, _) => b - hh <= a
  }

  /** The reported halo is the smallest that closes every gap. */
  lemma NeedIsSmallest(core: Core, macros: seq<Macro>, stripes: seq<Stripe>, vh: int, gaps: seq<Gap>, need: int,
                       hh: nat)
    requires gaps == GapsOf(core, macros, stripes, vh, |macros|) && Largest(gaps, need)
    ensures (forall g | g in gaps :: Closes(g, hh)) <==> hh >= need
  {
    hide GapsOf, Supplied, RightOf, LeftOf, IsRight, IsLeft;
    forall g | g in gaps ensures Closes(g, hh) <==> hh >= g.halo {
      GapsAreGaps(core, macros, stripes, vh, |macros|, g);
    }
  }

  /** Every macro at the ends of the gap reaches, with its vertical halo, into row r. */
  predicate BoundedInRow(core: Core, r: int, g: Gap, vh: int) {
    match g
    case Between(left, right, _, _, _) =>
      InRow(core, r, Grown(left.box, 0, vh)) && InRow(core, r, Grown(right.box, 0, vh))
    case ToRightEdge(left, _, _, _) => InRow(core, r, Grown(left.box, 0, vh))
    case ToLeftEdge(right, _, _, _) => InRow(core, r, Grown(right.box, 0, vh))
  }

  /** With at least the reported halo, no site that touches a gap is kept in a row that its macros block ... */
  lemma NoSiteInGap(core: Core, macros: seq<Macro>, stripes: seq<Stripe>, hh: nat, vh: int, obs: seq<Box>,
                    gaps: seq<Gap>, need: int, g: Gap, r: int, s: int)
    requires WholeSites(core) && IsSite(core, s) && forall m | m in macros :: IsBox(m.box)
    requires gaps == GapsOf(core, macros, stripes, vh, |macros|) && Largest(gaps, need) && hh >= need
    requires g in gaps && BoundedInRow(core, r, g, vh) && s < g.b && g.a < s + SITE
    ensures !Kept(RowOf(core, r, macros, hh, vh, obs), s)
  {
    hide RowOf, GapsOf, Kept, Supplied;
    GapsAreGaps(core, macros, stripes, vh, |macros|, g);
    NeedIsSmallest(core, macros, stripes, vh, gaps, need, hh);
    RowKeepsFreeSites(core, r, macros, hh, vh, obs, s);
    var m := match g
      case Between(left, right, a, _, _) => if s < a + hh then left else right
      case ToRightEdge(left, _, _, _) => left
      case ToLeftEdge(right, _, _, _) => right;
    assert m in macros && Overlap(Grown(m.box, hh, vh), SiteBox(core, r, s));
  }

  /** ... so no segment of a proper row reaches into it. */
  lemma NoSegmentInGap(core: Core, macros: seq<Macro>, stripes: seq<Stripe>, hh: nat, vh: int, obs: seq<Box>,
                       gaps: seq<Gap>, need: int, g: Gap, r: int, seg: Span)
    requires WholeSites(core) && forall m | m in macros :: IsBox(m.box)
    requires gaps == GapsOf(core, macros, stripes, vh, |macros|) && Largest(gaps, need) && hh >= need
    requires g in gaps && BoundedInRow(core, r, g, vh)
    requires Proper(core, RowOf(core, r, macros, hh, vh, obs)) && seg in RowOf(core, r, macros, hh, vh, obs)
    ensures seg.1 <= g.a || g.b <= seg.0
  {
    hide RowOf, GapsOf, Largest, WholeSites;
    if seg.0 < g.b && g.a < seg.1 {
      var s := Down(core, Max(seg.0, g.a));
      GapsAreGaps(core, macros, stripes, vh, |macros|, g);
      SiteAround(core, seg, Max(seg.0, g.a));
      NoSiteInGap(core, macros, stripes, hh, vh, obs, gaps, need, g, r, s);
    }
  }

  /** A point of a segment lies in a site of the segment. */
  lemma SiteAround(core: Core, seg: Span, x: int)
    requires Aligned(core, seg.0) && Aligned(core, seg.1) && core.box.x0 <= seg.0 <= x < seg.1 <= core.box.x1
    ensures var s := Down(core, x); IsSite(core, s) && seg.0 <= s <= x < s + SITE <= seg.1
  {
  }
}
