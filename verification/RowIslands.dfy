/**
 Row segments that the supply stripes miss (variants6x4/row_islands.py: islands), and what the
 closure halo promises about them.
 */
module RowIslands {
  import opened Results
  import opened Sorting
  import opened RowCut
  import opened FreeRuns

  datatype Island = Island(row: nat, x0: int, x1: int, y0: int, y1: int)

  /** A VPWR and a VGND stripe overlap the segment. */
  predicate Crossed(stripes: seq<Stripe>, seg: Span) {
    && (exists s | s in stripes :: s.net == "VPWR" && s.x0 < seg.1 && s.x1 > seg.0)
    && exists s | s in stripes :: s.net == "VGND" && s.x0 < seg.1 && s.x1 > seg.0
  }

  function IslandAt(core: Core, r: nat, seg: Span): Island {
    Island(r, seg.0, seg.1, RowBox(core, r).y0, RowBox(core, r).y1)
  }

  /** The islands among the first k segments of row r. */
  function InSegments(core: Core, stripes: seq<Stripe>, r: nat, segs: seq<Span>, k: nat): seq<Island>
    requires k <= |segs|
  {
    if k == 0 then []
    else
      var seg := segs[k - 1];
      InSegments(core, stripes, r, segs, k - 1) + if Crossed(stripes, seg) then [] else [IslandAt(core, r, seg)]
  }

  function InRows(core: Core, stripes: seq<Stripe>, rows: seq<seq<Span>>, r: nat): seq<Island>
    requires r <= |rows|
  {
    if r == 0 then []
    else InRows(core, stripes, rows, r - 1) + InSegments(core, stripes, r - 1, rows[r - 1], |rows[r - 1]|)
  }

  /** A row segment that lacks a supply. */
  ghost predicate IsIsland(core: Core, macros: seq<Macro>, stripes: seq<Stripe>, hh: int, vh: int, obs: seq<Box>,
                           i: Island)
  {
    var seg := (i.x0, i.x1);
    && i.row < core.rows && i.y0 == core.box.y0 + i.row * ROW_H && i.y1 == i.y0 + ROW_H
    && seg in RowOf(core, i.row, macros, hh, vh, obs)
    && (Misses(stripes, "VPWR", seg) || Misses(stripes, "VGND", seg))
  }

  /** No stripe of the net overlaps the segment. */
  ghost predicate Misses(stripes: seq<Stripe>, net: string, seg: Span) {
    forall s | s in stripes && s.net == net :: s.x1 <= seg.0 || seg.1 <= s.x0
  }

  lemma IslandIs(core: Core, macros: seq<Macro>, stripes: seq<Stripe>, hh: int, vh: int, obs: seq<Box>, i: Island)
    ensures IsIsland(core, macros, stripes, hh, vh, obs, i) <==>
      var seg := (i.x0, i.x1);
      && i.row < core.rows && i == IslandAt(core, i.row, seg)
      && seg in RowOf(core, i.row, macros, hh, vh, obs) && !Crossed(stripes, seg)
  {
    hide Crossed, Misses, RowOf;
    UncrossedMisses(stripes, (i.x0, i.x1));
  }

  lemma UncrossedMisses(stripes: seq<Stripe>, seg: Span)
    ensures !Crossed(stripes, seg) <==> Misses(stripes, "VPWR", seg) || Misses(stripes, "VGND", seg)
  {
  }

  /** Both supplies cross every segment of the row. */
  ghost predicate IslandFree(core: Core, macros: seq<Macro>, stripes: seq<Stripe>, hh: int, vh: int, obs: seq<Box>,
                             r: nat)
  {
    forall i: Island | i.row == r :: !IsIsland(core, macros, stripes, hh, vh, obs, i)
  }

  ghost predicate InRowOrder(islands: seq<Island>) {
    forall j, k | 0 <= j < k < |islands| :: islands[j].row <= islands[k].row
  }

  /** The islands, row by row. */
  method Islands(core: Core, macros: seq<Macro>, stripes: seq<Stripe>, hh: int, vh: int, obs: seq<Box>)
    returns (islands: seq<Island>)
    requires core.rows >= 0
    ensures forall i :: i in islands <==> IsIsland(core, macros, stripes, hh, vh, obs, i)
    ensures InRowOrder(islands)
    ensures islands == [] <==> forall r | 0 <= r < core.rows :: IslandFree(core, macros, stripes, hh, vh, obs, r)
  {
    hide Crossed, RowOf, IsIsland;
    var rows := RowSegments(core, macros, hh, vh, obs);
    islands := [];
    for r := 0 to |rows|
      invariant islands == InRows(core, stripes, rows, r)
    {
      var before := islands;
      for k := 0 to |rows[r]|
        invariant islands == before + InSegments(core, stripes, r, rows[r], k)
      {
        if !Crossed(stripes, rows[r][k]) {
          islands := islands + [IslandAt(core, r, rows[r][k])];
        }
      }
    }
    forall i ensures i in islands <==> IsIsland(core, macros, stripes, hh, vh, obs, i) {
      RowsHold(core, macros, stripes, hh, vh, obs, rows, i);
    }
    RowsInOrder(core, stripes, rows, |rows|);
    NoIslands(core, macros, stripes, hh, vh, obs, islands);
  }

  lemma NoIslands(core: Core, macros: seq<Macro>, stripes: seq<Stripe>, hh: int, vh: int, obs: seq<Box>,
                  islands: seq<Island>)
    requires forall i :: i in islands <==> IsIsland(core, macros, stripes, hh, vh, obs, i)
    ensures islands == [] <==> forall r | 0 <= r < core.rows :: IslandFree(core, macros, stripes, hh, vh, obs, r)
  {
    hide Crossed, RowOf;
    if islands != [] {
      assert islands[0] in islands;
      assert !IslandFree(core, macros, stripes, hh, vh, obs, islands[0].row);
    }
  }

  lemma {:induction false} SegmentsHold(core: Core, stripes: seq<Stripe>, r: nat, segs: seq<Span>, k: nat, i: Island)
    requires k <= |segs|
    ensures i in InSegments(core, stripes, r, segs, k) <==>
      var seg := (i.x0, i.x1); i == IslandAt(core, r, seg) && seg in segs[..k] && !Crossed(stripes, seg)
  {
    hide Crossed;
    if k > 0 {
      SegmentsHold(core, stripes, r, segs, k - 1, i);
      assert segs[..k] == segs[..k - 1] + [segs[k - 1]];
    }
  }

  lemma IslandHasRow(core: Core, i: Island, r: nat)
    ensures i == IslandAt(core, r, (i.x0, i.x1)) <==> i.row == r && i == IslandAt(core, i.row, (i.x0, i.x1))
  {
  }

  lemma {:induction false} InRowsHold(core: Core, stripes: seq<Stripe>, rows: seq<seq<Span>>, r: nat, i: Island)
    requires r <= |rows|
    ensures i in InRows(core, stripes, rows, r) <==> var seg := (i.x0, i.x1);
      i.row < r && i == IslandAt(core, i.row, seg) && seg in rows[i.row] && !Crossed(stripes, seg)
  {
    hide Crossed, InSegments, IslandAt;
    if r > 0 {
      var segs := rows[r - 1];
      IslandHasRow(core, i, r - 1);
      InRowsHold(core, stripes, rows, r - 1, i);
      SegmentsHold(core, stripes, r - 1, segs, |segs|, i);
      assert segs[..|segs|] == segs;
    }
  }

  lemma RowsHold(core: Core, macros: seq<Macro>, stripes: seq<Stripe>, hh: int, vh: int, obs: seq<Box>,
                 rows: seq<seq<Span>>, i: Island)
    requires |rows| == core.rows && forall r | 0 <= r < core.rows :: rows[r] == RowOf(core, r, macros, hh, vh, obs)
    ensures i in InRows(core, stripes, rows, |rows|) <==> IsIsland(core, macros, stripes, hh, vh, obs, i)
  {
    hide Crossed, RowOf, IsIsland;
    IslandIs(core, macros, stripes, hh, vh, obs, i);
    InRowsHold(core, stripes, rows, |rows|, i);
  }

  lemma {:induction false} RowsInOrder(core: Core, stripes: seq<Stripe>, rows: seq<seq<Span>>, r: nat)
    requires r <= |rows|
    ensures InRowOrder(InRows(core, stripes, rows, r))
  {
    hide InSegments, InRowOrder;
    if r == 0 {
      EmptyInOrder();
    } else {
      RowsInOrder(core, stripes, rows, r - 1);
      var segs := rows[r - 1];
      RowsOfIslands(core, stripes, rows, r - 1);
      RowsJoined(InRows(core, stripes, rows, r - 1), InSegments(core, stripes, r - 1, segs, |segs|), r - 1);
    }
  }

  lemma RowsOfIslands(core: Core, stripes: seq<Stripe>, rows: seq<seq<Span>>, r: nat)
    requires r < |rows|
    ensures forall i | i in InRows(core, stripes, rows, r) :: i.row < r
    ensures forall i | i in InSegments(core, stripes, r, rows[r], |rows[r]|) :: i.row == r
  {
    hide Crossed, InRows, InSegments;
    forall i | i in InRows(core, stripes, rows, r) ensures i.row < r { InRowsHold(core, stripes, rows, r, i); }
    forall i | i in InSegments(core, stripes, r, rows[r], |rows[r]|) ensures i.row == r {
      SegmentsHold(core, stripes, r, rows[r], |rows[r]|, i);
    }
  }

  lemma EmptyInOrder()
    ensures InRowOrder([])
  {
  }

  lemma RowsJoined(before: seq<Island>, more: seq<Island>, r: nat)
    requires InRowOrder(before)
    requires (forall i | i in before :: i.row < r) && forall i | i in more :: i.row == r
    ensures InRowOrder(before + more)
  {
    var all := before + more;
    forall j, k | 0 <= j < k < |all| ensures all[j].row <= all[k].row {
      assert k < |before| || all[k] in more;
      assert if j < |before| then all[j] in before else all[j] in more;
    }
  }

  // ------------------------------------------------------------ when a row has no island

  /**
   In a row without overrun there is no island if and only if both supplies cross every longest run of sites that the
   macros with their halos and the obstructions leave free.
   */
  lemma IslandFreeRow(core: Core, macros: seq<Macro>, stripes: seq<Stripe>, hh: nat, vh: int, obs: seq<Box>, r: nat)
    requires WholeSites(core) && (forall m | m in macros :: IsBox(m.box)) && forall o | o in obs :: IsBox(o)
    requires r < core.rows && Proper(core, RowOf(core, r, macros, hh, vh, obs))
    ensures IslandFree(core, macros, stripes, hh, vh, obs, r) <==>
      forall g | IsRun(core, SpansIn(core, r, Blockages(macros, hh, vh, obs)), g) :: Crossed(stripes, g)
  {
    hide RowOf, Crossed, IsRun, SpansIn, Proper, IsIsland;
    var blk := SpansIn(core, r, Blockages(macros, hh, vh, obs));
    RunsOfRow(core, macros, hh, vh, obs, r);
    if IslandFree(core, macros, stripes, hh, vh, obs, r) {
      forall g | IsRun(core, blk, g) ensures Crossed(stripes, g) {
        IslandIs(core, macros, stripes, hh, vh, obs, IslandAt(core, r, g));
        assert !IsIsland(core, macros, stripes, hh, vh, obs, IslandAt(core, r, g));
      }
    } else {
      var i: Island :| i.row == r && IsIsland(core, macros, stripes, hh, vh, obs, i);
      IslandIs(core, macros, stripes, hh, vh, obs, i);
    }
  }

  /** The segments of a row without overrun are the runs between its blockages, in whatever order those are listed. */
  lemma RunsOfRow(core: Core, macros: seq<Macro>, hh: nat, vh: int, obs: seq<Box>, r: int)
    requires WholeSites(core) && (forall m | m in macros :: IsBox(m.box)) && forall o | o in obs :: IsBox(o)
    requires Proper(core, RowOf(core, r, macros, hh, vh, obs))
    ensures var blk := SpansIn(core, r, Blockages(macros, hh, vh, obs));
      forall g :: g in RowOf(core, r, macros, hh, vh, obs) <==> IsRun(core, blk, g)
  {
    hide Segments, Sorted, SpansIn, Proper, IsRun, NoOverrun;
    var blk := SpansIn(core, r, Blockages(macros, hh, vh, obs));
    BlockagesAre(macros, hh, vh, obs);
    SortedInOrder(blk);
    RowIsProper(core, r, macros, hh, vh, obs);
    SegmentsAreRuns(core, Sorted(Sooner, blk));
    forall g ensures IsRun(core, Sorted(Sooner, blk), g) <==> IsRun(core, blk, g) {
      RunInAnyOrder(core, Sorted(Sooner, blk), blk, g);
    }
  }

  lemma RunInAnyOrder(core: Core, blk: seq<Span>, blk': seq<Span>, g: Span)
    requires forall b :: b in blk <==> b in blk'
    ensures IsRun(core, blk, g) <==> IsRun(core, blk', g)
  {
    hide Aligned, Hits;
    assert forall s :: Free(blk, s) <==> Free(blk', s);
    assert forall x :: Split(blk, x) <==> Split(blk', x);
  }

  // ------------------------------------------------------------ rows with macros only

  /** The macros lie in the core and have an extent. */
  ghost predicate Placed(core: Core, macros: seq<Macro>) {
    forall m | m in macros :: core.box.x0 <= m.box.x0 < m.box.x1 <= core.box.x1 && m.box.y0 <= m.box.y1
  }

  predicate Reaches(core: Core, r: int, m: Macro, vh: int) { InRow(core, r, Grown(m.box, 0, vh)) }

  /** The row from one macro, or the core edge, to the next. */
  ghost predicate IsStretch(core: Core, macros: seq<Macro>, vh: int, r: int, a: int, b: int) {
    && core.box.x0 <= a < b <= core.box.x1
    && (a == core.box.x0 || exists m | m in macros && Reaches(core, r, m, vh) :: m.box.x1 == a)
    && (b == core.box.x1 || exists m | m in macros && Reaches(core, r, m, vh) :: m.box.x0 == b)
    && forall m | m in macros && Reaches(core, r, m, vh) :: m.box.x1 <= a || b <= m.box.x0
  }

  /** What the halos leave of a stretch, in whole sites. */
  function Remains(core: Core, hh: int, a: int, b: int): Span {
    (if a == core.box.x0 then a else Up(core, a + hh), if b == core.box.x1 then b else Down(core, b - hh))
  }

  ghost predicate BesideSite(core: Core, macros: seq<Macro>, hh: int, vh: int, r: int, s: int) {
    forall m | m in macros && Reaches(core, r, m, vh) :: LeftOfSite(m, hh, s) || RightOfSite(m, hh, s)
  }

  predicate LeftOfSite(m: Macro, hh: int, s: int) { m.box.x1 + hh <= s }

  predicate RightOfSite(m: Macro, hh: int, s: int) { m.box.x0 - hh >= s + SITE }

  lemma {:induction false} LastOnLeft(core: Core, macros: seq<Macro>, hh: int, vh: int, r: int, s: int, k: nat)
    returns (a: int)
    requires k <= |macros| && IsSite(core, s) && hh >= 0 && Placed(core, macros)
    ensures core.box.x0 <= a <= s
    ensures a == core.box.x0 || exists m | m in macros && Reaches(core, r, m, vh) && LeftOfSite(m, hh, s) :: m.box.x1 == a
    ensures forall i | 0 <= i < k && Reaches(core, r, macros[i], vh) && LeftOfSite(macros[i], hh, s) ::
      macros[i].box.x1 <= a
  {
    hide Reaches, IsSite;
    if k == 0 {
      a := core.box.x0;
      assert a <= s by { SiteInCore(core, s); }
    } else {
      a := LastOnLeft(core, macros, hh, vh, r, s, k - 1);
      var m := macros[k - 1];
      if Reaches(core, r, m, vh) && LeftOfSite(m, hh, s) && m.box.x1 > a { a := m.box.x1; }
    }
  }

  lemma {:induction false} FirstOnRight(core: Core, macros: seq<Macro>, hh: int, vh: int, r: int, s: int, k: nat)
    returns (b: int)
    requires k <= |macros| && IsSite(core, s) && hh >= 0 && Placed(core, macros)
    ensures s + SITE <= b <= core.box.x1
    ensures b == core.box.x1 || exists m | m in macros && Reaches(core, r, m, vh) && RightOfSite(m, hh, s) :: m.box.x0 == b
    ensures forall i | 0 <= i < k && Reaches(core, r, macros[i], vh) && RightOfSite(macros[i], hh, s) ::
      b <= macros[i].box.x0
  {
    hide Reaches, IsSite;
    if k == 0 {
      b := core.box.x1;
      assert s + SITE <= b by { SiteInCore(core, s); }
    } else {
      b := FirstOnRight(core, macros, hh, vh, r, s, k - 1);
      var m := macros[k - 1];
      if Reaches(core, r, m, vh) && RightOfSite(m, hh, s) && m.box.x0 < b { b := m.box.x0; }
    }
  }

  lemma SiteInCore(core: Core, s: int)
    requires IsSite(core, s)
    ensures core.box.x0 <= s && s + SITE <= core.box.x1 && Aligned(core, s)
  {
  }

  /** Around a site that no macro with its halo overlaps lies a stretch of the row. */
  lemma StretchAround(core: Core, macros: seq<Macro>, hh: nat, vh: int, r: int, s: int) returns (a: int, b: int)
    requires IsSite(core, s) && Placed(core, macros) && BesideSite(core, macros, hh, vh, r, s)
    ensures IsStretch(core, macros, vh, r, a, b) && a <= s && s + SITE <= b
    ensures a == core.box.x0 || a + hh <= s
    ensures b == core.box.x1 || s + SITE <= b - hh
    ensures forall m | m in macros && Reaches(core, r, m, vh) ::
      (m.box.x1 <= a && LeftOfSite(m, hh, s)) || (b <= m.box.x0 && RightOfSite(m, hh, s))
  {
    hide Reaches, IsSite;
    a := LastOnLeft(core, macros, hh, vh, r, s, |macros|);
    b := FirstOnRight(core, macros, hh, vh, r, s, |macros|);
    forall m | m in macros && Reaches(core, r, m, vh)
      ensures (m.box.x1 <= a && LeftOfSite(m, hh, s)) || (b <= m.box.x0 && RightOfSite(m, hh, s))
    {
      var i :| 0 <= i < |macros| && macros[i] == m;
    }
  }

  /** The spans that block a row with macros only. */
  lemma SpanOfMacro(core: Core, macros: seq<Macro>, hh: int, vh: int, r: int, m: Macro)
    requires m in macros && Reaches(core, r, m, vh)
    ensures (m.box.x0 - hh, m.box.x1 + hh) in SpansIn(core, r, Blockages(macros, hh, vh, []))
  {
    hide SpansIn, Blockages;
    BlockagesAre(macros, hh, vh, []);
    assert InRow(core, r, Grown(m.box, hh, vh));
  }

  lemma MacroOfSpan(core: Core, macros: seq<Macro>, hh: int, vh: int, r: int, p: Span) returns (m: Macro)
    requires p in SpansIn(core, r, Blockages(macros, hh, vh, []))
    ensures m in macros && Reaches(core, r, m, vh) && p == (m.box.x0 - hh, m.box.x1 + hh)
  {
    hide SpansIn, Blockages, InRow;
    var b :| b in Blockages(macros, hh, vh, []) && InRow(core, r, b) && p == (b.x0, b.x1);
    m := MacroOfBox(macros, hh, vh, b);
    HaloKeepsRows(core, r, m, hh, vh);
  }

  lemma MacroOfBox(macros: seq<Macro>, hh: int, vh: int, b: Box) returns (m: Macro)
    requires b in Blockages(macros, hh, vh, [])
    ensures m in macros && b == Grown(m.box, hh, vh)
  {
    BlockagesAre(macros, hh, vh, []);
    m :| m in macros && b == Grown(m.box, hh, vh);
  }

  lemma HaloKeepsRows(core: Core, r: int, m: Macro, hh: int, vh: int)
    ensures InRow(core, r, Grown(m.box, hh, vh)) <==> Reaches(core, r, m, vh)
  {
  }

  /** A site is free exactly when every macro of the row lies beside it; with macros only nothing splits a run. */
  lemma FreeIsBeside(core: Core, macros: seq<Macro>, hh: nat, vh: int, r: int, s: int)
    requires Placed(core, macros)
    ensures var blk := SpansIn(core, r, Blockages(macros, hh, vh, []));
      (Free(blk, s) <==> BesideSite(core, macros, hh, vh, r, s)) && !Split(blk, s)
  {
    hide SpansIn, Reaches, Blockages;
    var blk := SpansIn(core, r, Blockages(macros, hh, vh, []));
    forall p | p in blk ensures p.0 < p.1 && (BesideSite(core, macros, hh, vh, r, s) ==> !Hits(p, s)) {
      var m := MacroOfSpan(core, macros, hh, vh, r, p);
    }
    if Free(blk, s) {
      forall m | m in macros && Reaches(core, r, m, vh) ensures LeftOfSite(m, hh, s) || RightOfSite(m, hh, s) {
        SpanOfMacro(core, macros, hh, vh, r, m);
      }
    }
  }

  lemma SnapsUp(core: Core, x: int)
    ensures var up := Up(core, x); Aligned(core, up) && up - SITE < x <= up
  {
  }

  lemma SnapsDown(core: Core, x: int)
    ensures Aligned(core, Down(core, x)) && x < Down(core, x) + SITE
    ensures x >= core.box.x0 || Down(core, x) > core.box.x0 ==> Down(core, x) <= x
    ensures Down(core, x) >= core.box.x0
  {
  }

  /** Each longest run of free sites is what the halos leave of a stretch ... */
  lemma RunIsRemains(core: Core, macros: seq<Macro>, hh: nat, vh: int, r: int, g: Span) returns (a: int, b: int)
    requires WholeSites(core) && Placed(core, macros)
    requires IsRun(core, SpansIn(core, r, Blockages(macros, hh, vh, [])), g)
    ensures IsStretch(core, macros, vh, r, a, b) && g == Remains(core, hh, a, b)
  {
    hide SpansIn, Blockages, Aligned, Up, Down, Free, Split, Reaches;
    AlignedBefore(core, g.0);
    AlignedBefore(core, g.1);
    FreeIsBeside(core, macros, hh, vh, r, g.0);
    a, b := StretchAround(core, macros, hh, vh, r, g.0);
    LeftEndOfRun(core, macros, hh, vh, r, g, a, b);
    RightEndOfRun(core, macros, hh, vh, r, g, a, b);
  }

  lemma LeftEndOfRun(core: Core, macros: seq<Macro>, hh: nat, vh: int, r: int, g: Span, a: int, b: int)
    requires WholeSites(core) && Placed(core, macros) && IsStretch(core, macros, vh, r, a, b)
    requires IsRun(core, SpansIn(core, r, Blockages(macros, hh, vh, [])), g)
    requires a == core.box.x0 || a + hh <= g.0
    requires forall m | m in macros && Reaches(core, r, m, vh) ::
      (m.box.x1 <= a && LeftOfSite(m, hh, g.0)) || (b <= m.box.x0 && RightOfSite(m, hh, g.0))
    ensures g.0 == Remains(core, hh, a, b).0
  {
    hide SpansIn, Blockages, Aligned, Up, Down, Free, Split, Reaches;
    FreeIsBeside(core, macros, hh, vh, r, g.0);
    SnapsUp(core, a + hh);
    AlignedApart(core, g.0, Up(core, a + hh));
    AlignedApart(core, Up(core, a + hh), g.0);
    if g.0 > core.box.x0 {
      FreeIsBeside(core, macros, hh, vh, r, g.0 - SITE);
      var m :| m in macros && Reaches(core, r, m, vh) && !LeftOfSite(m, hh, g.0 - SITE) && !RightOfSite(m, hh, g.0 - SITE);
    }
  }

  lemma RightEndOfRun(core: Core, macros: seq<Macro>, hh: nat, vh: int, r: int, g: Span, a: int, b: int)
    requires WholeSites(core) && Placed(core, macros) && IsStretch(core, macros, vh, r, a, b)
    requires IsRun(core, SpansIn(core, r, Blockages(macros, hh, vh, [])), g)
    requires b == core.box.x1 || g.0 + SITE <= b - hh
    requires forall m | m in macros && Reaches(core, r, m, vh) ::
      (m.box.x1 <= a && LeftOfSite(m, hh, g.0)) || (b <= m.box.x0 && RightOfSite(m, hh, g.0))
    ensures g.1 == Remains(core, hh, a, b).1
  {
    hide SpansIn, Blockages, Aligned, Up, Down, Free, Split, Reaches;
    var end := Remains(core, hh, a, b).1;
    SnapsDown(core, b - hh);
    AlignedBefore(core, end);
    AlignedBefore(core, g.1);
    AlignedApart(core, g.1, end + SITE);
    AlignedApart(core, end, g.1 + SITE);
    AlignedApart(core, end, g.0);
    if g.1 < core.box.x1 {
      FreeIsBeside(core, macros, hh, vh, r, g.1);
      var p :| p in macros && Reaches(core, r, p, vh) && !LeftOfSite(p, hh, g.1) && !RightOfSite(p, hh, g.1);
    }
    if end < g.1 {
      FreeIsBeside(core, macros, hh, vh, r, end);
    }
  }

  /** ... and what they leave of a stretch, if it is a site or more, is one. */
  lemma RemainsAreRun(core: Core, macros: seq<Macro>, hh: nat, vh: int, r: int, a: int, b: int)
    requires WholeSites(core) && Placed(core, macros) && IsStretch(core, macros, vh, r, a, b)
    requires var g := Remains(core, hh, a, b); g.1 - g.0 >= SITE
    ensures IsRun(core, SpansIn(core, r, Blockages(macros, hh, vh, [])), Remains(core, hh, a, b))
  {
    hide SpansIn, Blockages, Aligned, Up, Down, Free, Split, Reaches;
    var blk, g := SpansIn(core, r, Blockages(macros, hh, vh, [])), Remains(core, hh, a, b);
    NoSegments(core);
    SnapsUp(core, a + hh);
    SnapsDown(core, b - hh);
    forall s | g.0 <= s && s + SITE <= g.1 ensures Free(blk, s) {
      FreeIsBeside(core, macros, hh, vh, r, s);
    }
    forall x ensures !Split(blk, x) {
      FreeIsBeside(core, macros, hh, vh, r, x);
    }
    if g.0 != core.box.x0 {
      FreeIsBeside(core, macros, hh, vh, r, g.0 - SITE);
      var m :| m in macros && Reaches(core, r, m, vh) && m.box.x1 == a;
      assert !LeftOfSite(m, hh, g.0 - SITE) && !RightOfSite(m, hh, g.0 - SITE);
    }
    if g.1 != core.box.x1 {
      FreeIsBeside(core, macros, hh, vh, r, g.1);
      var m :| m in macros && Reaches(core, r, m, vh) && m.box.x0 == b;
      assert !LeftOfSite(m, hh, g.1) && !RightOfSite(m, hh, g.1);
    }
  }

  /** The halos leave no whole site of a stretch, or both supplies cross what they leave. */
  ghost predicate Survives(core: Core, stripes: seq<Stripe>, hh: int, a: int, b: int) {
    var g := Remains(core, hh, a, b);
    g.1 - g.0 < SITE || Crossed(stripes, g)
  }

  /** Without obstructions a row has no island if and only if every stretch of it survives the halos. */
  lemma IslandFreeByStretches(core: Core, macros: seq<Macro>, stripes: seq<Stripe>, hh: nat, vh: int, r: nat)
    requires WholeSites(core) && Placed(core, macros) && r < core.rows
    ensures IslandFree(core, macros, stripes, hh, vh, [], r) <==>
      forall a, b | IsStretch(core, macros, vh, r, a, b) :: Survives(core, stripes, hh, a, b)
  {
    hide SpansIn, Blockages, IsRun, IsStretch, Crossed, RowOf, Proper, Remains, IslandFree;
    var blk := SpansIn(core, r, Blockages(macros, hh, vh, []));
    MacroRowIsProper(core, macros, hh, vh, r);
    IslandFreeRow(core, macros, stripes, hh, vh, [], r);
    if IslandFree(core, macros, stripes, hh, vh, [], r) {
      forall a, b | IsStretch(core, macros, vh, r, a, b) ensures Survives(core, stripes, hh, a, b) {
        if Remains(core, hh, a, b).1 - Remains(core, hh, a, b).0 >= SITE {
          RemainsAreRun(core, macros, hh, vh, r, a, b);
        }
      }
    } else {
      var g :| IsRun(core, blk, g) && !Crossed(stripes, g);
      RunIsWide(core, blk, g);
      var a, b := RunIsRemains(core, macros, hh, vh, r, g);
      assert !Survives(core, stripes, hh, a, b);
    }
  }

  /** What remains of a stretch that does not survive is an island. */
  lemma StretchIsIsland(core: Core, macros: seq<Macro>, stripes: seq<Stripe>, hh: nat, vh: int, r: nat, a: int, b: int)
    requires WholeSites(core) && Placed(core, macros) && r < core.rows
    requires IsStretch(core, macros, vh, r, a, b) && !Survives(core, stripes, hh, a, b)
    ensures IsIsland(core, macros, stripes, hh, vh, [], IslandAt(core, r, Remains(core, hh, a, b)))
  {
    hide SpansIn, Blockages, IsRun, IsStretch, Crossed, RowOf, Proper, Remains, IsIsland;
    IslandIs(core, macros, stripes, hh, vh, [], IslandAt(core, r, Remains(core, hh, a, b)));
    MacroRowIsProper(core, macros, hh, vh, r);
    RemainsAreRun(core, macros, hh, vh, r, a, b);
    RunsOfRow(core, macros, hh, vh, [], r);
  }

  lemma RunIsWide(core: Core, blk: seq<Span>, g: Span)
    requires IsRun(core, blk, g)
    ensures g.1 - g.0 >= SITE
  {
  }

  /** Macros in the core never make the sweep overrun. */
  lemma MacroRowIsProper(core: Core, macros: seq<Macro>, hh: nat, vh: int, r: int)
    requires WholeSites(core) && Placed(core, macros)
    ensures Proper(core, RowOf(core, r, macros, hh, vh, []))
  {
    hide SpansIn, Blockages, Proper, RowOf, Sorted, NoOverrun, Reaches;
    var blk := SpansIn(core, r, Blockages(macros, hh, vh, []));
    SortedInOrder(blk);
    forall p | p in Sorted(Sooner, blk) ensures p.0 <= core.box.x1 {
      var m := MacroOfSpan(core, macros, hh, vh, r, p);
    }
    InsideMeansNoOverrun(core, Sorted(Sooner, blk));
    RowIsProper(core, r, macros, hh, vh, []);
  }

  // ------------------------------------------------------------ rows at the closure halo

  /** With at least the reported halo, no island reaches into a reported gap, in rows that the gap's macros block. */
  lemma IslandsAvoidGaps(core: Core, macros: seq<Macro>, stripes: seq<Stripe>, hh: nat, vh: int, obs: seq<Box>,
                         gaps: seq<Gap>, need: int, g: Gap, i: Island)
    requires WholeSites(core) && forall m | m in macros :: IsBox(m.box)
    requires gaps == GapsOf(core, macros, stripes, vh, |macros|) && Largest(gaps, need) && hh >= need
    requires IsIsland(core, macros, stripes, hh, vh, obs, i) && Proper(core, RowOf(core, i.row, macros, hh, vh, obs))
    requires g in gaps && BoundedInRow(core, i.row, g, vh)
    ensures i.x1 <= g.a || g.b <= i.x0
  {
    NoSegmentInGap(core, macros, stripes, hh, vh, obs, gaps, need, g, i.row, (i.x0, i.x1));
  }

  ghost predicate Reported(gaps: seq<Gap>, a: int, b: int) {
    exists g | g in gaps :: g.a == a && g.b == b
  }

  /** A halo of at least the closure halo leaves nothing of a reported stretch. */
  lemma ReportedIsClosed(core: Core, macros: seq<Macro>, stripes: seq<Stripe>, hh: nat, vh: int, gaps: seq<Gap>,
                         need: int, a: int, b: int)
    requires Placed(core, macros) && Reported(gaps, a, b)
    requires gaps == GapsOf(core, macros, stripes, vh, |macros|) && Largest(gaps, need) && hh >= need
    ensures Survives(core, stripes, hh, a, b)
  {
    hide GapsOf, Supplied, Crossed, Up, Down, RightOf, LeftOf;
    var g :| g in gaps && g.a == a && g.b == b;
    GapsAreGaps(core, macros, stripes, vh, |macros|, g);
    NeedIsSmallest(core, macros, stripes, vh, gaps, need, hh);
    assert Closes(g, hh);
    SnapsUp(core, a + hh);
    SnapsDown(core, b - hh);
  }

  /**
   With at least the closure halo a row without obstructions has no island if and only if every stretch
   that is not reported as a gap survives it.
   */
  lemma IslandFreeAtClosure(core: Core, macros: seq<Macro>, stripes: seq<Stripe>, hh: nat, vh: int, gaps: seq<Gap>,
                            need: int, r: nat)
    requires WholeSites(core) && Placed(core, macros) && r < core.rows
    requires gaps == GapsOf(core, macros, stripes, vh, |macros|) && Largest(gaps, need) && hh >= need
    ensures IslandFree(core, macros, stripes, hh, vh, [], r) <==>
      forall a, b | IsStretch(core, macros, vh, r, a, b) && !Reported(gaps, a, b) :: Survives(core, stripes, hh, a, b)
  {
    hide IsStretch, Survives, IslandFree, Reported, GapsOf, Largest, WholeSites;
    IslandFreeByStretches(core, macros, stripes, hh, vh, r);
    forall a, b | Reported(gaps, a, b) ensures Survives(core, stripes, hh, a, b) {
      ReportedIsClosed(core, macros, stripes, hh, vh, gaps, need, a, b);
    }
  }

  /** Some macro reaches into the row, and the macros that do share rows exactly with each other. */
  ghost predicate OneBand(core: Core, macros: seq<Macro>, vh: int, r: int) {
    && (exists m | m in macros :: Reaches(core, r, m, vh))
    && forall m, o | m in macros && o in macros && Reaches(core, r, m, vh) ::
         ShareRows(m, o, vh) <==> Reaches(core, r, o, vh)
  }

  /** In such a row every stretch that lacks a supply is reported. */
  lemma UnsuppliedIsReported(core: Core, macros: seq<Macro>, stripes: seq<Stripe>, vh: int, r: int, a: int, b: int)
    returns (g: Gap)
    requires Placed(core, macros) && OneBand(core, macros, vh, r)
    requires IsStretch(core, macros, vh, r, a, b) && !Supplied(stripes, a, b)
    ensures g in GapsOf(core, macros, stripes, vh, |macros|) && g.a == a && g.b == b
    ensures BoundedInRow(core, r, g, vh)
  {
    hide Supplied, GapsOf, ShareRows, InRow, Grown, Lacks, IsRight, IsLeft;
    UnsuppliedLacks(stripes, a, b);
    SidesAre(vh);
    var any :| any in macros && Reaches(core, r, any, vh);
    var gap: Gap;
    if a == core.box.x0 {
      var o :| o in macros && Reaches(core, r, o, vh) && o.box.x0 == b;
      gap := ToLeftEdge(o, a, b, b - a);
    } else {
      var m :| m in macros && Reaches(core, r, m, vh) && m.box.x1 == a;
      if b == core.box.x1 {
        gap := ToRightEdge(m, a, b, b - a);
      } else {
        var o :| o in macros && Reaches(core, r, o, vh) && o.box.x0 == b;
        gap := Between(m, o, a, b, (b - a + 1) / 2);
      }
    }
    assert IsGap(core, macros, stripes, vh, gap);
    EveryGapIsReported(core, macros, stripes, vh, gap);
    g :| g in GapsOf(core, macros, stripes, vh, |macros|) && SameGap(gap, g);
    GapsAreGaps(core, macros, stripes, vh, |macros|, g);
  }

  /** So there, only stretches that have both supplies can keep an island at the closure halo ... */
  lemma IslandFreeBand(core: Core, macros: seq<Macro>, stripes: seq<Stripe>, hh: nat, vh: int, gaps: seq<Gap>,
                       need: int, r: nat)
    requires WholeSites(core) && Placed(core, macros) && r < core.rows && OneBand(core, macros, vh, r)
    requires gaps == GapsOf(core, macros, stripes, vh, |macros|) && Largest(gaps, need) && hh >= need
    ensures IslandFree(core, macros, stripes, hh, vh, [], r) <==>
      forall a, b | IsStretch(core, macros, vh, r, a, b) && Supplied(stripes, a, b) :: Survives(core, stripes, hh, a, b)
  {
    hide IsStretch, Survives, IslandFree, Reported, GapsOf, Largest, WholeSites, Supplied, OneBand, Placed;
    IslandFreeByStretches(core, macros, stripes, hh, vh, r);
    forall a, b | IsStretch(core, macros, vh, r, a, b) && !Supplied(stripes, a, b)
      ensures Survives(core, stripes, hh, a, b)
    {
      var g := UnsuppliedIsReported(core, macros, stripes, vh, r, a, b);
      assert Reported(gaps, a, b) by { ReportedBy(gaps, g); }
      ReportedIsClosed(core, macros, stripes, hh, vh, gaps, need, a, b);
    }
  }

  lemma ReportedBy(gaps: seq<Gap>, g: Gap)
    requires g in gaps
    ensures Reported(gaps, g.a, g.b)
  {
  }

  /** ... and whatever the obstructions, every site that is kept lies in a stretch with both supplies. */
  lemma KeptSitesAreSupplied(core: Core, macros: seq<Macro>, stripes: seq<Stripe>, hh: nat, vh: int, obs: seq<Box>,
                             gaps: seq<Gap>, need: int, r: int, s: int)
    requires WholeSites(core) && IsSite(core, s) && Placed(core, macros) && OneBand(core, macros, vh, r)
    requires gaps == GapsOf(core, macros, stripes, vh, |macros|) && Largest(gaps, need) && hh >= need
    requires Kept(RowOf(core, r, macros, hh, vh, obs), s)
    ensures exists a, b | a <= s && s + SITE <= b :: IsStretch(core, macros, vh, r, a, b) && Supplied(stripes, a, b)
  {
    hide RowOf, GapsOf, Kept, Supplied, Largest, WholeSites, IsSite, OneBand, IsStretch, BoundedInRow;
    KeptIsBeside(core, macros, hh, vh, obs, r, s);
    var a, b := StretchAround(core, macros, hh, vh, r, s);
    if !Supplied(stripes, a, b) {
      var g := UnsuppliedIsReported(core, macros, stripes, vh, r, a, b);
      NoSiteInGap(core, macros, stripes, hh, vh, obs, gaps, need, g, r, s);
    }
  }

  lemma KeptIsBeside(core: Core, macros: seq<Macro>, hh: nat, vh: int, obs: seq<Box>, r: int, s: int)
    requires WholeSites(core) && IsSite(core, s) && Kept(RowOf(core, r, macros, hh, vh, obs), s)
    ensures BesideSite(core, macros, hh, vh, r, s)
  {
    hide RowOf, Kept, WholeSites, IsSite;
    RowKeepsFreeSites(core, r, macros, hh, vh, obs, s);
    forall m | m in macros && Reaches(core, r, m, vh) ensures LeftOfSite(m, hh, s) || RightOfSite(m, hh, s) {
      assert !Overlap(Grown(m.box, hh, vh), SiteBox(core, r, s));
    }
  }

  // ------------------------------------------------------------ islands that remain

  /** The core of a 1x1 tile. */
  const TILE: Core := Core(Box(2880, 3780, 199200, 151200), 39)

  lemma TileIsCore()
    ensures TILE == CoreBox(TILE_SIZES[0].0, TILE_SIZES[0].1) && WholeSites(TILE)
  {
  }

  lemma GapsOfThree(macros: seq<Macro>, stripes: seq<Stripe>)
    requires |macros| == 3
    ensures GapsOf(TILE, macros, stripes, 0, 3) ==
      RightGap(TILE, macros, stripes, 0, macros[0]) + LeftGap(TILE, macros, stripes, 0, macros[0])
      + RightGap(TILE, macros, stripes, 0, macros[1]) + LeftGap(TILE, macros, stripes, 0, macros[1])
      + RightGap(TILE, macros, stripes, 0, macros[2]) + LeftGap(TILE, macros, stripes, 0, macros[2])
  {
    hide RightGap, LeftGap;
    GapsOfOneMore(TILE, macros, stripes, 0, 2);
    GapsOfOneMore(TILE, macros, stripes, 0, 1);
    GapsOfOneMore(TILE, macros, stripes, 0, 0);
  }

  /** Two macros on the right of a third, in different rows, the lower one further away. */
  const STAGGERED: seq<Macro> := [
    Macro("m", Box(2880, 3780, 60480, 151200)),
    Macro("n", Box(80640, 79380, 199200, 151200)),
    Macro("o", Box(90720, 3780, 199200, 79380))]

  /**
   Only the gap to the nearest macro is reported, so its halo leaves the wider gap of the other rows
   open: without stripes there, an island remains at the halo that the tool calls the smallest sufficient one.
   */
  lemma StaggeredMacrosKeepIsland(stripes: seq<Stripe>)
    requires forall s | s in stripes :: s.x0 < s.x1 && (s.x1 <= 60480 || 90720 <= s.x0)
    ensures var gaps := GapsOf(TILE, STAGGERED, stripes, 0, 3);
      gaps == [Between(STAGGERED[0], STAGGERED[1], 60480, 80640, 10080)] && Largest(gaps, 10080)
    ensures IsIsland(TILE, STAGGERED, stripes, 10080, 0, [], Island(0, 70560, 80640, 3780, 7560))
  {
    hide GapsOf, RightGap, LeftGap, IsIsland, IsStretch, Survives, Placed, Remains;
    GapsOfThree(STAGGERED, stripes);
    StaggeredGaps(stripes);
    StaggeredStretch(stripes);
    TileIsCore();
    StretchIsIsland(TILE, STAGGERED, stripes, 10080, 0, 0, 60480, 90720);
  }

  lemma StaggeredStretch(stripes: seq<Stripe>)
    requires forall s | s in stripes :: s.x0 < s.x1 && (s.x1 <= 60480 || 90720 <= s.x0)
    ensures Placed(TILE, STAGGERED) && IsStretch(TILE, STAGGERED, 0, 0, 60480, 90720)
    ensures Remains(TILE, 10080, 60480, 90720) == (70560, 80640) && !Survives(TILE, stripes, 10080, 60480, 90720)
  {
    assert STAGGERED[0] in STAGGERED && STAGGERED[2] in STAGGERED;
  }

  lemma StaggeredGaps(stripes: seq<Stripe>)
    requires forall s | s in stripes :: s.x0 < s.x1 && (s.x1 <= 60480 || 90720 <= s.x0)
    ensures var (m, n, o) := (STAGGERED[0], STAGGERED[1], STAGGERED[2]);
      && RightGap(TILE, STAGGERED, stripes, 0, m) == [Between(m, n, 60480, 80640, 10080)]
      && RightGap(TILE, STAGGERED, stripes, 0, n) == [] && RightGap(TILE, STAGGERED, stripes, 0, o) == []
      && LeftGap(TILE, STAGGERED, stripes, 0, m) == [] && LeftGap(TILE, STAGGERED, stripes, 0, n) == []
      && LeftGap(TILE, STAGGERED, stripes, 0, o) == []
  {
    hide RightNeighbour;
    var m, n, o := STAGGERED[0], STAGGERED[1], STAGGERED[2];
    assert RightOf(m, STAGGERED[1], 0) && LeftOf(n, m, 0) && LeftOf(o, m, 0);
    assert RightNeighbour(STAGGERED, m, 0, 3) == Some(n);
  }

  /** Three macros in one band, with both stripes between the last two. */
  const BAND: seq<Macro> := [
    Macro("m", Box(2880, 3780, 60480, 151200)),
    Macro("n", Box(80640, 3780, 120000, 151200)),
    Macro("o", Box(150240, 3780, 199200, 151200))]

  const BESIDE: seq<Stripe> := [Stripe("VPWR", 120960, 123120), Stripe("VGND", 126000, 128160)]

  /** The halo that closes one gap can cover the stripes of another, whose segment is then an island. */
  lemma HaloCoversStripes()
    ensures var gaps := GapsOf(TILE, BAND, BESIDE, 0, 3);
      gaps == [Between(BAND[0], BAND[1], 60480, 80640, 10080)] && Largest(gaps, 10080)
    ensures IsIsland(TILE, BAND, BESIDE, 10080, 0, [], Island(0, 130080, 140160, 3780, 7560))
  {
    hide GapsOf, RightGap, LeftGap, IsIsland, IsStretch, Survives, Placed, Remains;
    GapsOfThree(BAND, BESIDE);
    BandGaps();
    BandStretch();
    TileIsCore();
    StretchIsIsland(TILE, BAND, BESIDE, 10080, 0, 0, 120000, 150240);
  }

  lemma BandStretch()
    ensures Placed(TILE, BAND) && IsStretch(TILE, BAND, 0, 0, 120000, 150240)
    ensures Remains(TILE, 10080, 120000, 150240) == (130080, 140160) && !Survives(TILE, BESIDE, 10080, 120000, 150240)
  {
    assert BAND[1] in BAND && BAND[2] in BAND;
  }

  lemma BandGaps()
    ensures var (m, n, o) := (BAND[0], BAND[1], BAND[2]);
      && RightGap(TILE, BAND, BESIDE, 0, m) == [Between(m, n, 60480, 80640, 10080)]
      && RightGap(TILE, BAND, BESIDE, 0, n) == [] && RightGap(TILE, BAND, BESIDE, 0, o) == []
      && LeftGap(TILE, BAND, BESIDE, 0, m) == [] && LeftGap(TILE, BAND, BESIDE, 0, n) == []
      && LeftGap(TILE, BAND, BESIDE, 0, o) == []
  {
    hide RightNeighbour;
    var m, n, o := BAND[0], BAND[1], BAND[2];
    assert RightOf(m, BAND[1], 0) && RightOf(n, BAND[2], 0) && LeftOf(n, m, 0) && LeftOf(o, m, 0);
    assert RightNeighbour(BAND, m, 0, 3) == Some(n) && RightNeighbour(BAND, n, 0, 3) == Some(o);
    assert Supplied(BESIDE, 120000, 150240) by { assert BESIDE[0] in BESIDE && BESIDE[1] in BESIDE; }
  }
}
