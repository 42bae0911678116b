/**
 When exactly the tracker of CycleRecovery is right (demo/pe_capture.py, recover_cycles): which
 candidate wins, for which captures every assignment is exact, which ratios below 2 fail, and how
 far a refitted ratio can be off.
 */
module RecoveryBounds {
  import opened Results
  import opened Sorting
  import opened CycleRecovery

  // ------------------------------------------------------------ the nearest cycle wins

  /** Gap and overlap of an interval and a unit interval whose centres are e apart. */
  lemma GapByDistance(range: (real, real), a: real, e: real)
    requires range.0 <= range.1 && e == Abs(a + 0.5 - (range.0 + range.1) / 2.0)
    ensures var w := range.1 - range.0;
      && Gap(range, a) == Max(0.0, e - (w + 1.0) / 2.0)
      && Max(0.0, Min(range.1, a + 1.0) - Max(range.0, a)) == Max(0.0, Min(Min(w, 1.0), (w + 1.0) / 2.0 - e))
  {
  }

  /** A distance in cycles, in samples. */
  function InSamples(r: real, cycles: real): real { r * cycles }

  /** Gap and overlap of a candidate depend only on its distance from the centre; w is the width of the range. */
  ghost predicate ByDistance(f: Candidate, r: real, w: real) {
    && f.gap == Max(0.0, InSamples(r, f.dist) - (w + 1.0) / 2.0)
    && f.overlap == Max(0.0, Min(Min(w, 1.0), (w + 1.0) / 2.0 - InSamples(r, f.dist)))
  }

  lemma FitByDistance(range: (real, real), s: int, r: real, n: int)
    requires r > 0.0 && range.0 <= range.1
    ensures var x := Centre(range, s, r);
      var f := Fit(range, s, r, x, n);
      ByDistance(f, r, range.1 - range.0) && f.dist == Abs(n as real - x) && f.n == n
  {
    hide Centre, Gap;
    var x, a := Centre(range, s, r), Floor(Point(n, s), r);
    OffCentre(range, s, r, n);
    assert a + 0.5 - (range.0 + range.1) / 2.0 == r * (x - n as real);
    ScaledDistance(r, n as real, x);
    GapByDistance(range, a, r * Abs(n as real - x));
  }

  lemma ScaledDistance(r: real, n: real, x: real)
    requires r > 0.0
    ensures r * Abs(n - x) == Abs(r * (x - n))
  {
    if x >= n {
      Scaled(r, 0.0, x - n);
    } else {
      Scaled(r, 0.0, n - x);
      assert r * (n - x) == -(r * (x - n));
    }
  }

  /** How far the sample is from where cycle n would be recorded with the phase in the middle of its range. */
  function Off(range: (real, real), s: int, r: real, n: int): real {
    s as real - 0.5 - (range.0 + range.1) / 2.0 - r * n as real
  }

  lemma OffCentre(range: (real, real), s: int, r: real, n: int)
    requires r > 0.0
    ensures Off(range, s, r, n) == r * (Centre(range, s, r) - n as real)
  {
    var top := s as real - 0.5 - (range.0 + range.1) / 2.0;
    assert r * (top / r) == top;
    assert r * (top / r - n as real) == r * (top / r) - r * n as real;
  }

  lemma PrecedesByDistance(f: Candidate, g: Candidate, r: real, w: real)
    requires r > 0.0 && ByDistance(f, r, w) && ByDistance(g, r, w)
    requires f.dist < g.dist || (f.dist == g.dist && f.n < g.n)
    ensures Precedes(f, g)
  {
    hide Precedes, InSamples;
    FartherInSamples(r, f.dist, g.dist);
    PrecedesInOrder(f, g, w, InSamples(r, f.dist), InSamples(r, g.dist));
  }

  lemma FartherInSamples(r: real, d: real, d': real)
    requires r > 0.0 && d <= d'
    ensures InSamples(r, d) <= InSamples(r, d')
  {
    Scaled(r, d, d');
  }

  lemma PrecedesInOrder(f: Candidate, g: Candidate, w: real, e: real, e': real)
    requires f.dist < g.dist || (f.dist == g.dist && f.n < g.n)
    requires e <= e' && (f.dist == g.dist ==> e == e')
    requires f.gap == Max(0.0, e - (w + 1.0) / 2.0) && g.gap == Max(0.0, e' - (w + 1.0) / 2.0)
    requires f.overlap == Max(0.0, Min(Min(w, 1.0), (w + 1.0) / 2.0 - e))
    requires g.overlap == Max(0.0, Min(Min(w, 1.0), (w + 1.0) / 2.0 - e'))
    ensures Precedes(f, g)
  {
  }

  lemma NearerPrecedes(range: (real, real), s: int, r: real, n: int, m: int)
    requires r > 0.0 && range.0 <= range.1
    requires var x := Centre(range, s, r);
      Abs(n as real - x) < Abs(m as real - x) || (Abs(n as real - x) == Abs(m as real - x) && n < m)
    ensures var x := Centre(range, s, r); Precedes(Fit(range, s, r, x, n), Fit(range, s, r, x, m))
  {
    hide Fit, Centre, Precedes, Abs, ByDistance;
    var x := Centre(range, s, r);
    FitByDistance(range, s, r, n);
    FitByDistance(range, s, r, m);
    PrecedesByDistance(Fit(range, s, r, x, n), Fit(range, s, r, x, m), r, range.1 - range.0);
  }

  lemma Scaled(r: real, a: real, b: real)
    requires r > 0.0 && a <= b
    ensures r * a <= r * b
  {
    assert r * (b - a) >= 0.0;
  }

  lemma FirstOfThree(a: Candidate, b: Candidate, c: Candidate)
    ensures Precedes(a, b) && Precedes(a, c) ==> Sorted(Precedes, [a, b, c])[0] == a
    ensures Precedes(b, a) && Precedes(b, c) ==> Sorted(Precedes, [a, b, c])[0] == b
  {
    SortedOfThree(Precedes, a, b, c);
  }

  /** The winning candidate is the cycle nearest to the centre; a tie goes to the lower one. */
  lemma NearestWins(pts: seq<Point>, s: int, r: real, n: int)
    requires pts != [] && r > 0.0
    ensures Ranked(pts, s, r)[0].n == n <==> n as real - 0.5 < Centre(Feasible(pts, r), s, r) <= n as real + 0.5
  {
    hide Precedes, Sorted, Centre, Feasible, Fit;
    var range := Feasible(pts, r);
    var x := Centre(range, s, r);
    var n0 := (x + 0.5).Floor;
    var lower := x == n0 as real - 0.5;
    FeasibleIsRange(pts, r);
    FirstOfRanked(range, s, r, n0, lower);
    NearestIs(x, n0, n);
    FitIsOf(range, s, r, x, n0 - 1);
    FitIsOf(range, s, r, x, n0);
  }

  lemma FeasibleIsRange(pts: seq<Point>, r: real)
    requires pts != []
    ensures Feasible(pts, r).0 <= Feasible(pts, r).1
  {
  }

  lemma FitIsOf(range: (real, real), s: int, r: real, x: real, n: int)
    ensures Fit(range, s, r, x, n).n == n
  {
  }

  lemma FirstOfRanked(range: (real, real), s: int, r: real, n0: int, lower: bool)
    requires r > 0.0 && range.0 <= range.1
    requires var x := Centre(range, s, r); n0 == (x + 0.5).Floor && (lower <==> x == n0 as real - 0.5)
    ensures var x := Centre(range, s, r);
      var a, b, c := Fit(range, s, r, x, n0 - 1), Fit(range, s, r, x, n0), Fit(range, s, r, x, n0 + 1);
      Sorted(Precedes, [a, b, c])[0] == if lower then a else b
  {
    hide Precedes, Sorted, Centre, Fit;
    var x := Centre(range, s, r);
    FirstOfThree(Fit(range, s, r, x, n0 - 1), Fit(range, s, r, x, n0), Fit(range, s, r, x, n0 + 1));
    if lower {
      NearerPrecedes(range, s, r, n0 - 1, n0);
      NearerPrecedes(range, s, r, n0 - 1, n0 + 1);
    } else {
      NearerPrecedes(range, s, r, n0, n0 - 1);
      NearerPrecedes(range, s, r, n0, n0 + 1);
    }
  }

  /** The nearest cycle to x, the lower one of two. */
  lemma NearestIs(x: real, n0: int, n: int)
    requires n0 == (x + 0.5).Floor
    ensures n as real - 0.5 < x <= n as real + 0.5 <==> n == if x == n0 as real - 0.5 then n0 - 1 else n0
  {
  }

  /** The edge at sample s is less than half a cycle from where cycle n would be, or half a cycle late. */
  ghost predicate Centred(range: (real, real), s: int, r: real, n: int) {
    -r / 2.0 < Off(range, s, r, n) <= r / 2.0
  }

  lemma CentredMeansNearest(range: (real, real), s: int, r: real, n: int)
    requires r > 0.0
    ensures Centred(range, s, r, n) <==> n as real - 0.5 < Centre(range, s, r) <= n as real + 0.5
  {
    hide Off, Centre;
    OffCentre(range, s, r, n);
    HalfWithin(Centre(range, s, r) - n as real, r, Off(range, s, r, n));
  }

  lemma HalfWithin(y: real, r: real, off: real)
    requires r > 0.0 && off == r * y
    ensures -r / 2.0 < off <= r / 2.0 <==> -0.5 < y <= 0.5
  {
    SignOfProduct(y - 0.5, r);
    SignOfProduct(y + 0.5, r);
    assert (y - 0.5) * r == off - 0.5 * r && (y + 0.5) * r == off + 0.5 * r;
  }

  /** An edge is given cycle n if and only if its sample is within half a cycle of n's middle position. */
  lemma ChoiceIsNearest(recent: seq<Point>, est: Ratio, s: int, tolerance: real, n: int)
    requires recent != [] && est.r > 0.0 && est.unc > 0.0
    ensures Choose(recent, est, s, tolerance).n == n
      <==> Centred(Feasible(Usable(recent, est.r, est.unc), est.r), s, est.r, n)
  {
    hide Ranked, Feasible, Usable, Centre, Centred;
    var pts := Usable(recent, est.r, est.unc);
    NearestWins(pts, s, est.r, n);
    CentredMeansNearest(Feasible(pts, est.r), s, est.r, n);
  }

  // ------------------------------------------------------------ the choice, from the edges themselves

  /** A recent edge that the uncertainty of the ratio moves by at most a tenth of a sample. */
  ghost predicate NearEnough(recent: seq<Point>, r: real, unc: real, p: Point)
    requires recent != []
  {
    p in recent && (recent[|recent| - 1].n - p.n) as real * (r * unc) <= 0.1
  }

  /** The phase lies between lo and hi for all near edges, and these are the tightest bounds they give. */
  ghost predicate PhaseBounds(recent: seq<Point>, r: real, unc: real, lo: real, hi: real)
    requires recent != []
  {
    && (forall p | NearEnough(recent, r, unc, p) :: p.s as real - 1.0 - r * p.n as real <= lo)
    && (forall p | NearEnough(recent, r, unc, p) :: hi <= p.s as real - r * p.n as real)
    && (exists p :: NearEnough(recent, r, unc, p) && p.s as real - 1.0 - r * p.n as real == lo)
    && exists p :: NearEnough(recent, r, unc, p) && p.s as real - r * p.n as real == hi
  }

  /** What is left of the phase: those bounds, or one sample around their middle when jitter crosses them. */
  ghost predicate PhaseRange(recent: seq<Point>, r: real, unc: real, lo: real, hi: real)
    requires recent != []
  {
    exists l, h | PhaseBounds(recent, r, unc, l, h) ::
      if l <= h then lo == l && hi == h else lo == (l + h) / 2.0 - 0.5 && hi == (l + h) / 2.0 + 0.5
  }

  lemma WithinLimit(distance: real, scale: real)
    requires scale > 0.0
    ensures distance * scale <= 0.1 <==> distance <= 0.1 / scale
  {
    var limit := 0.1 / scale;
    assert limit * scale == 0.1;
    SignOfProduct(distance - limit, scale);
    assert (distance - limit) * scale == distance * scale - limit * scale;
  }

  lemma UsableAreNear(recent: seq<Point>, r: real, unc: real)
    requires recent != [] && r > 0.0 && unc > 0.0
    ensures forall p :: p in Usable(recent, r, unc) <==> NearEnough(recent, r, unc, p)
  {
    hide Near;
    var last := recent[|recent| - 1];
    assert r * unc > 0.0;
    forall p ensures p in Usable(recent, r, unc) <==> NearEnough(recent, r, unc, p) {
      WithinLimit((last.n - p.n) as real, r * unc);
    }
  }

  /** The feasible range is that of the near edges. */
  lemma FeasibleIsPhaseRange(recent: seq<Point>, r: real, unc: real, lo: real, hi: real)
    requires recent != [] && r > 0.0 && unc > 0.0 && PhaseRange(recent, r, unc, lo, hi)
    ensures (lo, hi) == Feasible(Usable(recent, r, unc), r)
  {
    hide Usable, NearEnough, Low, High;
    UsableAreNear(recent, r, unc);
    var pts := Usable(recent, r, unc);
    var l, h :| PhaseBounds(recent, r, unc, l, h)
      && if l <= h then lo == l && hi == h else lo == (l + h) / 2.0 - 0.5 && hi == (l + h) / 2.0 + 0.5;
    BoundsAre(recent, pts, r, unc, l, h);
  }

  lemma BoundsAre(recent: seq<Point>, pts: seq<Point>, r: real, unc: real, lo: real, hi: real)
    requires recent != [] && pts != [] && forall p :: p in pts <==> NearEnough(recent, r, unc, p)
    ensures PhaseBounds(recent, r, unc, lo, hi) <==> lo == Low(pts, r) && hi == High(pts, r)
  {
    hide NearEnough, Low, High;
    if PhaseBounds(recent, r, unc, lo, hi) {
      var p :| p in pts && p.s as real - 1.0 - r * p.n as real == lo;
      var q :| q in pts && q.s as real - r * q.n as real == hi;
      var p' :| p' in pts && Floor(p', r) == Low(pts, r);
      var q' :| q' in pts && Floor(q', r) + 1.0 == High(pts, r);
      assert Floor(p, r) == lo && Floor(q, r) + 1.0 == hi;
    } else if lo == Low(pts, r) && hi == High(pts, r) {
      var p' :| p' in pts && Floor(p', r) == lo;
      var q' :| q' in pts && Floor(q', r) + 1.0 == hi;
      assert p'.s as real - 1.0 - r * p'.n as real == lo && q'.s as real - r * q'.n as real == hi;
      forall p | NearEnough(recent, r, unc, p)
        ensures p.s as real - 1.0 - r * p.n as real <= lo && hi <= p.s as real - r * p.n as real
      {
        assert p in pts && Floor(p, r) <= lo && hi <= Floor(p, r) + 1.0;
      }
    }
  }

  lemma SortedByOrder(a: Candidate, b: Candidate, c: Candidate)
    ensures Precedes(a, b) && Precedes(b, c) && Precedes(a, c) ==> Sorted(Precedes, [a, b, c]) == [a, b, c]
    ensures Precedes(b, a) && Precedes(a, c) && Precedes(b, c) ==> Sorted(Precedes, [a, b, c]) == [b, a, c]
    ensures Precedes(b, c) && Precedes(c, a) && Precedes(b, a) ==> Sorted(Precedes, [a, b, c]) == [b, c, a]
  {
    SortedOfThree(Precedes, a, b, c);
  }

  function Away(n: int, x: real): real { Abs(n as real - x) }

  /** The two best candidates are the two nearest of all cycles. */
  lemma BestTwo(range: (real, real), s: int, r: real, best: seq<Candidate>)
    requires r > 0.0 && range.0 <= range.1
    requires var x := Centre(range, s, r); var n0 := (x + 0.5).Floor;
      best == Sorted(Precedes, [Fit(range, s, r, x, n0 - 1), Fit(range, s, r, x, n0), Fit(range, s, r, x, n0 + 1)])
    ensures var x := Centre(range, s, r);
      && best[0] == Fit(range, s, r, x, best[0].n) && best[1] == Fit(range, s, r, x, best[1].n)
      && best[1].n != best[0].n && forall n | n != best[0].n :: Away(best[1].n, x) <= Away(n, x)
  {
    hide Precedes, Sorted, Centre, Fit;
    var x := Centre(range, s, r);
    var n0 := (x + 0.5).Floor;
    FitIsOf(range, s, r, x, n0 - 1);
    FitIsOf(range, s, r, x, n0);
    FitIsOf(range, s, r, x, n0 + 1);
    SortedByOrder(Fit(range, s, r, x, n0 - 1), Fit(range, s, r, x, n0), Fit(range, s, r, x, n0 + 1));
    if x == n0 as real - 0.5 {
      NearerPrecedes(range, s, r, n0 - 1, n0);
      NearerPrecedes(range, s, r, n0, n0 + 1);
      NearerPrecedes(range, s, r, n0 - 1, n0 + 1);
    } else if x <= n0 as real {
      NearerPrecedes(range, s, r, n0, n0 - 1);
      NearerPrecedes(range, s, r, n0 - 1, n0 + 1);
      NearerPrecedes(range, s, r, n0, n0 + 1);
    } else {
      NearerPrecedes(range, s, r, n0, n0 + 1);
      NearerPrecedes(range, s, r, n0 + 1, n0 - 1);
      NearerPrecedes(range, s, r, n0, n0 - 1);
    }
  }

  /** The interval of cycle n overlaps the range in more than a point. */
  ghost predicate Overlaps(range: (real, real), s: int, r: real, n: int) {
    range.0 < range.1 && range.0 < s as real - r * n as real && s as real - 1.0 - r * n as real < range.1
  }

  lemma GapMeans(range: (real, real), a: real, tolerance: real)
    requires range.0 <= range.1
    ensures Gap(range, a) > tolerance <==>
      tolerance < 0.0 || a > range.1 + tolerance || a + 1.0 < range.0 - tolerance
    ensures Gap(range, a) >= 0.0
    ensures Max(0.0, Min(range.1, a + 1.0) - Max(range.0, a)) > 0.0
      <==> range.0 < range.1 && range.0 < a + 1.0 && a < range.1
  {
  }

  lemma FitMeans(range: (real, real), s: int, r: real, x: real, n: int, tolerance: real)
    requires range.0 <= range.1
    ensures var f := Fit(range, s, r, x, n);
      && (f.gap > tolerance <==> tolerance < 0.0 || s as real - 1.0 - r * n as real > range.1 + tolerance
                                 || s as real - r * n as real < range.0 - tolerance)
      && (f.gap == 0.0 && f.overlap > 0.0 <==> Overlaps(range, s, r, n))
  {
    hide Gap, Max, Min;
    var a := Floor(Point(n, s), r);
    GapMeans(range, a, tolerance);
    GapMeans(range, a, 0.0);
    var f := Fit(range, s, r, x, n);
    assert f.overlap == Max(0.0, Min(range.1, a + 1.0) - Max(range.0, a));
    assert f.overlap > 0.0 <==> Overlaps(range, s, r, n);
    assert f.gap > 0.0 <==> a > range.1 || a + 1.0 < range.0;
  }

  /** A cycle that is no farther overlaps if the farther one does. */
  lemma NearerOverlaps(range: (real, real), s: int, r: real, n: int, m: int)
    requires r > 0.0 && range.0 <= range.1 && Overlaps(range, s, r, m)
    requires var x := Centre(range, s, r); Away(n, x) <= Away(m, x)
    ensures Overlaps(range, s, r, n)
  {
    hide Centre, Overlaps, Abs, InSamples, Fit;
    var x := Centre(range, s, r);
    FitMeans(range, s, r, x, n, 0.0);
    FitMeans(range, s, r, x, m, 0.0);
    FitByDistance(range, s, r, n);
    FitByDistance(range, s, r, m);
    FartherInSamples(r, Abs(n as real - x), Abs(m as real - x));
  }

  /**
   What the tracker does with an edge at sample s, in terms of the recent edges alone. It takes the cycle whose
   position with the phase in the middle of the range is within half a cycle; it counts the edge as unmatched
   when that cycle's interval is farther than the tolerance from the range, and as ambiguous when the
   interval of another cycle overlaps the range.
   */
  lemma ChoiceMeans(recent: seq<Point>, est: Ratio, s: int, tolerance: real, lo: real, hi: real)
    requires recent != [] && est.r > 0.0 && est.unc > 0.0 && PhaseRange(recent, est.r, est.unc, lo, hi)
    ensures var c, r := Choose(recent, est, s, tolerance), est.r;
      && -r / 2.0 < s as real - 0.5 - (lo + hi) / 2.0 - r * c.n as real <= r / 2.0
      && (c.unmatched <==> tolerance < 0.0 || s as real - 1.0 - r * c.n as real > hi + tolerance
                           || s as real - r * c.n as real < lo - tolerance)
      && (c.ambiguous <==> exists n | n != c.n :: Overlaps((lo, hi), s, r, n))
  {
    hide Usable, Feasible, PhaseRange, Overlaps, Sorted, Fit, Centre, Away, Ranked;
    var r, pts, range := est.r, Usable(recent, est.r, est.unc), (lo, hi);
    FeasibleIsPhaseRange(recent, r, est.unc, lo, hi);
    FeasibleIsRange(pts, r);
    var c := Choose(recent, est, s, tolerance);
    ChoiceIsNearest(recent, est, s, tolerance, c.n);
    RankedMeans(pts, range, s, r, tolerance);
  }

  lemma RankedMeans(pts: seq<Point>, range: (real, real), s: int, r: real, tolerance: real)
    requires pts != [] && r > 0.0 && range == Feasible(pts, r) && range.0 <= range.1
    ensures var best := Ranked(pts, s, r); var n := best[0].n;
      && (best[0].gap > tolerance <==> tolerance < 0.0 || s as real - 1.0 - r * n as real > range.1 + tolerance
                                       || s as real - r * n as real < range.0 - tolerance)
      && (best[1].gap == 0.0 && best[1].overlap > 0.0 <==> exists m | m != n :: Overlaps(range, s, r, m))
  {
    hide Feasible, Overlaps, Sorted, Fit, Centre, Away;
    var best, x := Ranked(pts, s, r), Centre(range, s, r);
    BestTwo(range, s, r, best);
    FitMeans(range, s, r, x, best[0].n, tolerance);
    FitMeans(range, s, r, x, best[1].n, 0.0);
    forall m | m != best[0].n && Overlaps(range, s, r, m) ensures Overlaps(range, s, r, best[1].n) {
      NearerOverlaps(range, s, r, best[1].n, m);
    }
  }

  // ------------------------------------------------------------ exact runs

  lemma RefitStaysPositive(i: nat, w: seq<Point>, est: Ratio)
    requires w != [] && Rising(w) && est.r > 0.0
    ensures Refit(i, w, est).Ok? && Refit(i, w, est).value.r > 0.0
  {
    hide Covariance;
    RefitOfRisingSucceeds(i, w, est);
    if |w| >= 2 {
      RisingSlopeIsPositive(w);
      RisingSlopeIsPositive(Timeless(w));
      PositiveQuotient(Covariance(w), Variance(w));
    }
  }

  lemma PositiveQuotient(num: int, den: int)
    requires num > 0 && den > 0
    ensures Quotient(num, den) > 0.0
  {
    var q := Quotient(num, den);
    assert q * den as real == num as real;
    if q <= 0.0 { Scaled(den as real, q, 0.0); }
  }

  /** After m edges the tracker holds the true cycles. */
  ghost predicate OnTrack(samples: seq<int>, cycles: seq<int>, ratio: real, tolerance: real, m: nat)
    requires m <= |samples| == |cycles| && ratio > 1.0
  {
    var r := After(samples, ratio, tolerance, m);
    r.Ok? && r.value.points == Exact(samples, cycles, m)
  }

  lemma OnTrackAtFirst(samples: seq<int>, cycles: seq<int>, ratio: real, tolerance: real)
    requires |samples| == |cycles| && ratio > 1.0
    ensures OnTrack(samples, cycles, ratio, tolerance, 0)
  {
  }

  lemma PrefixOnTrack(samples: seq<int>, cycles: seq<int>, ratio: real, tolerance: real, m: nat)
    requires m < |samples| == |cycles| && ratio > 1.0 && OnTrack(samples, cycles, ratio, tolerance, m + 1)
    ensures OnTrack(samples, cycles, ratio, tolerance, m)
  {
    hide Step;
    var r, next := After(samples, ratio, tolerance, m), After(samples, ratio, tolerance, m + 1);
    assert r.Ok? && r.value.points == next.value.points[..m];
    assert Exact(samples, cycles, m + 1)[..m] == Exact(samples, cycles, m);
  }

  lemma {:induction false} RatioIsPositive(samples: seq<int>, cycles: seq<int>, ratio: real,
                                           tolerance: real, m: nat)
    requires Ascends(samples, cycles) && m <= |samples| && ratio > 1.0
    requires OnTrack(samples, cycles, ratio, tolerance, m)
    ensures After(samples, ratio, tolerance, m).value.est.r > 0.0
  {
    hide Choose, Refit, Rising, Last, Span;
    if m > 0 {
      PrefixOnTrack(samples, cycles, ratio, tolerance, m - 1);
      RatioIsPositive(samples, cycles, ratio, tolerance, m - 1);
      ExactWindow(samples, cycles, m - 1);
      var t := After(samples, ratio, tolerance, m - 1).value;
      RefitStaysPositive(m - 1, Last(Exact(samples, cycles, m), WINDOW), t.est);
    }
  }

  // ------------------------------------------------------------ the counters

  /** What the tracker decides about edge i. */
  ghost function ChoiceAt(samples: seq<int>, ratio: real, tolerance: real, i: nat): Choice
    requires 1 <= i < |samples| && ratio > 1.0 && After(samples, ratio, tolerance, i).Ok?
  {
    var t := After(samples, ratio, tolerance, i).value;
    Choose(Last(t.points, KEEP), t.est, samples[i], tolerance)
  }

  ghost predicate UnmatchedAt(samples: seq<int>, ratio: real, tolerance: real, i: nat) {
    && ratio > 1.0 && 1 <= i < |samples| && After(samples, ratio, tolerance, i).Ok?
    && ChoiceAt(samples, ratio, tolerance, i).unmatched
  }

  ghost predicate AmbiguousAt(samples: seq<int>, ratio: real, tolerance: real, i: nat) {
    && ratio > 1.0 && 1 <= i < |samples| && After(samples, ratio, tolerance, i).Ok?
    && ChoiceAt(samples, ratio, tolerance, i).ambiguous
  }

  /** After edge i the ratio is fitted anew: every 64th time, to a window of at least 1000 cycles. */
  ghost predicate RefittedAt(samples: seq<int>, ratio: real, tolerance: real, i: nat) {
    && ratio > 1.0 && i < |samples| && After(samples, ratio, tolerance, i + 1).Ok? && i % 64 == 63
    && var w := Last(After(samples, ratio, tolerance, i + 1).value.points, WINDOW);
       w[|w| - 1].n - w[0].n >= 1000 && Variance(w) != 0
  }

  function One(b: bool): nat { if b then 1 else 0 }

  lemma CountersStep(samples: seq<int>, ratio: real, tolerance: real, m: nat)
    requires m < |samples| && ratio > 1.0 && After(samples, ratio, tolerance, m + 1).Ok?
    ensures After(samples, ratio, tolerance, m).Ok?
    ensures var t, next := After(samples, ratio, tolerance, m).value, After(samples, ratio, tolerance, m + 1).value;
      && next.unmatched == t.unmatched + One(UnmatchedAt(samples, ratio, tolerance, m))
      && next.ambiguous == t.ambiguous + One(AmbiguousAt(samples, ratio, tolerance, m))
      && next.est.refits == t.est.refits + One(RefittedAt(samples, ratio, tolerance, m))
  {
    hide Choose, Variance, Covariance, Last;
    var t := After(samples, ratio, tolerance, m).value;
    assert After(samples, ratio, tolerance, m + 1) == Step(t, samples[m], tolerance);
  }

  ghost function Below(p: nat -> bool, m: nat): (r: set<nat>)
    ensures forall i: nat :: i in r <==> i < m && p(i)
  {
    set i: nat | i < m && p(i)
  }

  lemma BelowGrows(p: nat -> bool, m: nat)
    ensures |Below(p, 0)| == 0 && |Below(p, m + 1)| == |Below(p, m)| + One(p(m))
  {
    var more := Below(p, m);
    assert Below(p, m + 1) == if p(m) then more + {m} else more;
  }

  ghost function Unmatched(samples: seq<int>, ratio: real, tolerance: real): nat -> bool {
    (i: nat) => UnmatchedAt(samples, ratio, tolerance, i)
  }

  ghost function Ambiguous(samples: seq<int>, ratio: real, tolerance: real): nat -> bool {
    (i: nat) => AmbiguousAt(samples, ratio, tolerance, i)
  }

  ghost function Refits(samples: seq<int>, ratio: real, tolerance: real): nat -> bool {
    (i: nat) => RefittedAt(samples, ratio, tolerance, i)
  }

  /** The counters count the edges that are unmatched, ambiguous, and followed by a refit. */
  lemma {:induction false} CountersCount(samples: seq<int>, ratio: real, tolerance: real, m: nat)
    requires m <= |samples| && ratio > 1.0 && After(samples, ratio, tolerance, m).Ok?
    ensures var t := After(samples, ratio, tolerance, m).value;
      && t.unmatched == |Below(Unmatched(samples, ratio, tolerance), m)|
      && t.ambiguous == |Below(Ambiguous(samples, ratio, tolerance), m)|
      && t.est.refits == |Below(Refits(samples, ratio, tolerance), m)|
  {
    hide After, Step, UnmatchedAt, AmbiguousAt, RefittedAt, One, Below;
    var k := if m == 0 then 0 else m - 1;
    BelowGrows(Unmatched(samples, ratio, tolerance), k);
    BelowGrows(Ambiguous(samples, ratio, tolerance), k);
    BelowGrows(Refits(samples, ratio, tolerance), k);
    if m == 0 {
      NoCounts(samples, ratio, tolerance);
    } else {
      CountersStep(samples, ratio, tolerance, k);
      CountersCount(samples, ratio, tolerance, k);
    }
  }

  lemma NoCounts(samples: seq<int>, ratio: real, tolerance: real)
    requires ratio > 1.0
    ensures var r := After(samples, ratio, tolerance, 0);
      r.Ok? && r.value.unmatched == 0 && r.value.ambiguous == 0 && r.value.est.refits == 0
  {
  }

  /** Edge i arrives within half a cycle of the middle position of its true cycle. */
  ghost predicate EdgeCentred(samples: seq<int>, cycles: seq<int>, ratio: real, tolerance: real, i: nat)
    requires 1 <= i < |samples| == |cycles| && ratio > 1.0
  {
    var r := After(samples, ratio, tolerance, i);
    r.Ok? && Centred(Feasible(InUse(r.value), r.value.est.r), samples[i], r.value.est.r, cycles[i] - cycles[0])
  }

  lemma StepOnTrack(samples: seq<int>, cycles: seq<int>, ratio: real, tolerance: real, m: nat)
    requires Ascends(samples, cycles) && m < |samples| == |cycles| && ratio > 1.0
    requires OnTrack(samples, cycles, ratio, tolerance, m)
    ensures OnTrack(samples, cycles, ratio, tolerance, m + 1)
      <==> (m > 0 ==> EdgeCentred(samples, cycles, ratio, tolerance, m))
  {
    hide Ascends, Choose, Refit, Centred, Rising, Last, Span, Usable, Feasible;
    var t := After(samples, ratio, tolerance, m).value;
    RatioIsPositive(samples, cycles, ratio, tolerance, m);
    var n, points := cycles[m] - cycles[0], Exact(samples, cycles, m + 1);
    assert points == Exact(samples, cycles, m) + [Point(n, samples[m])];
    ExactWindow(samples, cycles, m);
    RefitStaysPositive(m, Last(points, WINDOW), t.est);
    if m > 0 {
      ChoiceIsNearest(Last(t.points, KEEP), t.est, samples[m], tolerance, n);
      var c := Choose(Last(t.points, KEEP), t.est, samples[m], tolerance);
      assert c.n != n ==> (t.points + [Point(c.n, samples[m])])[m] != points[m];
    }
  }

  // ------------------------------------------------------------ ratios below 2

  /** The cycle given to the second of two edges, recorded at samples 0 and s, at an exactly known ratio. */
  ghost predicate SecondGiven(s: int, r: real, tolerance: real, n: int)
    requires r > 1.0
  {
    var t := After([0, s], r, tolerance, 2);
    t.Ok? && t.value.points == [Point(0, 0), Point(n, s)]
  }

  lemma SecondEdge(s: int, r: real, tolerance: real, n: int)
    requires r > 1.0
    ensures SecondGiven(s, r, tolerance, n) <==> -r / 2.0 < s as real - r * n as real <= r / 2.0
  {
    hide Choose, Refit;
    var est := Ratio(r, 0.0002, 0);
    var first := [Point(0, 0)];
    FirstRange(r);
    ChoiceIsNearest(first, est, s, tolerance, n);
    NoRefit(0, first, est);
    var c := Choose(first, est, s, tolerance);
    NoRefit(1, [Point(0, 0), Point(c.n, s)], est);
    var one := Track(first, est, 0, 0);
    assert [] + first == first && Last(first, WINDOW) == first && Last(first, KEEP) == first;
    assert first + [Point(c.n, s)] == [Point(0, 0), Point(c.n, s)];
    assert Last([Point(0, 0), Point(c.n, s)], WINDOW) == [Point(0, 0), Point(c.n, s)];
    assert Step(Track([], est, 0, 0), 0, tolerance) == Ok(one);
    assert After([0, s], r, tolerance, 1) == Ok(one);
    assert After([0, s], r, tolerance, 2) == Step(one, s, tolerance);
    assert [Point(0, 0), Point(c.n, s)] == [Point(0, 0), Point(n, s)] <==> c.n == n by {
      assert [Point(0, 0), Point(c.n, s)][1].n == c.n && [Point(0, 0), Point(n, s)][1].n == n;
    }
  }

  /** One edge at sample 0 confines the phase to (-1, 0]. */
  lemma FirstRange(r: real)
    requires r > 1.0
    ensures Feasible(Usable([Point(0, 0)], r, 0.0002), r) == (-1.0, 0.0)
  {
    var first := [Point(0, 0)];
    var pts := Usable(first, r, 0.0002);
    assert forall p | p in pts :: p == Point(0, 0);
    assert Floor(Point(0, 0), r) == -1.0;
    assert Low(pts, r) == -1.0 && High(pts, r) == 0.0;
  }

  /** An edge of cycle m that can be recorded with the first edge at sample 0. */
  ghost predicate SecondRecorded(s: int, m: int, phi: real, r: real) {
    m >= 1 && Recorded([0, s], [0, m], phi, r)
  }

  /** Some position of cycle m lies so close behind, or so far behind, the sampling grid. */
  ghost predicate BadFit(r: real, m: int, k: int) {
    var late := k as real - r * m as real;
    m >= 1 && (0.0 < late <= 1.0 - r / 2.0 || r / 2.0 < late < 1.0)
  }

  /**
   The ratio 2 is the exact bound for two edges. With the ratio known exactly, some second edge is
   given a wrong cycle if and only if some cycle m falls at most 1 - r/2 samples, or more than r/2
   samples, before a sample k; for a ratio of at least 2 there is none.
   */
  lemma TwoEdgeFailures(r: real, tolerance: real)
    requires r > 1.0
    ensures (exists s, m, phi: real :: SecondRecorded(s, m, phi, r) && !SecondGiven(s, r, tolerance, m))
      <==> exists m, k :: BadFit(r, m, k)
    ensures r >= 2.0 ==> forall m, k :: !BadFit(r, m, k)
  {
    hide SecondGiven, Recorded;
    if s, m, phi: real :| SecondRecorded(s, m, phi, r) && !SecondGiven(s, r, tolerance, m) {
      SecondEdge(s, r, tolerance, m);
      SecondPosition(s, m, phi, r);
      assert BadFit(r, m, s + 1) || BadFit(r, m, s);
    }
    if m, k :| BadFit(r, m, k) {
      var s, phi := BadFitFails(r, m, k, tolerance);
      assert SecondRecorded(s, m, phi, r) && !SecondGiven(s, r, tolerance, m);
    }
  }

  lemma SecondPosition(s: int, m: int, phi: real, r: real)
    requires SecondRecorded(s, m, phi, r)
    ensures -1.0 < s as real - r * m as real < 1.0
  {
    assert RecordedAt(Point([0, m][0], [0, s][0]), phi, r) && RecordedAt(Point([0, m][1], [0, s][1]), phi, r);
    assert m as real * r == r * m as real;
  }

  /** The failing capture: too early by a cycle in the first case, too late in the second. */
  lemma BadFitFails(r: real, m: int, k: int, tolerance: real) returns (s: int, phi: real)
    requires r > 1.0 && BadFit(r, m, k)
    ensures SecondRecorded(s, m, phi, r) && !SecondGiven(s, r, tolerance, m)
    ensures k as real - r * m as real <= 1.0 - r / 2.0 ==> s == k - 1 && SecondGiven(s, r, tolerance, m - 1)
  {
    hide SecondGiven;
    var late := k as real - r * m as real;
    assert m as real * r == r * m as real;
    assert r * m as real >= r by { Scaled(r, 1.0, m as real); }
    if late <= 1.0 - r / 2.0 {
      s, phi := k - 1, late - 1.0;
      FloorOfNext(m, s, r, -1);
      SecondEdge(s, r, tolerance, m - 1);
    } else {
      s, phi := k, 0.0;
    }
    assert RecordedAt(Point(0, 0), phi, r) && RecordedAt(Point(m, s), phi, r);
    SecondEdge(s, r, tolerance, m);
  }

  /** An instance: at 1.85 an edge of cycle 7 can be recorded at sample 12 and is given cycle 6. */
  lemma BelowTwoCanFail(tolerance: real)
    ensures exists phi :: SecondRecorded(12, 7, phi, 1.85)
    ensures SecondGiven(12, 1.85, tolerance, 6) && !SecondGiven(12, 1.85, tolerance, 7)
  {
    hide SecondRecorded, SecondGiven;
    var s, phi := BadFitFails(1.85, 7, 13, tolerance);
  }
}
