/**
 Whole captures and their refitted ratio (demo/pe_capture.py, recover_cycles): the exact condition for
 recovery on the capture alone, and a simpler one. The least-squares slope of exactly assigned edges
 differs from the true ratio by less than one sample per mean pair distance; this turns the premise of
 CycleRecovery.RobustRecovery about the tracker's own estimates into one about when the edges happen.
 */
module SlopeDrift {
  import opened Results
  import opened CycleRecovery
  import opened RecoveryBounds

  // ------------------------------------------------------------ the slope of exact points

  ghost predicate AllRecorded(w: seq<Point>, phi: real, rho: real) {
    forall p | p in w :: RecordedAt(p, phi, rho)
  }

  function Distance(p: Point, q: Point): int { if p.n < q.n then q.n - p.n else p.n - q.n }

  ghost function CrossSpread(w: seq<Point>, p: Point): int {
    if w == [] then 0 else CrossSpread(w[1..], p) + Distance(p, w[0])
  }

  /** The distances in cycles of all pairs of points, added up. */
  ghost function Spread(w: seq<Point>): int {
    if w == [] then 0 else Spread(w[1..]) + CrossSpread(w[1..], w[0])
  }

  /** A ratio explains a covariance by a variance up to a bound. */
  ghost predicate Explains(rho: real, covariance: int, variance: int, bound: int) {
    -(bound as real) <= covariance as real - rho * variance as real <= bound as real
  }

  lemma NothingToExplain(rho: real)
    ensures Explains(rho, 0, 0, 0)
  {
  }

  lemma Difference(p: Point, q: Point, phi: real, rho: real)
    requires RecordedAt(p, phi, rho) && RecordedAt(q, phi, rho)
    ensures -1.0 < (p.s - q.s) as real - rho * (p.n - q.n) as real < 1.0
  {
    assert rho * (p.n - q.n) as real == p.n as real * rho - q.n as real * rho;
  }

  lemma PairBound(x: real, y: real, rho: real)
    requires -1.0 < y - rho * x < 1.0
    ensures -Abs(x) <= x * y - rho * (x * x) <= Abs(x)
  {
    var e, off := y - rho * x, x * y - rho * (x * x);
    assert off == x * e by { assert x * (rho * x) == rho * (x * x); }
    if x >= 0.0 {
      WithinScale(x, e);
    } else {
      WithinScale(-x, e);
      assert (-x) * e == -off;
    }
  }

  /** Two recorded edges are apart by their cycles times the ratio, up to less than one sample. */
  lemma PairDrift(p: Point, q: Point, phi: real, rho: real)
    requires RecordedAt(p, phi, rho) && RecordedAt(q, phi, rho)
    ensures var dn, ds := p.n - q.n, p.s - q.s; Explains(rho, dn * ds, dn * dn, Distance(p, q))
  {
    hide RecordedAt;
    var dn, ds := p.n - q.n, p.s - q.s;
    Difference(p, q, phi, rho);
    PairBound(dn as real, ds as real, rho);
    RealProduct(dn, ds);
    RealProduct(dn, dn);
  }

  lemma RealProduct(a: int, b: int)
    ensures (a * b) as real == a as real * b as real
  {
  }

  /** An error of less than one, scaled. */
  lemma WithinScale(x: real, e: real)
    requires x >= 0.0 && -1.0 < e < 1.0
    ensures -x <= x * e <= x
  {
    assert x * (1.0 - e) >= 0.0 && x * (1.0 + e) >= 0.0;
  }

  lemma AddDrift(rho: real, x: int, v: int, bound: int, dx: int, dv: int, more: int)
    requires Explains(rho, x, v, bound) && Explains(rho, dx, dv, more)
    ensures Explains(rho, x + dx, v + dv, bound + more)
  {
    assert rho * (v + dv) as real == rho * v as real + rho * dv as real;
  }

  lemma {:induction false} CrossDrift(w: seq<Point>, p: Point, phi: real, rho: real)
    requires AllRecorded(w, phi, rho) && RecordedAt(p, phi, rho)
    ensures Explains(rho, Cross(w, p), Cross(Timeless(w), Point(p.n, p.n)), CrossSpread(w, p))
  {
    hide RecordedAt, Distance, Cross, Timeless, Explains;
    if w == [] {
      NothingToExplain(rho);
      NoCross(p);
      NoCross(Point(p.n, p.n));
    } else {
      CrossDrift(w[1..], p, phi, rho);
      PairDrift(p, w[0], phi, rho);
      CrossStep(w, p);
      TimelessStep(w);
      CrossStep(Timeless(w), Point(p.n, p.n));
      var rest, q, dn := w[1..], w[0], p.n - w[0].n;
      AddDrift(rho, Cross(rest, p), Cross(Timeless(rest), Point(p.n, p.n)), CrossSpread(rest, p),
               dn * (p.s - q.s), dn * dn, Distance(p, q));
    }
  }

  lemma NoCross(p: Point)
    ensures Timeless([]) == [] && Cross([], p) == 0
  {
  }

  lemma TimelessStep(w: seq<Point>)
    requires w != []
    ensures Timeless(w)[1..] == Timeless(w[1..]) && Timeless(w)[0] == Point(w[0].n, w[0].n)
  {
  }

  /** Covariance and variance over recorded points: the slope is the ratio up to the spread over the variance. */
  lemma {:induction false} SlopeIsNear(w: seq<Point>, phi: real, rho: real)
    requires AllRecorded(w, phi, rho)
    ensures Explains(rho, Covariance(w), Variance(w), Spread(w))
  {
    hide RecordedAt, Cross, CrossSpread, Explains;
    if w == [] {
      NothingToExplain(rho);
      NoCross(Point(0, 0));
    } else {
      SlopeIsNear(w[1..], phi, rho);
      CrossDrift(w[1..], w[0], phi, rho);
      assert Timeless(w)[1..] == Timeless(w[1..]);
      var rest, p := w[1..], w[0];
      AddDrift(rho, Covariance(rest), Variance(rest), Spread(rest),
               Cross(rest, p), Cross(Timeless(rest), Point(p.n, p.n)), CrossSpread(rest, p));
    }
  }

  // ------------------------------------------------------------ the ratio in use

  /** The window of true points at the refit after edge i. */
  ghost function WindowAt(samples: seq<int>, cycles: seq<int>, i: nat): (w: seq<Point>)
    requires i < |samples| == |cycles|
    ensures w != []
  {
    Last(Exact(samples, cycles, i + 1), WINDOW)
  }

  /** The last edge before edge m after which the ratio is refitted. */
  ghost function LastRefit(samples: seq<int>, cycles: seq<int>, m: nat): (q: Option<nat>)
    requires m <= |samples| == |cycles|
    ensures q.Some? ==> q.value < m && q.value % REFIT_EVERY == REFIT_EVERY - 1
    ensures q.Some? ==> Span(WindowAt(samples, cycles, q.value)) >= REFIT_SPAN
  {
    if m == 0 then None
    else if (m - 1) % REFIT_EVERY == REFIT_EVERY - 1 && Span(WindowAt(samples, cycles, m - 1)) >= REFIT_SPAN
    then Some(m - 1)
    else LastRefit(samples, cycles, m - 1)
  }

  /** One sample over the span. */
  function Uncertainty(r: real, span: int): (unc: real)
    requires r != 0.0 && span > 0
    ensures unc > 0.0
  {
    Max(0.0000001, 1.0 / (r * span as real))
  }

  /** A refit over a window: its slope, and one sample over its span as the uncertainty. */
  ghost predicate FittedTo(w: seq<Point>, est: Ratio)
    requires w != []
  {
    && Variance(w) > 0 && est.r == Quotient(Covariance(w), Variance(w))
    && est.r != 0.0 && Span(w) >= REFIT_SPAN && est.unc == Uncertainty(est.r, Span(w))
  }

  /** The ratio that an exact tracker uses for edge m. */
  ghost predicate RatioInUse(samples: seq<int>, cycles: seq<int>, ratio: real, est: Ratio, m: nat)
    requires m <= |samples| == |cycles|
  {
    match LastRefit(samples, cycles, m)
    case None => est.r == ratio && est.unc == 0.0002
    case Some(q) => FittedTo(WindowAt(samples, cycles, q), est)
  }

  lemma RefitGivesSlope(i: nat, w: seq<Point>, est: Ratio)
    requires w != [] && Rising(w)
    ensures var r := Refit(i, w, est);
      if i % REFIT_EVERY == REFIT_EVERY - 1 && Span(w) >= REFIT_SPAN then r.Ok? && FittedTo(w, r.value)
      else r == Ok(est)
  {
    hide Covariance;
    if Span(w) >= REFIT_SPAN {
      RefitOfRisingSucceeds(i, w, est);
      RisingSlopeIsPositive(Timeless(w));
    }
  }

  lemma {:induction false} ExactRatio(samples: seq<int>, cycles: seq<int>, ratio: real,
                                      tolerance: real, m: nat)
    requires Ascends(samples, cycles) && m <= |samples| && ratio > 1.0
    requires OnTrack(samples, cycles, ratio, tolerance, m)
    ensures RatioInUse(samples, cycles, ratio, After(samples, ratio, tolerance, m).value.est, m)
  {
    hide Choose, Refit, Rising, Last, Span, FittedTo;
    if m > 0 {
      PrefixOnTrack(samples, cycles, ratio, tolerance, m - 1);
      ExactRatio(samples, cycles, ratio, tolerance, m - 1);
      ExactWindow(samples, cycles, m - 1);
      var t := After(samples, ratio, tolerance, m - 1).value;
      RefitGivesSlope(m - 1, WindowAt(samples, cycles, m - 1), t.est);
    }
  }

  // ------------------------------------------------------------ the exact condition on the capture

  /** The ratio for edge i and its uncertainty, when the edges before it have their true cycles. */
  ghost function TrueRatio(samples: seq<int>, cycles: seq<int>, ratio: real, i: nat): (est: (real, real))
    requires i <= |samples| == |cycles| && ratio > 1.0
    ensures est.0 > 0.0 && est.1 > 0.0
  {
    match LastRefit(samples, cycles, i)
    case None => (ratio, 0.0002)
    case Some(q) => Fitted(WindowAt(samples, cycles, q), (ratio, 0.0002))
  }

  /** The least-squares slope of a window and its uncertainty, if the slope is positive, as it is for recorded edges. */
  ghost function Fitted(w: seq<Point>, est: (real, real)): (est': (real, real))
    requires w != [] && Span(w) >= REFIT_SPAN && est.0 > 0.0 && est.1 > 0.0
    ensures est'.0 > 0.0 && est'.1 > 0.0
  {
    if Variance(w) == 0 || Quotient(Covariance(w), Variance(w)) <= 0.0 then est
    else
      var slope := Quotient(Covariance(w), Variance(w));
      (slope, Uncertainty(slope, Span(w)))
  }

  lemma FittedIs(w: seq<Point>, est: Ratio, before: (real, real))
    requires w != [] && FittedTo(w, est) && est.r > 0.0 && before.0 > 0.0 && before.1 > 0.0
    ensures Fitted(w, before) == (est.r, est.unc)
  {
    hide Variance, Covariance, Quotient, Span, Uncertainty;
  }

  /** Edge j is one of the last KEEP before edge i; the uncertainty of the ratio moves it by at most a tenth of a sample. */
  ghost predicate NearEdge(cycles: seq<int>, r: real, unc: real, i: nat, j: nat)
    requires 1 <= i < |cycles|
  {
    i - KEEP <= j < i && (cycles[i - 1] - cycles[j]) as real * (r * unc) <= 0.1
  }

  /** Where the phase begins at the earliest if edge j is at its true cycle; it ends one sample later. */
  function PhaseOf(samples: seq<int>, cycles: seq<int>, r: real, j: nat): real
    requires j < |samples| == |cycles|
  {
    samples[j] as real - 1.0 - r * (cycles[j] - cycles[0]) as real
  }

  /** lo is the greatest beginning and hi the least end of the phases of the near edges. */
  ghost predicate EdgeBounds(samples: seq<int>, cycles: seq<int>, r: real, unc: real, i: nat, lo: real, hi: real)
    requires 1 <= i < |samples| == |cycles|
  {
    && (forall j: nat | NearEdge(cycles, r, unc, i, j) ::
          PhaseOf(samples, cycles, r, j) <= lo && hi <= PhaseOf(samples, cycles, r, j) + 1.0)
    && (exists j: nat :: NearEdge(cycles, r, unc, i, j) && PhaseOf(samples, cycles, r, j) == lo)
    && exists j: nat :: NearEdge(cycles, r, unc, i, j) && PhaseOf(samples, cycles, r, j) + 1.0 == hi
  }

  /**
   Edge i arrives within half a cycle of where its true cycle lies with the phase in the middle of those
   bounds. Nothing here depends on the tracker.
   */
  ghost predicate WellPlaced(samples: seq<int>, cycles: seq<int>, ratio: real, i: nat)
    requires 1 <= i < |samples| == |cycles| && ratio > 1.0
  {
    var (r, unc) := TrueRatio(samples, cycles, ratio, i);
    exists lo, hi | EdgeBounds(samples, cycles, r, unc, i, lo, hi) ::
      -r / 2.0 < samples[i] as real - 0.5 - (lo + hi) / 2.0 - r * (cycles[i] - cycles[0]) as real <= r / 2.0
  }

  /** The near edges are the near ones among the last exact points. */
  lemma PointOfEdge(samples: seq<int>, cycles: seq<int>, r: real, unc: real, i: nat, j: nat)
    requires 1 <= i < |samples| == |cycles| && NearEdge(cycles, r, unc, i, j)
    ensures NearEnough(Last(Exact(samples, cycles, i), KEEP), r, unc, Point(cycles[j] - cycles[0], samples[j]))
  {
    var recent := Last(Exact(samples, cycles, i), KEEP);
    assert recent[|recent| - 1].n == cycles[i - 1] - cycles[0];
    assert recent[j - (i - |recent|)] == Point(cycles[j] - cycles[0], samples[j]);
  }

  lemma EdgeOfPoint(samples: seq<int>, cycles: seq<int>, r: real, unc: real, i: nat, p: Point) returns (j: nat)
    requires 1 <= i < |samples| == |cycles| && NearEnough(Last(Exact(samples, cycles, i), KEEP), r, unc, p)
    ensures NearEdge(cycles, r, unc, i, j) && p == Point(cycles[j] - cycles[0], samples[j])
  {
    var recent := Last(Exact(samples, cycles, i), KEEP);
    assert recent[|recent| - 1].n == cycles[i - 1] - cycles[0];
    var k :| 0 <= k < |recent| && recent[k] == p;
    j := i - |recent| + k;
  }

  lemma NearEdges(samples: seq<int>, cycles: seq<int>, r: real, unc: real, i: nat)
    requires 1 <= i < |samples| == |cycles|
    ensures var recent := Last(Exact(samples, cycles, i), KEEP);
      && (forall j: nat | NearEdge(cycles, r, unc, i, j) ::
            NearEnough(recent, r, unc, Point(cycles[j] - cycles[0], samples[j])))
      && (forall p | NearEnough(recent, r, unc, p) ::
            exists j: nat :: NearEdge(cycles, r, unc, i, j) && p == Point(cycles[j] - cycles[0], samples[j]))
  {
    hide NearEdge, NearEnough;
    var recent := Last(Exact(samples, cycles, i), KEEP);
    forall j: nat | NearEdge(cycles, r, unc, i, j)
      ensures j < i && NearEnough(recent, r, unc, Point(cycles[j] - cycles[0], samples[j]))
    {
      NearIsBefore(cycles, r, unc, i, j);
      PointOfEdge(samples, cycles, r, unc, i, j);
    }
    forall p | NearEnough(recent, r, unc, p)
      ensures exists j: nat :: NearEdge(cycles, r, unc, i, j) && p == Point(cycles[j] - cycles[0], samples[j])
    {
      var j := EdgeOfPoint(samples, cycles, r, unc, i, p);
      NearIsBefore(cycles, r, unc, i, j);
    }
  }

  lemma BoundsOfEdges(samples: seq<int>, cycles: seq<int>, r: real, unc: real, i: nat, lo: real, hi: real)
    requires 1 <= i < |samples| == |cycles|
    ensures EdgeBounds(samples, cycles, r, unc, i, lo, hi)
      <==> PhaseBounds(Last(Exact(samples, cycles, i), KEEP), r, unc, lo, hi)
  {
    hide NearEdge, NearEnough, Exact, Last;
    NearEdges(samples, cycles, r, unc, i);
    var recent := Last(Exact(samples, cycles, i), KEEP);
    forall j: nat | NearEdge(cycles, r, unc, i, j)
      ensures j < |samples|
    {
      NearIsBefore(cycles, r, unc, i, j);
    }
  }

  lemma NearIsBefore(cycles: seq<int>, r: real, unc: real, i: nat, j: nat)
    requires 1 <= i < |cycles| && NearEdge(cycles, r, unc, i, j)
    ensures j < i
  {
  }

  lemma CentredByBounds(samples: seq<int>, cycles: seq<int>, r: real, unc: real, i: nat)
    requires 1 <= i < |samples| == |cycles| && r > 0.0 && unc > 0.0
    ensures Centred(Feasible(Usable(Last(Exact(samples, cycles, i), KEEP), r, unc), r), samples[i], r,
                    cycles[i] - cycles[0])
      <==> exists lo, hi | EdgeBounds(samples, cycles, r, unc, i, lo, hi) ::
        -r / 2.0 < samples[i] as real - 0.5 - (lo + hi) / 2.0 - r * (cycles[i] - cycles[0]) as real <= r / 2.0
  {
    hide Usable, Low, High, EdgeBounds, PhaseBounds;
    var recent := Last(Exact(samples, cycles, i), KEEP);
    var pts := Usable(recent, r, unc);
    UsableAreNear(recent, r, unc);
    forall lo, hi ensures EdgeBounds(samples, cycles, r, unc, i, lo, hi) <==> lo == Low(pts, r) && hi == High(pts, r) {
      BoundsOfEdges(samples, cycles, r, unc, i, lo, hi);
      BoundsAre(recent, pts, r, unc, lo, hi);
    }
    assert EdgeBounds(samples, cycles, r, unc, i, Low(pts, r), High(pts, r));
  }

  lemma TrueRatioInUse(samples: seq<int>, cycles: seq<int>, ratio: real, tolerance: real, i: nat)
    requires Ascends(samples, cycles) && i <= |samples| && ratio > 1.0
    requires OnTrack(samples, cycles, ratio, tolerance, i)
    ensures var est := After(samples, ratio, tolerance, i).value.est;
      TrueRatio(samples, cycles, ratio, i) == (est.r, est.unc)
  {
    hide After, LastRefit, WindowAt, Fitted, FittedTo, Span;
    RatioIsPositive(samples, cycles, ratio, tolerance, i);
    ExactRatio(samples, cycles, ratio, tolerance, i);
    if LastRefit(samples, cycles, i).Some? {
      var w := WindowAt(samples, cycles, LastRefit(samples, cycles, i).value);
      FittedIs(w, After(samples, ratio, tolerance, i).value.est, (ratio, 0.0002));
    }
  }

  lemma CentredIsWellPlaced(samples: seq<int>, cycles: seq<int>, ratio: real, tolerance: real,
                            i: nat)
    requires Ascends(samples, cycles) && 1 <= i < |samples| && ratio > 1.0
    requires OnTrack(samples, cycles, ratio, tolerance, i)
    ensures EdgeCentred(samples, cycles, ratio, tolerance, i) <==> WellPlaced(samples, cycles, ratio, i)
  {
    hide After, TrueRatio, Usable, Feasible, Centred, Last, EdgeBounds;
    TrueRatioInUse(samples, cycles, ratio, tolerance, i);
    var (r, unc) := TrueRatio(samples, cycles, ratio, i);
    CentredByBounds(samples, cycles, r, unc, i);
  }

  /**
   Exact recovery, exactly, from the capture alone: over a whole run with refits the first m edges get their
   true cycles if and only if each is well placed among the true positions of the ones before it.
   */
  lemma {:induction false} RecoveryIsExact(samples: seq<int>, cycles: seq<int>, ratio: real,
                                           tolerance: real, m: nat)
    requires Ascends(samples, cycles) && m <= |samples| && ratio > 1.0
    ensures OnTrack(samples, cycles, ratio, tolerance, m)
      <==> forall i | 1 <= i < m :: WellPlaced(samples, cycles, ratio, i)
  {
    hide WellPlaced, EdgeCentred, Step, OnTrack;
    if m == 0 {
      OnTrackAtFirst(samples, cycles, ratio, tolerance);
    } else {
      RecoveryIsExact(samples, cycles, ratio, tolerance, m - 1);
      if OnTrack(samples, cycles, ratio, tolerance, m - 1) {
        StepOnTrack(samples, cycles, ratio, tolerance, m - 1);
        if m > 1 { CentredIsWellPlaced(samples, cycles, ratio, tolerance, m - 1); }
      } else if OnTrack(samples, cycles, ratio, tolerance, m) {
        PrefixOnTrack(samples, cycles, ratio, tolerance, m - 1);
      }
    }
  }

  // ------------------------------------------------------------ jitter

  /** When edge j happens, in samples; it may be recorded up to jitter early or late. */
  function TimeOf(cycles: seq<int>, phi: real, rho: real, j: nat): real
    requires j < |cycles|
  {
    phi + cycles[j] as real * rho
  }

  ghost predicate Jittered(samples: seq<int>, cycles: seq<int>, phi: real, rho: real, jitter: real) {
    && Ascends(samples, cycles)
    && forall j: nat | j < |samples| ::
         samples[j] as real - 1.0 - jitter < TimeOf(cycles, phi, rho, j) <= samples[j] as real + jitter
  }

  /** The ratio moves edge j, seen from edge l, by at most d samples. */
  ghost predicate Drifts(cycles: seq<int>, rho: real, r: real, d: real, l: nat, j: nat)
    requires l < |cycles| && j < |cycles|
  {
    -d <= (rho - r) * (cycles[j] - cycles[l]) as real <= d
  }

  /**
   The near edges pin the phase for edge i: one of them is recorded within delta after it happened, and one
   within delta of a full sample after. The ratio drifts by at most d over them and the new edge.
   */
  ghost predicate Pinned(samples: seq<int>, cycles: seq<int>, phi: real, rho: real, ratio: real, jitter: real, d: real,
                         delta: real, i: nat)
    requires 1 <= i < |samples| == |cycles| && ratio > 1.0
  {
    var (r, unc) := TrueRatio(samples, cycles, ratio, i);
    && r >= 1.0 + 3.0 * jitter + 4.0 * d + delta
    && Drifts(cycles, rho, r, d, i - 1, i)
    && (forall j: nat | NearEdge(cycles, r, unc, i, j) :: Drifts(cycles, rho, r, d, i - 1, j))
    && (exists j: nat :: NearEdge(cycles, r, unc, i, j) && samples[j] as real - TimeOf(cycles, phi, rho, j) <= delta)
    && exists j: nat :: NearEdge(cycles, r, unc, i, j) && samples[j] as real - TimeOf(cycles, phi, rho, j) >= 1.0 - delta
  }

  /** The phase by edge j is the phase at edge l, with the delay of the recording and the drift. */
  lemma PhaseByEdge(samples: seq<int>, cycles: seq<int>, phi: real, rho: real, r: real, d: real, l: nat, j: nat)
    requires |samples| == |cycles| && l < |cycles| && j < |cycles| && Drifts(cycles, rho, r, d, l, j)
    ensures var delay := samples[j] as real - TimeOf(cycles, phi, rho, j);
      var phase := phi + cycles[0] as real * rho + (rho - r) * (cycles[l] - cycles[0]) as real;
      phase + delay - 1.0 - d <= PhaseOf(samples, cycles, r, j) <= phase + delay - 1.0 + d
  {
    var a, b, o := cycles[j] as real, cycles[l] as real, cycles[0] as real;
    assert (rho - r) * (a - b) == (rho - r) * (a - o) - (rho - r) * (b - o);
    assert (rho - r) * (a - o) == a * rho - o * rho - r * (a - o);
  }

  lemma BoundsExist(samples: seq<int>, cycles: seq<int>, r: real, unc: real, i: nat) returns (lo: real, hi: real)
    requires 1 <= i < |samples| == |cycles| && r > 0.0 && unc > 0.0
    ensures EdgeBounds(samples, cycles, r, unc, i, lo, hi)
  {
    hide Usable, Low, High, EdgeBounds, PhaseBounds;
    var recent := Last(Exact(samples, cycles, i), KEEP);
    var pts := Usable(recent, r, unc);
    UsableAreNear(recent, r, unc);
    lo, hi := Low(pts, r), High(pts, r);
    BoundsAre(recent, pts, r, unc, lo, hi);
    BoundsOfEdges(samples, cycles, r, unc, i, lo, hi);
  }

  lemma PinnedIsWellPlaced(samples: seq<int>, cycles: seq<int>, phi: real, rho: real, ratio: real, jitter: real,
                           d: real, delta: real, i: nat)
    requires Jittered(samples, cycles, phi, rho, jitter) && 1 <= i < |samples| && ratio > 1.0
    requires Pinned(samples, cycles, phi, rho, ratio, jitter, d, delta, i)
    ensures WellPlaced(samples, cycles, ratio, i)
  {
    hide TrueRatio, NearEdge, PhaseOf, TimeOf, Drifts;
    var (r, unc) := TrueRatio(samples, cycles, ratio, i);
    var lo, hi := BoundsExist(samples, cycles, r, unc, i);
    var phase := phi + cycles[0] as real * rho + (rho - r) * (cycles[i - 1] - cycles[0]) as real;
    PhaseIsPinned(samples, cycles, phi, rho, r, unc, jitter, d, delta, i, lo, hi, phase);
    PhaseByEdge(samples, cycles, phi, rho, r, d, i - 1, i);
    PlacedByPhase(samples, cycles, r, i);
    var delay := samples[i] as real - TimeOf(cycles, phi, rho, i);
    OffIsSmall(phase, lo, hi, delay, PhaseOf(samples, cycles, r, i), r, jitter, d, delta);
  }

  lemma OffIsSmall(phase: real, lo: real, hi: real, delay: real, place: real, r: real, jitter: real, d: real,
                   delta: real)
    requires phase - delta - d <= lo < phase + jitter + d && phase - jitter - d <= hi <= phase + delta + d
    requires -jitter <= delay < 1.0 + jitter && phase + delay - 1.0 - d <= place <= phase + delay - 1.0 + d
    requires r >= 1.0 + 3.0 * jitter + 4.0 * d + delta
    ensures -r / 2.0 < place + 0.5 - (lo + hi) / 2.0 <= r / 2.0
  {
  }

  lemma PlacedByPhase(samples: seq<int>, cycles: seq<int>, r: real, i: nat)
    requires i < |samples| == |cycles|
    ensures samples[i] as real - 0.5 - r * (cycles[i] - cycles[0]) as real == PhaseOf(samples, cycles, r, i) + 0.5
  {
  }

  /** The bounds that the near edges give lie around the phase. */
  lemma PhaseIsPinned(samples: seq<int>, cycles: seq<int>, phi: real, rho: real, r: real, unc: real, jitter: real,
                      d: real, delta: real, i: nat, lo: real, hi: real, phase: real)
    requires Jittered(samples, cycles, phi, rho, jitter) && 1 <= i < |samples|
    requires EdgeBounds(samples, cycles, r, unc, i, lo, hi)
    requires phase == phi + cycles[0] as real * rho + (rho - r) * (cycles[i - 1] - cycles[0]) as real
    requires forall j: nat | NearEdge(cycles, r, unc, i, j) :: Drifts(cycles, rho, r, d, i - 1, j)
    requires exists j: nat ::
      NearEdge(cycles, r, unc, i, j) && samples[j] as real - TimeOf(cycles, phi, rho, j) <= delta
    requires exists j: nat ::
      NearEdge(cycles, r, unc, i, j) && samples[j] as real - TimeOf(cycles, phi, rho, j) >= 1.0 - delta
    ensures phase - delta - d <= lo < phase + jitter + d
    ensures phase - jitter - d <= hi <= phase + delta + d
  {
    hide NearEdge, PhaseOf, TimeOf, Drifts;
    forall j: nat | NearEdge(cycles, r, unc, i, j)
      ensures j < i
      ensures var delay := samples[j] as real - TimeOf(cycles, phi, rho, j);
        phase + delay - 1.0 - d <= PhaseOf(samples, cycles, r, j) <= phase + delay - 1.0 + d
    {
      NearIsBefore(cycles, r, unc, i, j);
      PhaseByEdge(samples, cycles, phi, rho, r, d, i - 1, j);
    }
    var soon: nat :| NearEdge(cycles, r, unc, i, soon)
      && samples[soon] as real - TimeOf(cycles, phi, rho, soon) <= delta;
    var late: nat :| NearEdge(cycles, r, unc, i, late)
      && samples[late] as real - TimeOf(cycles, phi, rho, late) >= 1.0 - delta;
  }

  /**
   Recovery with jitter. If every edge is recorded at most jitter early or late, and for every edge the near ones
   pin the phase within delta, all edges get their true cycles for ratios of at least
   1 + 3 * jitter + 4 * d + delta, which can be well below 2.
   */
  lemma JitteredRecovery(samples: seq<int>, cycles: seq<int>, phi: real, rho: real, ratio: real, tolerance: real,
                         jitter: real, d: real, delta: real, m: nat)
    requires Jittered(samples, cycles, phi, rho, jitter) && m <= |samples| && ratio > 1.0
    requires forall i | 1 <= i < m :: Pinned(samples, cycles, phi, rho, ratio, jitter, d, delta, i)
    ensures OnTrack(samples, cycles, ratio, tolerance, m)
  {
    hide WellPlaced, Pinned, OnTrack, TimeOf;
    forall i | 1 <= i < m ensures WellPlaced(samples, cycles, ratio, i) {
      PinnedIsWellPlaced(samples, cycles, phi, rho, ratio, jitter, d, delta, i);
    }
    RecoveryIsExact(samples, cycles, ratio, tolerance, m);
  }

  // ------------------------------------------------------------ a premise about the capture

  /** How far back the edges in use can lie, by the uncertainty of the ratio: a tenth of the window after a refit. */
  ghost function UsableSpan(samples: seq<int>, cycles: seq<int>, ratio: real, i: nat): real
    requires i < |samples| == |cycles| && ratio > 1.0
  {
    match LastRefit(samples, cycles, i)
    case None => 500.0 / ratio
    case Some(q) => Span(WindowAt(samples, cycles, q)) as real / 10.0
  }

  /** The most cycles between the last edge and an edge in use, or the next edge i. */
  ghost function Reach(samples: seq<int>, cycles: seq<int>, ratio: real, i: nat): real
    requires 1 <= i < |samples| == |cycles| && ratio > 1.0
  {
    var last, oldest := cycles[i - 1], cycles[if i <= KEEP then 0 else i - KEEP];
    Max(Min((last - oldest) as real, UsableSpan(samples, cycles, ratio, i)), (cycles[i] - last) as real)
  }

  /**
   For edge i the error of the ratio stays within d samples over the edges in use. Before the first
   refit that is the error of the nominal ratio; afterwards it is bounded by the spread of the window.
   */
  ghost predicate Tame(samples: seq<int>, cycles: seq<int>, rho: real, ratio: real, d: real, i: nat)
    requires 1 <= i < |samples| == |cycles| && ratio > 1.0
  {
    var reach := Reach(samples, cycles, ratio, i);
    match LastRefit(samples, cycles, i)
    case None => GoodOver(rho, ratio, d, reach)
    case Some(q) => SpreadOut(WindowAt(samples, cycles, q), rho, d, reach)
  }

  /** A ratio that is wrong by at most d samples over a reach, and large enough for that. */
  ghost predicate GoodOver(rho: real, r: real, d: real, reach: real) {
    r >= 2.0 + 3.0 * d && -d <= (rho - r) * reach <= d
  }

  /** The pairs of a window are far enough apart for a slope that is good over a reach. */
  ghost predicate SpreadOut(w: seq<Point>, rho: real, d: real, reach: real) {
    var spread, variance := Spread(w) as real, Variance(w) as real;
    spread * reach <= d * variance && spread <= (rho - 2.0 - 3.0 * d) * variance
  }

  lemma RatioIsNear(spread: real, variance: real, cov: real, rho: real, r: real, d: real, reach: real)
    requires variance > 0.0 && reach >= 0.0 && r * variance == cov && -spread <= cov - rho * variance <= spread
    requires spread * reach <= d * variance && spread <= (rho - 2.0 - 3.0 * d) * variance
    ensures -d <= (rho - r) * reach <= d && r >= 2.0 + 3.0 * d
  {
    var e := rho - r;
    assert e * variance == rho * variance - cov;
    SignOfProduct(e * reach - d, variance);
    SignOfProduct(-(e * reach) - d, variance);
    ErrorTimesReach(e, variance, reach, spread);
    assert (e * reach - d) * variance == e * reach * variance - d * variance;
    assert (-(e * reach) - d) * variance == -(e * reach * variance) - d * variance;
    SignOfProduct(2.0 + 3.0 * d - r, variance);
    assert (2.0 + 3.0 * d - r) * variance == (e - (rho - 2.0 - 3.0 * d)) * variance;
    assert (e - (rho - 2.0 - 3.0 * d)) * variance == e * variance - (rho - 2.0 - 3.0 * d) * variance;
  }

  lemma ErrorTimesReach(e: real, variance: real, reach: real, spread: real)
    requires reach >= 0.0 && -spread <= e * variance <= spread
    ensures -(spread * reach) <= e * reach * variance <= spread * reach
  {
    var y := e * variance;
    assert (spread - y) * reach >= 0.0 && (spread + y) * reach >= 0.0;
    assert (spread - y) * reach == spread * reach - y * reach && (spread + y) * reach == spread * reach + y * reach;
    assert y * reach == e * reach * variance;
  }

  lemma NonNegative(a: real, b: real)
    requires a >= 0.0 && b >= 0.0
    ensures a * b >= 0.0
  {
  }

  /** A bound on the error over the reach bounds it over any shorter stretch. */
  lemma ShorterDrift(e: real, x: real, reach: real, d: real)
    requires -reach <= x <= reach && -d <= e * reach <= d
    ensures -d <= e * x <= d
  {
    NonNegative(Abs(e), reach - x);
    NonNegative(Abs(e), reach + x);
    assert e * (reach - x) == e * reach - e * x && e * (reach + x) == e * reach + e * x;
  }

  lemma TameIsSteady(samples: seq<int>, cycles: seq<int>, phi: real, rho: real, ratio: real, tolerance: real, d: real,
                     m: nat)
    requires Recorded(samples, cycles, phi, rho) && 1 <= m < |samples| && ratio > 1.0
    requires OnTrack(samples, cycles, ratio, tolerance, m) && Tame(samples, cycles, rho, ratio, d, m)
    ensures Steady(After(samples, ratio, tolerance, m).value, cycles[m] - cycles[0], rho, d)
  {
    hide RecordedAt, After, RatioInUse, LastRefit, UsableSpan, Tame, InUse, Last, GoodOver, DriftWithin, Reach;
    var t := After(samples, ratio, tolerance, m).value;
    RatioIsTame(samples, cycles, phi, rho, ratio, tolerance, d, m);
    var last, n, reach := t.points[m - 1].n, cycles[m] - cycles[0], Reach(samples, cycles, ratio, m);
    forall p | p in InUse(t) ensures DriftWithin(last, p.n, t.est.r, rho, d) {
      WithinReach(samples, cycles, phi, rho, ratio, tolerance, m, p);
      DriftOver(rho, t.est.r, d, reach, last, p.n);
    }
    WithinReach(samples, cycles, phi, rho, ratio, tolerance, m, InUse(t)[0]);
    DriftOver(rho, t.est.r, d, reach, last, n);
  }

  lemma DriftOver(rho: real, r: real, d: real, reach: real, last: int, n: int)
    requires GoodOver(rho, r, d, reach) && -reach <= (n - last) as real <= reach
    ensures DriftWithin(last, n, r, rho, d) && r >= 2.0 + 3.0 * d
  {
    ShorterDrift(rho - r, (n - last) as real, reach, d);
  }

  /** The edges in use, and the new one, are within reach of the last one. */
  lemma WithinReach(samples: seq<int>, cycles: seq<int>, phi: real, rho: real, ratio: real, tolerance: real, m: nat,
                    p: Point)
    requires Recorded(samples, cycles, phi, rho) && 1 <= m < |samples| && ratio > 1.0
    requires OnTrack(samples, cycles, ratio, tolerance, m) && p in InUse(After(samples, ratio, tolerance, m).value)
    ensures var last, reach := cycles[m - 1] - cycles[0], Reach(samples, cycles, ratio, m);
      0.0 <= (last - p.n) as real <= reach && 0.0 <= (cycles[m] - cycles[0] - last) as real <= reach
  {
    hide RecordedAt, After, LastRefit, RatioInUse, UsableSpan, Usable, Reach, Last;
    var t := After(samples, ratio, tolerance, m).value;
    LimitIsSpan(samples, cycles, phi, rho, ratio, tolerance, m);
    Kept(samples, cycles, phi, rho, m, p);
    UsableIsNear(Last(t.points, KEEP), t.est.r, t.est.unc, p);
    CyclesRise(samples, cycles, phi, rho, m - 1, m);
    ReachCovers(samples, cycles, ratio, m, cycles[m - 1] - cycles[0] - p.n);
  }

  lemma ReachCovers(samples: seq<int>, cycles: seq<int>, ratio: real, i: nat, back: int)
    requires 1 <= i < |samples| == |cycles| && ratio > 1.0
    requires back <= cycles[i - 1] - cycles[if i <= KEEP then 0 else i - KEEP]
    requires back as real <= UsableSpan(samples, cycles, ratio, i)
    ensures back as real <= Reach(samples, cycles, ratio, i)
    ensures (cycles[i] - cycles[i - 1]) as real <= Reach(samples, cycles, ratio, i)
  {
    hide UsableSpan;
  }

  lemma Kept(samples: seq<int>, cycles: seq<int>, phi: real, rho: real, m: nat, p: Point)
    requires Recorded(samples, cycles, phi, rho) && 1 <= m < |samples| && p in Last(Exact(samples, cycles, m), KEEP)
    ensures var kept := Last(Exact(samples, cycles, m), KEEP); kept[|kept| - 1].n == cycles[m - 1] - cycles[0]
    ensures 0 <= cycles[m - 1] - cycles[0] - p.n <= cycles[m - 1] - cycles[if m <= KEEP then 0 else m - KEEP]
  {
    hide RecordedAt;
    var oldest := if m <= KEEP then 0 else m - KEEP;
    var i :| oldest <= i < m && Exact(samples, cycles, m)[i] == p;
    if i < m - 1 { CyclesRise(samples, cycles, phi, rho, i, m - 1); }
    if oldest < i { CyclesRise(samples, cycles, phi, rho, oldest, i); }
  }

  lemma {:induction false} NearIsNear(recent: seq<Point>, lastN: int, limit: real, p: Point)
    requires p in Near(recent, lastN, limit)
    ensures (lastN - p.n) as real <= limit
  {
    if recent != [] && p in Near(recent[1..], lastN, limit) { NearIsNear(recent[1..], lastN, limit, p); }
  }

  lemma UsableIsNear(recent: seq<Point>, r: real, unc: real, p: Point)
    requires recent != [] && r > 0.0 && unc > 0.0 && p in Usable(recent, r, unc)
    ensures (recent[|recent| - 1].n - p.n) as real <= 0.1 / (r * unc)
  {
    var last := recent[|recent| - 1];
    assert r * unc > 0.0 && 0.1 / (r * unc) > 0.0;
    if p in Near(recent, last.n, 0.1 / (r * unc)) { NearIsNear(recent, last.n, 0.1 / (r * unc), p); }
  }

  lemma LimitIsSpan(samples: seq<int>, cycles: seq<int>, phi: real, rho: real, ratio: real, tolerance: real, m: nat)
    requires Recorded(samples, cycles, phi, rho) && 1 <= m < |samples| && ratio > 1.0
    requires OnTrack(samples, cycles, ratio, tolerance, m)
    ensures var est := After(samples, ratio, tolerance, m).value.est;
      est.r > 0.0 && 0.1 / (est.r * est.unc) <= UsableSpan(samples, cycles, ratio, m)
  {
    hide RecordedAt, After, LastRefit, WindowAt, FittedTo, Span;
    var est := After(samples, ratio, tolerance, m).value.est;
    RecordedAscends(samples, cycles, phi, rho);
    RatioIsPositive(samples, cycles, ratio, tolerance, m);
    ExactRatio(samples, cycles, ratio, tolerance, m);
    match LastRefit(samples, cycles, m)
    case None => NominalLimit(ratio);
    case Some(q) => RefittedLimit(WindowAt(samples, cycles, q), est);
  }

  lemma NominalLimit(ratio: real)
    requires ratio > 1.0
    ensures 0.1 / (ratio * 0.0002) == 500.0 / ratio
  {
    var x := 0.1 / (ratio * 0.0002);
    assert x * (ratio * 0.0002) == 0.1;
    assert x * ratio == 500.0;
  }

  lemma RefittedLimit(w: seq<Point>, est: Ratio)
    requires w != [] && FittedTo(w, est) && est.r > 0.0
    ensures 0.1 / (est.r * est.unc) <= Span(w) as real / 10.0
  {
    hide Span, Variance, Covariance, Quotient;
    TenthOfSpan(est.r, est.unc, Span(w) as real);
  }

  lemma TenthOfSpan(r: real, unc: real, span: real)
    requires r > 0.0 && unc > 0.0 && span > 0.0 && unc >= 1.0 / (r * span)
    ensures 0.1 / (r * unc) <= span / 10.0
  {
    var a, b := r * span, r * unc;
    var x, y := 0.1 / b, span / 10.0;
    assert x * b == 0.1 && 1.0 / a * a == 1.0;
    NonNegative(unc - 1.0 / a, a);
    assert unc * a == b * span;
    assert y * b >= 0.1;
    SignOfProduct(x - y, b);
    assert (x - y) * b == x * b - y * b;
  }

  lemma RatioIsTame(samples: seq<int>, cycles: seq<int>, phi: real, rho: real, ratio: real, tolerance: real, d: real,
                    m: nat)
    requires Recorded(samples, cycles, phi, rho) && 1 <= m < |samples| && ratio > 1.0
    requires OnTrack(samples, cycles, ratio, tolerance, m) && Tame(samples, cycles, rho, ratio, d, m)
    ensures GoodOver(rho, After(samples, ratio, tolerance, m).value.est.r, d, Reach(samples, cycles, ratio, m))
  {
    hide GoodOver, RecordedAt, AllRecorded, After, LastRefit, SpreadOut, Covariance, Variance, Quotient, WindowAt;
    hide Reach, Max;
    RecordedAscends(samples, cycles, phi, rho);
    ExactRatio(samples, cycles, ratio, tolerance, m);
    if LastRefit(samples, cycles, m).Some? {
      var q := LastRefit(samples, cycles, m).value;
      ReachIsPositive(samples, cycles, phi, rho, ratio, m);
      WindowIsRecorded(samples, cycles, phi, rho, q);
      SlopeIsTame(WindowAt(samples, cycles, q), phi + cycles[0] as real * rho, rho, d, Reach(samples, cycles, ratio, m));
    }
  }

  lemma SlopeIsTame(w: seq<Point>, phi: real, rho: real, d: real, reach: real)
    requires AllRecorded(w, phi, rho) && Variance(w) > 0 && reach >= 0.0 && SpreadOut(w, rho, d, reach)
    ensures GoodOver(rho, Quotient(Covariance(w), Variance(w)), d, reach)
  {
    hide AllRecorded, Covariance, Variance, Spread;
    var r, cov, variance := Quotient(Covariance(w), Variance(w)), Covariance(w) as real, Variance(w) as real;
    SlopeIsNear(w, phi, rho);
    assert r * variance == cov;
    RatioIsNear(Spread(w) as real, variance, cov, rho, r, d, reach);
  }

  lemma ReachIsPositive(samples: seq<int>, cycles: seq<int>, phi: real, rho: real, ratio: real, m: nat)
    requires Recorded(samples, cycles, phi, rho) && 1 <= m < |samples| && ratio > 1.0
    ensures Reach(samples, cycles, ratio, m) > 0.0
  {
    CyclesRise(samples, cycles, phi, rho, m - 1, m);
  }

  lemma WindowIsRecorded(samples: seq<int>, cycles: seq<int>, phi: real, rho: real, i: nat)
    requires Recorded(samples, cycles, phi, rho) && i < |samples|
    ensures AllRecorded(WindowAt(samples, cycles, i), phi + cycles[0] as real * rho, rho)
  {
    hide RecordedAt;
    var points := Exact(samples, cycles, i + 1);
    forall p | p in WindowAt(samples, cycles, i) ensures RecordedAt(p, phi + cycles[0] as real * rho, rho) {
      assert p in points;
      var j :| 0 <= j <= i && points[j] == p;
      ExactIsRecorded(samples, cycles, phi, rho, j);
    }
  }

  /**
   Recovery from the capture alone. If the nominal ratio is good enough up to the first refit, and
   after every refit the edges are spread over cycles in such a way that the slope cannot drift by
   more than d <= 1/2 sample, every edge gets its true cycle.
   */
  lemma {:induction false} TameCaptureIsExact(samples: seq<int>, cycles: seq<int>, phi: real, rho: real, ratio: real,
                                              tolerance: real, d: real, m: nat)
    requires Recorded(samples, cycles, phi, rho) && m <= |samples| && ratio > 1.0 && 0.0 <= d <= 0.5
    requires forall i | 1 <= i < |samples| :: Tame(samples, cycles, rho, ratio, d, i)
    ensures ExactAfter(After(samples, ratio, tolerance, m), samples, cycles, m)
    ensures tolerance >= 2.0 * d ==> After(samples, ratio, tolerance, m).value.unmatched == 0
  {
    hide Step, RecordedAt, Steady, Exact, Tame;
    if m == 0 {
      NoEdges(samples, cycles, ratio, tolerance);
    } else {
      TameCaptureIsExact(samples, cycles, phi, rho, ratio, tolerance, d, m - 1);
      var t := After(samples, ratio, tolerance, m - 1).value;
      if m > 1 { TameIsSteady(samples, cycles, phi, rho, ratio, tolerance, d, m - 1); }
      StepIsExact(samples, cycles, phi, rho, d, tolerance, t, m - 1);
    }
  }

  // ------------------------------------------------------------ evenly spaced captures

  ghost predicate Even(w: seq<Point>, c: int) {
    forall i | 1 <= i < |w| :: w[i].n - w[i - 1].n == c
  }

  lemma {:induction false} EvenSpan(w: seq<Point>, c: int)
    requires Even(w, c) && w != []
    ensures Span(w) == (|w| - 1) * c
  {
    if |w| > 1 {
      var front := w[..|w| - 1];
      EvenSpan(front, c);
      assert front[|front| - 1] == w[|w| - 2];
      assert (|w| - 1) * c == (|w| - 2) * c + c;
    }
  }

  /** Twice the sum of k distances a, a + c, a + 2c, ... */
  function Distances(k: int, c: int, a: int): int { k * (2 * a + (k - 1) * c) }

  /** Six times the sum of their squares. */
  function Squares(k: int, c: int, a: int): int {
    k * (6 * (a * a) + 6 * (a * c) * (k - 1) + c * c * ((k - 1) * (2 * k - 1)))
  }

  lemma DistancesStep(k: int, c: int, a: int)
    ensures Distances(k - 1, c, a + c) + 2 * a == Distances(k, c, a)
  {
  }

  lemma SquaresStep(k: int, c: int, a: int)
    ensures Squares(k - 1, c, a + c) + 6 * (a * a) == Squares(k, c, a)
  {
  }

  lemma {:induction false} EvenCross(w: seq<Point>, p: Point, c: nat, a: nat)
    requires Even(w, c) && (w != [] ==> w[0].n - p.n == a)
    ensures 2 * CrossSpread(w, p) == Distances(|w|, c, a)
    ensures 6 * Cross(Timeless(w), Point(p.n, p.n)) == Squares(|w|, c, a)
  {
    hide Cross, Timeless, Distances, Squares;
    if w == [] {
      NoCross(Point(p.n, p.n));
      NoDistances(c, a);
    } else {
      EvenCross(w[1..], p, c, a + c);
      TimelessStep(w);
      CrossStep(Timeless(w), Point(p.n, p.n));
      SquareOfBack(p.n - w[0].n, a);
      DistancesStep(|w|, c, a);
      SquaresStep(|w|, c, a);
    }
  }

  lemma NoDistances(c: int, a: int)
    ensures Distances(0, c, a) == 0 && Squares(0, c, a) == 0
  {
  }

  lemma SquareOfBack(x: int, a: int)
    requires x == -a
    ensures x * x == a * a
  {
  }

  /** Spread and variance of k evenly spaced points. */
  lemma {:induction false} EvenSpread(w: seq<Point>, c: nat)
    requires Even(w, c)
    ensures var k := |w|;
      && 6 * Spread(w) == c * (k * (k * k - 1))
      && 12 * Variance(w) == c * c * (k * k * (k * k - 1))
  {
    hide Cross, CrossSpread, Timeless, Distances, Squares;
    if w != [] {
      var k := |w|;
      EvenSpread(w[1..], c);
      EvenCross(w[1..], w[0], c, c);
      TimelessStep(w);
      SpreadStep(k, c);
      VarianceStep(k, c);
    } else {
      assert Timeless(w) == [];
    }
  }

  lemma SpreadStep(k: int, c: int)
    ensures c * ((k - 1) * ((k - 1) * (k - 1) - 1)) + 3 * Distances(k - 1, c, c) == c * (k * (k * k - 1))
  {
  }

  lemma VarianceStep(k: int, c: int)
    ensures c * c * ((k - 1) * (k - 1) * ((k - 1) * (k - 1) - 1)) + 2 * Squares(k - 1, c, c)
         == c * c * (k * k * (k * k - 1))
  {
  }

  /** Over a tenth of its span an even window gives a slope that is good to a fifth of a sample. */
  lemma EvenIsSpreadOut(w: seq<Point>, c: nat, rho: real, d: real, reach: real)
    requires w != [] && Even(w, c) && Span(w) >= REFIT_SPAN && reach <= Span(w) as real / 10.0
    requires d >= 0.2 && rho >= 2.002 + 3.0 * d
    ensures SpreadOut(w, rho, d, reach)
  {
    hide Spread, Variance, Even;
    EvenSpan(w, c);
    EvenSpread(w, c);
    var width := WidthOf(|w|, c, Spread(w), Variance(w));
    RealProduct(width, Spread(w));
    WithinDrift(Spread(w) as real, Variance(w) as real, width as real, reach, rho, d);
  }

  /** The variance of an even window is half its spread times its width, one spacing more than its span. */
  lemma WidthOf(k: nat, c: nat, spread: int, variance: int) returns (width: int)
    requires k >= 1 && 6 * spread == c * (k * (k * k - 1)) && 12 * variance == c * c * (k * k * (k * k - 1))
    ensures 2 * variance == width * spread && spread >= 0 && width == (k - 1) * c + c
  {
    width := c * k;
    assert c * c * (k * k * (k * k - 1)) == c * k * (c * (k * (k * k - 1)));
    assert 12 * variance == c * k * (6 * spread);
  }

  lemma WithinDrift(spread: real, variance: real, width: real, reach: real, rho: real, d: real)
    requires spread >= 0.0 && 2.0 * variance == width * spread && width >= 1000.0
    requires reach <= width / 10.0 && d >= 0.2 && rho >= 2.002 + 3.0 * d
    ensures spread * reach <= d * variance && spread <= (rho - 2.0 - 3.0 * d) * variance
  {
    NonNegative(spread, width / 10.0 - reach);
    NonNegative(spread, width - 1000.0);
    NonNegative(d - 0.2, variance);
    NonNegative(rho - 2.002 - 3.0 * d, variance);
    assert (rho - 2.0 - 3.0 * d) * variance == (rho - 2.002 - 3.0 * d) * variance + 0.002 * variance;
  }

  /**
   Edges c cycles apart are recovered exactly, refits and all, if the nominal ratio is right up to d samples,
   between a fifth and a half, over c cycles and over the stretch that its assumed uncertainty allows.
   */
  lemma EvenCaptureIsExact(samples: seq<int>, cycles: seq<int>, phi: real, rho: real, ratio: real, tolerance: real,
                           c: nat, d: real, m: nat)
    requires Recorded(samples, cycles, phi, rho) && m <= |samples| && c >= 1
    requires 0.2 <= d <= 0.5 && ratio >= 2.0 + 3.0 * d && rho >= 2.002 + 3.0 * d
    requires forall i | 1 <= i < |cycles| :: cycles[i] - cycles[i - 1] == c
    requires -d <= (rho - ratio) * Max(500.0 / ratio, c as real) <= d
    ensures ExactAfter(After(samples, ratio, tolerance, m), samples, cycles, m)
    ensures tolerance >= 2.0 * d ==> After(samples, ratio, tolerance, m).value.unmatched == 0
  {
    hide Tame, RecordedAt, ExactAfter, Max;
    forall i | 1 <= i < |samples| ensures Tame(samples, cycles, rho, ratio, d, i) {
      EvenIsTame(samples, cycles, rho, ratio, c, d, i);
    }
    TameCaptureIsExact(samples, cycles, phi, rho, ratio, tolerance, d, m);
  }

  lemma EvenIsTame(samples: seq<int>, cycles: seq<int>, rho: real, ratio: real, c: nat, d: real, i: nat)
    requires 1 <= i < |samples| == |cycles| && c >= 1
    requires 0.2 <= d && ratio >= 2.0 + 3.0 * d && rho >= 2.002 + 3.0 * d
    requires forall i | 1 <= i < |cycles| :: cycles[i] - cycles[i - 1] == c
    requires -d <= (rho - ratio) * Max(500.0 / ratio, c as real) <= d
    ensures Tame(samples, cycles, rho, ratio, d, i)
  {
    hide LastRefit, SpreadOut, Even, WindowAt, Span;
    var reach := Reach(samples, cycles, ratio, i);
    match LastRefit(samples, cycles, i)
    case None =>
      assert 500.0 / ratio >= 0.0;
      ShorterDrift(rho - ratio, reach, Max(500.0 / ratio, c as real), d);
    case Some(q) =>
      EvenWindow(samples, cycles, c, q);
      EvenIsSpreadOut(WindowAt(samples, cycles, q), c, rho, d, reach);
  }

  lemma EvenWindow(samples: seq<int>, cycles: seq<int>, c: nat, q: nat)
    requires q < |samples| == |cycles| && q % REFIT_EVERY == REFIT_EVERY - 1
    requires forall i | 1 <= i < |cycles| :: cycles[i] - cycles[i - 1] == c
    ensures var w := WindowAt(samples, cycles, q);
      Even(w, c) && |w| >= REFIT_EVERY && 10 * c <= Span(w)
  {
    var w := WindowAt(samples, cycles, q);
    assert Even(w, c);
    EvenSpan(w, c);
    MulAtLeast(|w| - 1, c);
  }

  lemma MulAtLeast(k: nat, c: nat)
    requires k >= 10
    ensures k * c >= 10 * c
  {
  }
}
