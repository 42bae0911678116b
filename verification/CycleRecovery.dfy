/**
 Exact cycle numbers of sampled edges on a free-running clock
 (demo/pe_capture.py, recover_cycles).

 An edge of clock cycle n happens at the true time T = phi + n * rho, counted in samples, and
 the analyser records it at the first sample at or after T. Each edge whose cycle is known
 therefore puts the phase phi in an interval one sample wide. The tracker intersects the
 intervals of recent edges and gives a new edge the cycle whose interval fits best.
 Floating point is modelled by exact reals.
 */
module CycleRecovery {
  import opened Results
  import opened Sorting

  const KEEP: nat := 32
  const WINDOW: nat := 8192
  const REFIT_EVERY: nat := 64
  const REFIT_SPAN := 1000

  datatype Point = Point(n: int, s: int)

  datatype RecoveryError = RatioTooLow | DivisionByZero

  /** The tracker's answer: a cycle per edge, its counters and the last ratio estimate. */
  datatype Recovery = Recovery(cycles: seq<int>, ratio: real, ambiguous: nat, unmatched: nat, refits: nat)

  // ------------------------------------------------------------ the feasible phase

  function Max(a: real, b: real): real { if a < b then b else a }

  function Min(a: real, b: real): real { if b < a then b else a }

  function Abs(a: real): real { if a < 0.0 then -a else a }

  function Last<T>(xs: seq<T>, k: nat): (r: seq<T>)
    ensures |r| == if |xs| <= k then |xs| else k
  {
    if |xs| <= k then xs else xs[|xs| - k..]
  }

  /** Lower end of the phase interval of a recorded edge. */
  function Floor(p: Point, r: real): real { p.s as real - 1.0 - r * p.n as real }

  function Low(pts: seq<Point>, r: real): (lo: real)
    requires pts != []
    ensures forall p | p in pts :: Floor(p, r) <= lo
    ensures exists p | p in pts :: Floor(p, r) == lo
  {
    if |pts| == 1 then Floor(pts[0], r)
    else
      var rest := Low(pts[1..], r);
      assert forall p | p in pts :: p == pts[0] || p in pts[1..];
      Max(Floor(pts[0], r), rest)
  }

  function High(pts: seq<Point>, r: real): (hi: real)
    requires pts != []
    ensures forall p | p in pts :: hi <= Floor(p, r) + 1.0
    ensures exists p | p in pts :: hi == Floor(p, r) + 1.0
  {
    if |pts| == 1 then Floor(pts[0], r) + 1.0
    else
      var rest := High(pts[1..], r);
      assert forall p | p in pts :: p == pts[0] || p in pts[1..];
      Min(Floor(pts[0], r) + 1.0, rest)
  }

  /** The intersection of the intervals; one sample around the middle when jitter empties it. */
  function Feasible(pts: seq<Point>, r: real): (real, real)
    requires pts != []
  {
    var lo, hi := Low(pts, r), High(pts, r);
    if lo > hi then ((lo + hi) / 2.0 - 0.5, (lo + hi) / 2.0 + 0.5) else (lo, hi)
  }

  /** The edges close enough to the last one to constrain the phase. */
  function Near(recent: seq<Point>, lastN: int, limit: real): (pts: seq<Point>)
    ensures forall p :: p in pts <==> p in recent && (lastN - p.n) as real <= limit
  {
    if recent == [] then []
    else
      var rest := Near(recent[1..], lastN, limit);
      assert forall p :: p in recent <==> p == recent[0] || p in recent[1..];
      if (lastN - recent[0].n) as real <= limit then [recent[0]] + rest else rest
  }

  function Usable(recent: seq<Point>, r: real, unc: real): (pts: seq<Point>)
    requires recent != [] && r != 0.0 && unc > 0.0
    ensures pts != [] && forall p | p in pts :: p in recent
    ensures r > 0.0 ==> recent[|recent| - 1] in pts
  {
    var last := recent[|recent| - 1];
    var pts := Near(recent, last.n, 0.1 / (r * unc));
    if pts == [] then [last] else pts
  }

  // ------------------------------------------------------------ candidates

  datatype Candidate = Candidate(gap: real, overlap: real, dist: real, n: int)

  /** The order of the tuples (gap, -overlap, dist, n). */
  predicate Precedes(a: Candidate, b: Candidate) {
    if a.gap != b.gap then a.gap < b.gap
    else if a.overlap != b.overlap then a.overlap > b.overlap
    else if a.dist != b.dist then a.dist < b.dist
    else a.n < b.n
  }

  /** How far the unit interval above a is from the feasible range. */
  function Gap(range: (real, real), a: real): real {
    Max(0.0, Max(range.0, a) - Min(range.1, a + 1.0))
  }

  function Fit(range: (real, real), s: int, r: real, x: real, n: int): Candidate {
    var a := Floor(Point(n, s), r);
    Candidate(Gap(range, a),
              Max(0.0, Min(range.1, a + 1.0) - Max(range.0, a)),
              Abs(n as real - x), n)
  }

  function Centre(range: (real, real), s: int, r: real): real
    requires r != 0.0
  {
    (s as real - 0.5 - (range.0 + range.1) / 2.0) / r
  }

  /** The three candidate cycles of a new edge, best first. */
  function Ranked(pts: seq<Point>, s: int, r: real): (best: seq<Candidate>)
    requires pts != [] && r != 0.0
    ensures |best| == 3
  {
    var range := Feasible(pts, r);
    var x := Centre(range, s, r);
    var n0 := (x + 0.5).Floor;
    Sorted(Precedes, [Fit(range, s, r, x, n0 - 1), Fit(range, s, r, x, n0), Fit(range, s, r, x, n0 + 1)])
  }

  lemma BestOfThree(a: Candidate, b: Candidate, c: Candidate)
    ensures var best := Sorted(Precedes, [a, b, c]);
      && (a.gap < b.gap && a.gap < c.gap ==> best[0] == a && best[1] in [b, c])
      && (b.gap < a.gap && b.gap < c.gap ==> best[0] == b && best[1] in [a, c])
      && (c.gap < a.gap && c.gap < b.gap ==> best[0] == c && best[1] in [a, b])
  {
    SortedOfThree(Precedes, a, b, c);
  }

  // ------------------------------------------------------------ one assignment

  /** An edge of cycle n is recorded at the first sample at or after phi + n * rho. */
  ghost predicate RecordedAt(p: Point, phi: real, rho: real) {
    p.s as real - 1.0 < phi + p.n as real * rho <= p.s as real
  }

  /** Using r instead of rho moves cycle n, seen from cycle m, by at most d samples. */
  ghost predicate DriftWithin(m: int, n: int, r: real, rho: real, d: real) {
    -d <= (rho - r) * (n - m) as real <= d
  }

  /** The phase at the last edge, in the coordinates of ratio r. */
  ghost function PhaseAt(last: Point, phi: real, rho: real, r: real): real {
    phi + (rho - r) * last.n as real
  }

  lemma IntervalHoldsPhase(p: Point, last: Point, phi: real, rho: real, r: real, d: real)
    requires RecordedAt(p, phi, rho) && DriftWithin(last.n, p.n, r, rho, d)
    ensures var c := PhaseAt(last, phi, rho, r); Floor(p, r) < c + d && c - d <= Floor(p, r) + 1.0
  {
    var delta, n, m := rho - r, p.n as real, last.n as real;
    assert delta * (n - m) == delta * n - delta * m && delta * n == rho * n - r * n;
    assert n * rho == rho * n;
    assert PhaseAt(last, phi, rho, r) + delta * (n - m) == phi + n * rho - r * n;
  }

  lemma FeasibleBounds(pts: seq<Point>, last: Point, phi: real, rho: real, r: real, d: real)
    requires last in pts && 0.0 <= d <= 0.5
    requires forall p | p in pts :: RecordedAt(p, phi, rho) && DriftWithin(last.n, p.n, r, rho, d)
    ensures var c, f := PhaseAt(last, phi, rho, r), Feasible(pts, r);
      && c - 1.0 <= f.0 < c + d && c - d <= f.1 < c + 1.0
      && c - 0.5 - d / 2.0 <= (f.0 + f.1) / 2.0 <= c + 0.5 + d / 2.0
  {
    var c, lo, hi := PhaseAt(last, phi, rho, r), Low(pts, r), High(pts, r);
    forall p | p in pts ensures Floor(p, r) < c + d && c - d <= Floor(p, r) + 1.0 {
      IntervalHoldsPhase(p, last, phi, rho, r, d);
    }
    assert Floor(last, r) < c <= Floor(last, r) + 1.0 by {
      assert (rho - r) * (last.n - last.n) as real == 0.0;
      IntervalHoldsPhase(last, last, phi, rho, r, 0.0);
    }
    var p :| p in pts && Floor(p, r) == lo;
    var q :| q in pts && hi == Floor(q, r) + 1.0;
  }

  lemma SignOfProduct(a: real, r: real)
    requires r > 0.0
    ensures a * r > 0.0 <==> a > 0.0
  {
  }

  lemma DivideWithin(y: real, r: real, k: real)
    requires r > 0.0 && -k * r <= y <= k * r
    ensures -k <= y / r <= k
  {
    var z := y / r;
    SignOfProduct(z - k, r);
    SignOfProduct(-k - z, r);
    assert (z - k) * r == y - k * r && (-k - z) * r == -k * r - y;
  }

  lemma CentreIsNear(range: (real, real), s: int, n: int, r: real, c: real, d: real)
    requires 0.0 <= d <= 0.5 && r >= 2.0 + 3.0 * d
    requires Floor(Point(n, s), r) < c + d && c - d <= Floor(Point(n, s), r) + 1.0
    requires c - 0.5 - d / 2.0 <= (range.0 + range.1) / 2.0 <= c + 0.5 + d / 2.0
    ensures n as real - 0.5 <= Centre(range, s, r) <= n as real + 0.5
  {
    var mid, f := (range.0 + range.1) / 2.0, Floor(Point(n, s), r);
    var top := s as real - 0.5 - mid;
    var y := top - r * n as real;
    assert y == f + 0.5 - mid && 0.5 * r >= 1.0 + 1.5 * d;
    DivideWithin(y, r, 0.5);
    assert top / r == y / r + n as real by {
      assert r * (y / r + n as real) == y + r * n as real == top;
    }
  }

  /** Moving the true interval by at least one cycle moves it further away than drift can. */
  lemma GapOfShifted(range: (real, real), a: real, shift: real, c: real, d: real)
    requires 0.0 <= d && (shift >= 2.0 + 3.0 * d || -shift >= 2.0 + 3.0 * d)
    requires a < c + d && c - d <= a + 1.0
    requires c - 1.0 <= range.0 < c + d && c - d <= range.1 < c + 1.0
    ensures Gap(range, a) <= 2.0 * d < Gap(range, a - shift)
  {
  }

  lemma FloorOfNext(n: int, s: int, r: real, m: int)
    ensures Floor(Point(n + m, s), r) == Floor(Point(n, s), r) - r * m as real
  {
    assert r * (n + m) as real == r * n as real + r * m as real;
  }

  /** Four neighbouring candidates of which only the second is within bound. */
  lemma BestOfNeighbours(w: seq<Candidate>, bound: real, first: nat)
    requires |w| == 4 && first < 2
    requires w[1].gap <= bound && w[0].gap > bound && w[2].gap > bound && w[3].gap > bound
    ensures var best := Sorted(Precedes, [w[first], w[first + 1], w[first + 2]]);
      best[0] == w[1] && best[1].gap > bound
  {
    BestOfThree(w[first], w[first + 1], w[first + 2]);
  }

  lemma GapsOfNeighbours(range: (real, real), s: int, n: int, r: real, x: real, c: real, d: real)
    requires 0.0 <= d && r >= 2.0 + 3.0 * d
    requires var a := Floor(Point(n, s), r); a < c + d && c - d <= a + 1.0
    requires c - 1.0 <= range.0 < c + d && c - d <= range.1 < c + 1.0
    ensures Fit(range, s, r, x, n).gap <= 2.0 * d < Fit(range, s, r, x, n - 1).gap
    ensures 2.0 * d < Fit(range, s, r, x, n + 1).gap && 2.0 * d < Fit(range, s, r, x, n + 2).gap
  {
    hide Floor, Gap, Fit;
    var a := Floor(Point(n, s), r);
    GapOfFit(range, s, r, x, n, 0);
    GapOfFit(range, s, r, x, n, -1);
    GapOfFit(range, s, r, x, n, 1);
    GapOfFit(range, s, r, x, n, 2);
    GapOfShifted(range, a, -r, c, d);
    GapOfShifted(range, a, r, c, d);
    GapOfShifted(range, a, 2.0 * r, c, d);
  }

  lemma GapOfFit(range: (real, real), s: int, r: real, x: real, n: int, m: int)
    ensures Fit(range, s, r, x, n + m).gap == Gap(range, Floor(Point(n, s), r) - r * m as real)
  {
    FloorOfNext(n, s, r, m);
  }

  /**
   With a ratio off by at most d <= 1/2 sample over the edges in use and at least 2 + 3d, the
   true cycle is among the three candidates, it sorts first, and no other candidate's interval
   comes as close.
   */
  lemma TrueCycleWins(pts: seq<Point>, last: Point, s: int, n: int, phi: real, rho: real, r: real, d: real)
    requires last in pts && 0.0 <= d <= 0.5 && r >= 2.0 + 3.0 * d
    requires forall p | p in pts :: RecordedAt(p, phi, rho) && DriftWithin(last.n, p.n, r, rho, d)
    requires RecordedAt(Point(n, s), phi, rho) && DriftWithin(last.n, n, r, rho, d)
    ensures var best := Ranked(pts, s, r);
      best[0].n == n && best[0].gap <= 2.0 * d && best[1].gap > 2.0 * d
  {
    hide Sorted, Centre, Feasible, Floor, Gap, RecordedAt, PhaseAt;
    var c, range := PhaseAt(last, phi, rho, r), Feasible(pts, r);
    FeasibleBounds(pts, last, phi, rho, r, d);
    IntervalHoldsPhase(Point(n, s), last, phi, rho, r, d);
    CentreIsNear(range, s, n, r, c, d);
    var x := Centre(range, s, r);
    GapsOfNeighbours(range, s, n, r, x, c, d);
    var w := [Fit(range, s, r, x, n - 1), Fit(range, s, r, x, n), Fit(range, s, r, x, n + 1), Fit(range, s, r, x, n + 2)];
    var n0 := (x + 0.5).Floor;
    BestOfNeighbours(w, 2.0 * d, 0);
    BestOfNeighbours(w, 2.0 * d, 1);
    assert n0 == n || n0 == n + 1;
    if n0 == n {
      assert Ranked(pts, s, r) == Sorted(Precedes, [w[0], w[1], w[2]]);
    } else {
      assert Ranked(pts, s, r) == Sorted(Precedes, [w[1], w[2], w[3]]);
    }
  }

  // ------------------------------------------------------------ the refit of the ratio

  /** Count and sums over a window of points: n, s, n*n, n*s. */
  datatype Moments = Moments(k: int, n: int, s: int, nn: int, ns: int)

  function Plus(m: Moments, p: Point): Moments {
    Moments(m.k + 1, m.n + p.n, m.s + p.s, m.nn + p.n * p.n, m.ns + p.n * p.s)
  }

  function MomentsOf(w: seq<Point>): Moments {
    if w == [] then Moments(0, 0, 0, 0, 0) else Plus(MomentsOf(w[1..]), w[0])
  }

  lemma {:induction false} MomentsOfAppended(w: seq<Point>, p: Point)
    ensures MomentsOf(w + [p]) == Plus(MomentsOf(w), p)
  {
    if w == [] {
      assert (w + [p])[1..] == [];
    } else {
      assert (w + [p])[1..] == w[1..] + [p];
      MomentsOfAppended(w[1..], p);
    }
  }

  function Numerator(m: Moments): int { m.k * m.ns - m.n * m.s }

  function Denominator(m: Moments): int { m.k * m.nn - m.n * m.n }

  /** Least squares by pairs: the sum of (n - n') * (s - s') over all pairs of p and a point of w. */
  ghost function Cross(w: seq<Point>, p: Point): int {
    if w == [] then 0 else Cross(w[1..], p) + (p.n - w[0].n) * (p.s - w[0].s)
  }

  /** The same sum over all pairs of points: covariance times the square of the count. */
  ghost function Covariance(w: seq<Point>): int {
    if w == [] then 0 else Covariance(w[1..]) + Cross(w[1..], w[0])
  }

  ghost function Timeless(w: seq<Point>): (v: seq<Point>)
    ensures |v| == |w| && forall i | 0 <= i < |w| :: v[i] == Point(w[i].n, w[i].n)
  {
    seq(|w|, i requires 0 <= i < |w| => Point(w[i].n, w[i].n))
  }

  ghost function Variance(w: seq<Point>): int { Covariance(Timeless(w)) }

  lemma CrossGrows(m: Moments, p: Point, q: Point, cross: int)
    requires cross == m.k * (p.n * p.s) - p.n * m.s - p.s * m.n + m.ns
    ensures var more := Plus(m, q);
      cross + (p.n - q.n) * (p.s - q.s) == more.k * (p.n * p.s) - p.n * more.s - p.s * more.n + more.ns
  {
    assert (p.n - q.n) * (p.s - q.s) == p.n * p.s - p.n * q.s - p.s * q.n + q.n * q.s;
    assert (m.k + 1) * (p.n * p.s) == m.k * (p.n * p.s) + p.n * p.s;
    assert p.n * (m.s + q.s) == p.n * m.s + p.n * q.s && p.s * (m.n + q.n) == p.s * m.n + p.s * q.n;
  }

  lemma CrossStep(w: seq<Point>, p: Point)
    requires w != []
    ensures Cross(w, p) == Cross(w[1..], p) + (p.n - w[0].n) * (p.s - w[0].s)
    ensures MomentsOf(w) == Plus(MomentsOf(w[1..]), w[0])
  {
  }

  lemma {:induction false} CrossFromMoments(w: seq<Point>, p: Point)
    ensures var m := MomentsOf(w); Cross(w, p) == m.k * (p.n * p.s) - p.n * m.s - p.s * m.n + m.ns
  {
    if w != [] {
      hide Cross, MomentsOf, Plus;
      CrossFromMoments(w[1..], p);
      CrossStep(w, p);
      CrossGrows(MomentsOf(w[1..]), p, w[0], Cross(w[1..], p));
    }
  }

  lemma NumeratorGrows(m: Moments, p: Point, cross: int)
    requires cross == m.k * (p.n * p.s) - p.n * m.s - p.s * m.n + m.ns
    ensures Numerator(Plus(m, p)) == Numerator(m) + cross
  {
    assert (m.k + 1) * (m.ns + p.n * p.s) == m.k * m.ns + m.k * (p.n * p.s) + m.ns + p.n * p.s;
    assert (m.n + p.n) * (m.s + p.s) == m.n * m.s + m.n * p.s + p.n * m.s + p.n * p.s;
    assert m.n * p.s == p.s * m.n;
  }

  lemma NumeratorOfCons(w: seq<Point>, p: Point)
    ensures Numerator(Plus(MomentsOf(w), p)) == Numerator(MomentsOf(w)) + Cross(w, p)
  {
    hide Numerator, Plus, MomentsOf, Cross;
    CrossFromMoments(w, p);
    NumeratorGrows(MomentsOf(w), p, Cross(w, p));
  }

  lemma NumeratorOfNothing()
    ensures Numerator(Moments(0, 0, 0, 0, 0)) == 0
  {
  }

  lemma {:induction false} NumeratorIsCovariance(w: seq<Point>)
    ensures Numerator(MomentsOf(w)) == Covariance(w)
  {
    hide Numerator, Plus, Cross;
    if w == [] {
      NumeratorOfNothing();
    } else {
      NumeratorIsCovariance(w[1..]);
      NumeratorOfCons(w[1..], w[0]);
    }
  }

  lemma {:induction false} MomentsOfTimeless(w: seq<Point>)
    ensures var m := MomentsOf(w); MomentsOf(Timeless(w)) == Moments(m.k, m.n, m.n, m.nn, m.nn)
  {
    if w != [] {
      MomentsOfTimeless(w[1..]);
      assert Timeless(w)[1..] == Timeless(w[1..]);
    } else {
      assert Timeless(w) == [];
    }
  }

  /** The running sums give the least-squares slope that the definition by pairs gives. */
  lemma SumsGiveSlope(w: seq<Point>)
    ensures Numerator(MomentsOf(w)) == Covariance(w) && Denominator(MomentsOf(w)) == Variance(w)
  {
    hide Numerator, Denominator, Covariance, MomentsOf;
    NumeratorIsCovariance(w);
    NumeratorIsCovariance(Timeless(w));
    MomentsOfTimeless(w);
    DenominatorIsNumerator(MomentsOf(w));
  }

  lemma DenominatorIsNumerator(m: Moments)
    ensures Denominator(m) == Numerator(Moments(m.k, m.n, m.n, m.nn, m.nn))
  {
  }

  /** The ratio in use, its relative uncertainty, and how often it was refitted. */
  datatype Ratio = Ratio(r: real, unc: real, refits: nat)

  function Span(w: seq<Point>): int
    requires w != []
  {
    w[|w| - 1].n - w[0].n
  }

  function Quotient(num: int, den: int): real
    requires den != 0
  {
    num as real / den as real
  }

  function Refitted(est: Ratio, slope: real, span: int): Result<Ratio, RecoveryError>
    requires span > 0
  {
    if slope == 0.0 then Err(DivisionByZero)
    else Ok(Ratio(slope, Max(0.0000001, 1.0 / (slope * span as real)), est.refits + 1))
  }

  /** After every 64th edge: the least-squares slope over the window, if it spans enough cycles. */
  ghost function Refit(i: nat, w: seq<Point>, est: Ratio): (r: Result<Ratio, RecoveryError>)
    requires w != []
    ensures r.Ok? && est.r != 0.0 && est.unc > 0.0 ==> r.value.r != 0.0 && r.value.unc > 0.0
  {
    if i % REFIT_EVERY == REFIT_EVERY - 1 && Span(w) >= REFIT_SPAN && Variance(w) != 0 then
      Refitted(est, Quotient(Covariance(w), Variance(w)), Span(w))
    else Ok(est)
  }

  method RefitFromSums(i: nat, w: seq<Point>, sums: Moments, est: Ratio) returns (r: Result<Ratio, RecoveryError>)
    requires w != [] && sums == MomentsOf(w)
    ensures r == Refit(i, w, est)
  {
    SumsGiveSlope(w);
    if i % REFIT_EVERY == REFIT_EVERY - 1 {
      var den := Denominator(sums);
      if Span(w) >= REFIT_SPAN && den != 0 {
        return Refitted(est, Quotient(Numerator(sums), den), Span(w));
      }
    }
    return Ok(est);
  }

  // ------------------------------------------------------------ the whole run

  datatype Track = Track(points: seq<Point>, est: Ratio, ambiguous: nat, unmatched: nat)

  ghost predicate Live(t: Track) { t.est.r != 0.0 && t.est.unc > 0.0 }

  /** The cycle given to a new edge, and whether it counts as ambiguous or unmatched. */
  datatype Choice = Choice(n: int, ambiguous: bool, unmatched: bool)

  function Choose(recent: seq<Point>, est: Ratio, s: int, tolerance: real): Choice
    requires recent != [] && est.r != 0.0 && est.unc > 0.0
  {
    var best := Ranked(Usable(recent, est.r, est.unc), s, est.r);
    Choice(best[0].n, best[1].gap == 0.0 && best[1].overlap > 0.0, best[0].gap > tolerance)
  }

  function Tick(count: nat, more: bool): nat { if more then count + 1 else count }

  /** One more edge: its choice, then the refit over the last WINDOW edges. */
  ghost function Step(t: Track, s: int, tolerance: real): (r: Result<Track, RecoveryError>)
    requires Live(t)
    ensures r.Ok? ==> Live(r.value) && |r.value.points| == |t.points| + 1
    ensures r.Ok? ==> r.value.points[..|t.points|] == t.points && r.value.points[|t.points|].s == s
  {
    var c := if t.points == [] then Choice(0, false, false)
             else Choose(Last(t.points, KEEP), t.est, s, tolerance);
    var points := t.points + [Point(c.n, s)];
    var w := Last(points, WINDOW);
    match Refit(|t.points|, w, t.est)
    case Err(e) => Err(e)
    case Ok(est) => Ok(Track(points, est, Tick(t.ambiguous, c.ambiguous), Tick(t.unmatched, c.unmatched)))
  }

  /** The tracker's state after the first m edges, with every window recomputed from scratch. */
  ghost function After(samples: seq<int>, ratio: real, tolerance: real, m: nat): (r: Result<Track, RecoveryError>)
    requires m <= |samples| && ratio > 1.0
    ensures r.Ok? ==> Live(r.value) && |r.value.points| == m
    ensures r.Ok? ==> forall i | 0 <= i < m :: r.value.points[i].s == samples[i]
  {
    if m == 0 then Ok(Track([], Ratio(ratio, 0.0002, 0), 0, 0))
    else
      match After(samples, ratio, tolerance, m - 1)
      case Err(e) => Err(e)
      case Ok(t) => Step(t, samples[m - 1], tolerance)
  }

  ghost function Cycles(t: Track): seq<int> {
    seq(|t.points|, i requires 0 <= i < |t.points| => t.points[i].n)
  }

  lemma LastOfAppended<T>(xs: seq<T>, x: T, k: nat)
    requires k > 0
    ensures Last(xs + [x], k) == Last(Last(xs, k) + [x], k)
  {
  }

  lemma ErrorIsFinal(samples: seq<int>, ratio: real, tolerance: real, m: nat, m': nat)
    requires m <= m' <= |samples| && ratio > 1.0 && After(samples, ratio, tolerance, m).Err?
    ensures After(samples, ratio, tolerance, m') == After(samples, ratio, tolerance, m)
    decreases m'
  {
    if m < m' { ErrorIsFinal(samples, ratio, tolerance, m, m' - 1); }
  }

  /** Append to the window and its running sums, and drop the oldest point when it is full. */
  method Slide(window: seq<Point>, sums: Moments, p: Point) returns (window': seq<Point>, sums': Moments)
    requires |window| <= WINDOW && sums == MomentsOf(window)
    ensures window' == Last(window + [p], WINDOW) && sums' == MomentsOf(window')
  {
    MomentsOfAppended(window, p);
    window' := window + [p];
    sums' := Plus(sums, p);
    if |window'| > WINDOW {
      var gone := window'[0];
      window' := window'[1..];
      sums' := Moments(sums'.k - 1, sums'.n - gone.n, sums'.s - gone.s, sums'.nn - gone.n * gone.n,
                       sums'.ns - gone.n * gone.s);
    }
  }

  lemma AfterOneMore(samples: seq<int>, ratio: real, tolerance: real, m: nat, t: Track, c: Choice)
    requires m < |samples| && ratio > 1.0 && After(samples, ratio, tolerance, m) == Ok(t) && |t.points| == m
    requires Live(t)
    requires c == if m == 0 then Choice(0, false, false)
                  else Choose(Last(t.points, KEEP), t.est, samples[m], tolerance)
    ensures var points := t.points + [Point(c.n, samples[m])];
      After(samples, ratio, tolerance, m + 1) ==
        match Refit(m, Last(points, WINDOW), t.est)
        case Err(e) => Err(e)
        case Ok(est) => Ok(Track(points, est, Tick(t.ambiguous, c.ambiguous), Tick(t.unmatched, c.unmatched)))
  {
    hide Choose, Refit, Last;
  }

  lemma NothingTracked(samples: seq<int>, ratio: real, tolerance: real)
    requires ratio > 1.0
    ensures var t := Track([], Ratio(ratio, 0.0002, 0), 0, 0);
      After(samples, ratio, tolerance, 0) == Ok(t) && Cycles(t) == []
    ensures MomentsOf([]) == Moments(0, 0, 0, 0, 0)
    ensures Last<Point>([], KEEP) == [] && Last<Point>([], WINDOW) == []
  {
  }

  lemma CyclesOfAppended(t: Track, p: Point, est: Ratio, ambiguous: nat, unmatched: nat)
    ensures Cycles(Track(t.points + [p], est, ambiguous, unmatched)) == Cycles(t) + [p.n]
  {
  }

  /** The tracker, with its running deques and running sums. */
  method RecoverCycles(samples: seq<int>, ratio: real, tolerance: real) returns (res: Result<Recovery, RecoveryError>)
    ensures ratio <= 1.0 ==> res == Err(RatioTooLow)
    ensures ratio > 1.0 ==>
      match After(samples, ratio, tolerance, |samples|)
      case Err(e) => res == Err(e)
      case Ok(t) => res == Ok(Recovery(Cycles(t), t.est.r, t.ambiguous, t.unmatched, t.est.refits))
  {
    hide Choose, Refit, Span, Last, After, Cycles, MomentsOf, Plus;
    if ratio <= 1.0 { return Err(RatioTooLow); }
    NothingTracked(samples, ratio, tolerance);
    if samples == [] { return Ok(Recovery([], ratio, 0, 0, 0)); }
    var est := Ratio(ratio, 0.0002, 0);
    var ns := new int[|samples|];
    var recent: seq<Point>, window: seq<Point> := [], [];
    var sums := Moments(0, 0, 0, 0, 0);
    var ambiguous: nat, unmatched: nat := 0, 0;
    ghost var t := Track([], est, 0, 0);
    for i := 0 to |samples|
      invariant After(samples, ratio, tolerance, i) == Ok(t) && |t.points| == i
      invariant t.est == est && t.ambiguous == ambiguous && t.unmatched == unmatched
      invariant recent == Last(t.points, KEEP) && window == Last(t.points, WINDOW)
      invariant sums == MomentsOf(window)
      invariant ns[..i] == Cycles(t)
    {
      var c := Choice(0, false, false);
      if i > 0 {
        c := Choose(recent, est, samples[i], tolerance);
        unmatched := Tick(unmatched, c.unmatched);
        ambiguous := Tick(ambiguous, c.ambiguous);
      }
      ns[i] := c.n;
      var p := Point(c.n, samples[i]);
      LastOfAppended(t.points, p, KEEP);
      LastOfAppended(t.points, p, WINDOW);
      recent := Last(recent + [p], KEEP);
      window, sums := Slide(window, sums, p);
      AfterOneMore(samples, ratio, tolerance, i, t, c);
      var refit := RefitFromSums(i, window, sums, est);
      if refit.Err? {
        ErrorIsFinal(samples, ratio, tolerance, i + 1, |samples|);
        return Err(refit.error);
      }
      est := refit.value;
      CyclesOfAppended(t, p, est, ambiguous, unmatched);
      t := Track(t.points + [p], est, ambiguous, unmatched);
      assert ns[..i + 1] == ns[..i] + [c.n];
    }
    assert ns[..] == ns[..|samples|];
    return Ok(Recovery(ns[..], est.r, ambiguous, unmatched, est.refits));
  }

  // ------------------------------------------------------------ the refit cannot divide by zero

  ghost predicate Rising(w: seq<Point>) {
    forall i, j | 0 <= i < j < |w| :: w[i].n < w[j].n && w[i].s < w[j].s
  }

  lemma {:induction false} CrossIsPositive(w: seq<Point>, p: Point)
    requires forall q | q in w :: p.n < q.n && p.s < q.s
    ensures Cross(w, p) >= |w|
  {
    if w != [] {
      CrossIsPositive(w[1..], p);
      var dn, ds := w[0].n - p.n, w[0].s - p.s;
      assert w[0] in w && dn >= 1 && ds >= 1 && dn * ds >= 1;
      assert (p.n - w[0].n) * (p.s - w[0].s) == dn * ds;
    }
  }

  /** Edges that rise in both time and cycle have a positive least-squares slope. */
  lemma {:induction false} RisingSlopeIsPositive(w: seq<Point>)
    requires Rising(w)
    ensures Covariance(w) >= 0
    ensures |w| >= 2 ==> Covariance(w) > 0
  {
    if w != [] {
      RisingSlopeIsPositive(w[1..]);
      CrossIsPositive(w[1..], w[0]);
    }
  }

  lemma QuotientIsNonzero(num: int, den: int)
    requires num != 0 && den != 0
    ensures Quotient(num, den) != 0.0
  {
    var q := Quotient(num, den);
    assert q * den as real == num as real;
  }

  lemma RefitOfRisingSucceeds(i: nat, w: seq<Point>, est: Ratio)
    requires w != [] && Rising(w)
    ensures Refit(i, w, est).Ok?
  {
    RisingSlopeIsPositive(w);
    if |w| >= 2 && Variance(w) != 0 {
      QuotientIsNonzero(Covariance(w), Variance(w));
    }
  }

  // ------------------------------------------------------------ exactness of whole runs

  /** What the analyser records: each edge at its true cycle, on one phase and ratio rho. */
  ghost predicate Recorded(samples: seq<int>, cycles: seq<int>, phi: real, rho: real) {
    && |cycles| == |samples| && rho > 0.0
    && (forall i | 0 <= i < |samples| :: RecordedAt(Point(cycles[i], samples[i]), phi, rho))
    && (forall i, j | 0 <= i < j < |samples| :: samples[i] < samples[j])
  }

  /** Edges in order, each at a later sample and in a later cycle. */
  ghost predicate Ascends(samples: seq<int>, cycles: seq<int>) {
    && |cycles| == |samples|
    && forall i, j | 0 <= i < j < |samples| :: samples[i] < samples[j] && cycles[i] < cycles[j]
  }

  lemma RecordedAscends(samples: seq<int>, cycles: seq<int>, phi: real, rho: real)
    requires Recorded(samples, cycles, phi, rho)
    ensures Ascends(samples, cycles)
  {
    hide RecordedAt;
    forall i, j | 0 <= i < j < |samples| ensures cycles[i] < cycles[j] {
      CyclesRise(samples, cycles, phi, rho, i, j);
    }
  }

  /** The points an exact tracker holds after m edges: cycles counted from the first edge. */
  ghost function Exact(samples: seq<int>, cycles: seq<int>, m: nat): seq<Point>
    requires m <= |samples| == |cycles|
  {
    seq(m, i requires 0 <= i < m => Point(cycles[i] - cycles[0], samples[i]))
  }

  /** The edges whose intervals bound the phase when the next edge arrives. */
  ghost function InUse(t: Track): (pts: seq<Point>)
    requires Live(t) && t.points != []
    ensures pts != [] && forall p | p in pts :: p in Last(t.points, KEEP)
  {
    Usable(Last(t.points, KEEP), t.est.r, t.est.unc)
  }

  /** Before the edge of relative cycle n, the ratio in use drifts by at most d over the edges in use. */
  ghost predicate Steady(t: Track, n: int, rho: real, d: real)
    requires Live(t) && t.points != []
  {
    var last := t.points[|t.points| - 1].n;
    && t.est.r >= 2.0 + 3.0 * d
    && (forall p | p in InUse(t) :: DriftWithin(last, p.n, t.est.r, rho, d))
    && DriftWithin(last, n, t.est.r, rho, d)
  }

  ghost predicate SteadyRun(samples: seq<int>, cycles: seq<int>, rho: real, d: real, ratio: real, tolerance: real)
    requires |cycles| == |samples| && ratio > 1.0
  {
    forall i | 1 <= i < |samples| && After(samples, ratio, tolerance, i).Ok? ::
      Steady(After(samples, ratio, tolerance, i).value, cycles[i] - cycles[0], rho, d)
  }

  lemma CyclesRise(samples: seq<int>, cycles: seq<int>, phi: real, rho: real, i: nat, j: nat)
    requires Recorded(samples, cycles, phi, rho) && i < j < |samples|
    ensures cycles[i] < cycles[j]
  {
    assert RecordedAt(Point(cycles[i], samples[i]), phi, rho) && RecordedAt(Point(cycles[j], samples[j]), phi, rho);
    assert cycles[i] as real * rho < cycles[j] as real * rho;
    SignOfProduct((cycles[j] - cycles[i]) as real, rho);
    assert (cycles[j] - cycles[i]) as real * rho == cycles[j] as real * rho - cycles[i] as real * rho;
  }

  lemma ExactIsRising(samples: seq<int>, cycles: seq<int>, m: nat)
    requires Ascends(samples, cycles) && m <= |samples|
    ensures Rising(Exact(samples, cycles, m))
  {
  }

  lemma ExactIsRecorded(samples: seq<int>, cycles: seq<int>, phi: real, rho: real, i: nat)
    requires Recorded(samples, cycles, phi, rho) && i < |samples|
    ensures RecordedAt(Point(cycles[i] - cycles[0], samples[i]), phi + cycles[0] as real * rho, rho)
  {
    assert RecordedAt(Point(cycles[i], samples[i]), phi, rho);
    assert (cycles[i] - cycles[0]) as real * rho == cycles[i] as real * rho - cycles[0] as real * rho;
  }

  lemma ChoiceIsExact(samples: seq<int>, cycles: seq<int>, phi: real, rho: real, d: real, tolerance: real,
                      t: Track, m: nat)
    requires Recorded(samples, cycles, phi, rho) && 0.0 <= d <= 0.5 && 1 <= m < |samples|
    requires Live(t) && t.points == Exact(samples, cycles, m) && Steady(t, cycles[m] - cycles[0], rho, d)
    ensures var c := Choose(Last(t.points, KEEP), t.est, samples[m], tolerance);
      && c.n == cycles[m] - cycles[0] && !c.ambiguous && (tolerance >= 2.0 * d ==> !c.unmatched)
  {
    hide Usable, Ranked, Floor;
    var phi0 := phi + cycles[0] as real * rho;
    var last := t.points[m - 1];
    var recent := Last(t.points, KEEP);
    assert recent[|recent| - 1] == last;
    forall p | p in InUse(t) ensures RecordedAt(p, phi0, rho) {
      assert p in recent && p in t.points;
      var i :| 0 <= i < m && t.points[i] == p;
      ExactIsRecorded(samples, cycles, phi, rho, i);
    }
    ExactIsRecorded(samples, cycles, phi, rho, m);
    TrueCycleWins(InUse(t), last, samples[m], cycles[m] - cycles[0], phi0, rho, t.est.r, d);
  }

  lemma NoRefit(i: nat, w: seq<Point>, est: Ratio)
    requires w != [] && (Span(w) < REFIT_SPAN || i + 1 < REFIT_EVERY)
    ensures Refit(i, w, est) == Ok(est)
  {
  }

  /** The exact points rise from cycle 0, so no window of them spans more than the last cycle. */
  lemma ExactWindow(samples: seq<int>, cycles: seq<int>, m: nat)
    requires Ascends(samples, cycles) && m < |samples|
    ensures var w := Last(Exact(samples, cycles, m + 1), WINDOW);
      w != [] && Rising(w) && Span(w) <= cycles[m] - cycles[0]
  {
    ExactIsRising(samples, cycles, m + 1);
    var points := Exact(samples, cycles, m + 1);
    assert forall i | 0 <= i <= m :: points[0].n <= points[i].n;
  }

  /** One edge: from an exact track, a steady ratio leads to an exact track. */
  lemma StepIsExact(samples: seq<int>, cycles: seq<int>, phi: real, rho: real, d: real, tolerance: real,
                    t: Track, m: nat)
    requires Recorded(samples, cycles, phi, rho) && 0.0 <= d <= 0.5 && m < |samples|
    requires Live(t) && t.points == Exact(samples, cycles, m)
    requires m > 0 ==> Steady(t, cycles[m] - cycles[0], rho, d)
    ensures var r := Step(t, samples[m], tolerance);
      && r.Ok? && r.value.points == Exact(samples, cycles, m + 1) && r.value.ambiguous == t.ambiguous
      && (tolerance >= 2.0 * d ==> r.value.unmatched == t.unmatched)
      && (cycles[m] - cycles[0] < REFIT_SPAN || m + 1 < REFIT_EVERY ==> r.value.est == t.est)
  {
    hide Choose, RecordedAt, Steady, Refit, Span, Rising, Last;
    if m > 0 {
      ChoiceIsExact(samples, cycles, phi, rho, d, tolerance, t, m);
    }
    var points := Exact(samples, cycles, m + 1);
    assert points == t.points + [Point(cycles[m] - cycles[0], samples[m])];
    RecordedAscends(samples, cycles, phi, rho);
    ExactWindow(samples, cycles, m);
    var w := Last(points, WINDOW);
    RefitOfRisingSucceeds(m, w, t.est);
    if cycles[m] - cycles[0] < REFIT_SPAN || m + 1 < REFIT_EVERY {
      NoRefit(m, w, t.est);
    }
  }

  lemma NoEdges(samples: seq<int>, cycles: seq<int>, ratio: real, tolerance: real)
    requires |cycles| == |samples| && ratio > 1.0
    ensures ExactAfter(After(samples, ratio, tolerance, 0), samples, cycles, 0)
  {
  }

  ghost predicate ExactAfter(r: Result<Track, RecoveryError>, samples: seq<int>, cycles: seq<int>, m: nat)
    requires m <= |samples| == |cycles|
  {
    r.Ok? && r.value.points == Exact(samples, cycles, m) && r.value.ambiguous == 0
  }

  /**
   Robust recovery. If the ratio in use always stays within d <= 1/2 sample of the true one over
   the edges in use and the new edge, and is at least 2 + 3d, then no step raises, every edge
   gets its true cycle, none is ambiguous, and none is unmatched at a tolerance of at least 2d.
   */
  lemma {:induction false} RobustRecovery(samples: seq<int>, cycles: seq<int>, phi: real, rho: real, d: real,
                                          ratio: real, tolerance: real, m: nat)
    requires m <= |samples| == |cycles| && ratio > 1.0
    requires Recorded(samples, cycles, phi, rho) && 0.0 <= d <= 0.5
    requires SteadyRun(samples, cycles, rho, d, ratio, tolerance)
    ensures ExactAfter(After(samples, ratio, tolerance, m), samples, cycles, m)
    ensures tolerance >= 2.0 * d ==> After(samples, ratio, tolerance, m).value.unmatched == 0
  {
    hide Step, Recorded, Steady, Exact;
    if m == 0 {
      NoEdges(samples, cycles, ratio, tolerance);
    } else {
      RobustRecovery(samples, cycles, phi, rho, d, ratio, tolerance, m - 1);
      var t := After(samples, ratio, tolerance, m - 1).value;
      StepIsExact(samples, cycles, phi, rho, d, tolerance, t, m - 1);
    }
  }

  /** Exact recovery: with an exactly known ratio of at least 2 in use throughout, every assignment is exact. */
  lemma ExactRecovery(samples: seq<int>, cycles: seq<int>, phi: real, rho: real, ratio: real, tolerance: real)
    requires Recorded(samples, cycles, phi, rho) && rho >= 2.0 && ratio > 1.0 && tolerance >= 0.0
    requires forall i | 1 <= i < |samples| && After(samples, ratio, tolerance, i).Ok? ::
      After(samples, ratio, tolerance, i).value.est.r == rho
    ensures ExactAfter(After(samples, ratio, tolerance, |samples|), samples, cycles, |samples|)
    ensures After(samples, ratio, tolerance, |samples|).value.unmatched == 0
  {
    hide RecordedAt, Step, InUse;
    forall i | 1 <= i < |samples| && After(samples, ratio, tolerance, i).Ok?
      ensures Steady(After(samples, ratio, tolerance, i).value, cycles[i] - cycles[0], rho, 0.0)
    {
      assert After(samples, ratio, tolerance, i).value.est.r == rho;
    }
    RobustRecovery(samples, cycles, phi, rho, 0.0, ratio, tolerance, |samples|);
  }

  /**
   A capture of fewer than 64 edges, or spanning fewer than 1000 cycles, is never refitted, so a
   nominal ratio that is exact and at least 2 recovers it exactly.
   */
  lemma {:induction false} ShortCaptureIsExact(samples: seq<int>, cycles: seq<int>, phi: real, rho: real,
                                               tolerance: real, m: nat)
    requires m <= |samples| == |cycles|
    requires Recorded(samples, cycles, phi, rho) && rho >= 2.0 && tolerance >= 0.0
    requires |samples| < REFIT_EVERY || cycles[|cycles| - 1] - cycles[0] < REFIT_SPAN
    ensures ExactAfter(After(samples, rho, tolerance, m), samples, cycles, m)
    ensures var t := After(samples, rho, tolerance, m).value; t.unmatched == 0 && t.est == Ratio(rho, 0.0002, 0)
  {
    hide Step, Recorded, InUse, Exact;
    if m == 0 {
      NoEdges(samples, cycles, rho, tolerance);
    } else {
      ShortCaptureIsExact(samples, cycles, phi, rho, tolerance, m - 1);
      var t := After(samples, rho, tolerance, m - 1).value;
      if m < |samples| { CyclesRise(samples, cycles, phi, rho, m - 1, |samples| - 1); }
      StepIsExact(samples, cycles, phi, rho, 0.0, tolerance, t, m - 1);
    }
  }
}
