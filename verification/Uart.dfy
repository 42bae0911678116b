/**
 Decoding 8N1 bytes from the edges of one line (demo/pe_capture.py, decode_uart).
 */
module Uart {
  import opened Results
  import opened Arith
  import opened Bits

  /** The line changes to level high at a cycle. */
  datatype Edge = Edge(cycle: int, high: bool)

  ghost predicate InOrder(edges: seq<Edge>) {
    forall i, j | 0 <= i < j < |edges| :: edges[i].cycle <= edges[j].cycle
  }

  /** bisect_right: how many edges happen at or before cycle c. */
  method BisectRight(edges: seq<Edge>, c: int) returns (k: nat)
    requires InOrder(edges)
    ensures k == CountUpTo(edges, c)
  {
    var lo, hi := 0, |edges|;
    while lo < hi
      invariant 0 <= lo <= hi <= |edges|
      invariant forall i | 0 <= i < lo :: edges[i].cycle <= c
      invariant forall i | hi <= i < |edges| :: edges[i].cycle > c
    {
      var mid := (lo + hi) / 2;
      if c < edges[mid].cycle { hi := mid; } else { lo := mid + 1; }
    }
    CountIs(edges, c, lo);
    return lo;
  }

  function CountUpTo(edges: seq<Edge>, c: int): (k: nat)
    ensures k <= |edges|
  {
    if edges == [] then 0
    else if edges[|edges| - 1].cycle <= c then |edges|
    else CountUpTo(edges[..|edges| - 1], c)
  }

  lemma {:induction false} CountIs(edges: seq<Edge>, c: int, k: nat)
    requires k <= |edges|
    requires forall i | 0 <= i < k :: edges[i].cycle <= c
    requires forall i | k <= i < |edges| :: edges[i].cycle > c
    ensures CountUpTo(edges, c) == k
  {
    if k < |edges| { CountIs(edges[..|edges| - 1], c, k); }
  }

  /** The level before the first edge: high when it is not known. */
  predicate Idle(initial: Option<bool>) { initial.None? || initial.value }

  /** The level of the line at cycle c; before the first edge it is the initial level, or high. */
  function LevelAt(edges: seq<Edge>, initial: Option<bool>, c: int): bool {
    var k := CountUpTo(edges, c);
    if k > 0 then edges[k - 1].high else Idle(initial)
  }

  // ------------------------------------------------------------ the decoder

  /** The cycle in the middle of bit cell k of a frame. */
  function Middle(c0: int, bit: nat, k: nat): int { c0 + bit * k + bit / 2 }

  /** The first b data bits of a frame, least significant first. */
  function Sampled(edges: seq<Edge>, initial: Option<bool>, bit: nat, c0: int, b: nat): nat {
    if b == 0 then 0
    else
      var high := LevelAt(edges, initial, Middle(c0, bit, b));
      Sampled(edges, initial, bit, c0, b - 1) + if high then Power(b - 1) else 0
  }

  /** The frame may have started before the capture: an edge lies in the first ten bit times. */
  predicate TooEarly(edges: seq<Edge>, bit: nat, first: Option<int>, c0: int)
    requires edges != []
  {
    first.Some? && c0 < first.value + 10 * bit && edges[0].cycle < first.value + 10 * bit
  }

  lemma CountPast(edges: seq<Edge>, c: int, i: nat)
    requires InOrder(edges) && i < |edges| && edges[i].cycle <= c
    ensures i < CountUpTo(edges, c)
  {
    if edges[|edges| - 1].cycle > c { CountPast(edges[..|edges| - 1], c, i); }
  }

  /** Bytes and framing errors of the decoder that continues at edge i. */
  ghost function DecodeFrom(edges: seq<Edge>, initial: Option<bool>, bit: nat, first: Option<int>, last: Option<int>,
                            i: nat): (seq<nat>, nat)
    requires InOrder(edges)
    decreases |edges| - i
  {
    if i >= |edges| then ([], 0)
    else
      var c0 := edges[i].cycle;
      if edges[i].high || LevelAt(edges, initial, Middle(c0, bit, 0)) || TooEarly(edges, bit, first, c0) then
        DecodeFrom(edges, initial, bit, first, last, i + 1)
      else if last.Some? && c0 + 10 * bit > last.value then ([], 0)
      else
        var stop := Middle(c0, bit, 9);
        CountPast(edges, stop, i);
        var rest := DecodeFrom(edges, initial, bit, first, last, CountUpTo(edges, stop));
        ([Sampled(edges, initial, bit, c0, 8)] + rest.0,
         rest.1 + if LevelAt(edges, initial, stop) then 0 else 1)
  }

  method LevelOf(edges: seq<Edge>, initial: Option<bool>, c: int) returns (high: bool)
    requires InOrder(edges)
    ensures high == LevelAt(edges, initial, c)
  {
    var k := BisectRight(edges, c);
    return if k > 0 then edges[k - 1].high else Idle(initial);
  }

  lemma SampledNone(edges: seq<Edge>, initial: Option<bool>, bit: nat, c0: int)
    ensures Sampled(edges, initial, bit, c0, 0) == 0 && Power(0) == 1
  {
  }

  lemma SampledNext(edges: seq<Edge>, initial: Option<bool>, bit: nat, c0: int, b: nat)
    ensures Sampled(edges, initial, bit, c0, b + 1) == Sampled(edges, initial, bit, c0, b)
      + if LevelAt(edges, initial, Middle(c0, bit, b + 1)) then Power(b) else 0
    ensures Power(b + 1) == 2 * Power(b)
  {
  }

  lemma StopIsAfter(edges: seq<Edge>, bit: nat, c0: int, i: nat)
    requires InOrder(edges) && i < |edges| && edges[i].cycle == c0
    ensures i < CountUpTo(edges, Middle(c0, bit, 9))
  {
    CountPast(edges, Middle(c0, bit, 9), i);
  }

  ghost predicate Continues(all: (seq<nat>, nat), bytes: seq<nat>, errors: nat, rest: (seq<nat>, nat)) {
    all.0 == bytes + rest.0 && all.1 == errors + rest.1
  }

  lemma ContinuesWith(all: (seq<nat>, nat), bytes: seq<nat>, errors: nat, byte: nat, error: nat, rest: (seq<nat>, nat))
    requires Continues(all, bytes, errors, ([byte] + rest.0, rest.1 + error))
    ensures Continues(all, bytes + [byte], errors + error, rest)
  {
    assert bytes + ([byte] + rest.0) == bytes + [byte] + rest.0;
  }

  lemma ContinuesEnds(all: (seq<nat>, nat), bytes: seq<nat>, errors: nat)
    ensures Continues(all, [], 0, all)
    ensures Continues(all, bytes, errors, ([], 0)) ==> all == (bytes, errors)
  {
    assert [] + all.0 == all.0 && bytes + [] == bytes;
  }

  /** The eight data bits of the frame that starts at a cycle. */
  method SampleByte(edges: seq<Edge>, initial: Option<bool>, bit: nat, c0: int) returns (byte: nat)
    requires InOrder(edges)
    ensures byte == Sampled(edges, initial, bit, c0, 8)
  {
    hide Sampled, LevelAt, Middle;
    byte := 0;
    var weight := 1;
    SampledNone(edges, initial, bit, c0);
    for b := 0 to 8
      invariant byte == Sampled(edges, initial, bit, c0, b) && weight == Power(b)
    {
      SampledNext(edges, initial, bit, c0, b);
      var high := LevelOf(edges, initial, Middle(c0, bit, b + 1));
      byte := byte + if high then weight else 0;
      weight := 2 * weight;
    }
  }

  method DecodeUart(edges: seq<Edge>, initial: Option<bool>, bit: nat, first: Option<int>, last: Option<int>)
    returns (bytes: seq<nat>, errors: nat)
    requires InOrder(edges)
    ensures (bytes, errors) == DecodeFrom(edges, initial, bit, first, last, 0)
  {
    hide Continues, Sampled, LevelAt, TooEarly, Middle, CountUpTo;
    bytes, errors := [], 0;
    ghost var all := DecodeFrom(edges, initial, bit, first, last, 0);
    ContinuesEnds(all, [], 0);
    var i := 0;
    while i < |edges|
      invariant Continues(all, bytes, errors, DecodeFrom(edges, initial, bit, first, last, i))
      decreases |edges| - i
    {
      var c0 := edges[i].cycle;
      if edges[i].high {
        i := i + 1;
        continue;
      }
      var mid := LevelOf(edges, initial, Middle(c0, bit, 0));
      if mid || TooEarly(edges, bit, first, c0) {
        i := i + 1;
        continue;
      }
      if last.Some? && c0 + 10 * bit > last.value { break; }
      var byte := SampleByte(edges, initial, bit, c0);
      var stop := Middle(c0, bit, 9);
      var high := LevelOf(edges, initial, stop);
      if !high { errors := errors + 1; }
      StopIsAfter(edges, bit, c0, i);
      ghost var next := CountUpTo(edges, stop);
      ContinuesWith(all, bytes, if high then errors else errors - 1, byte, if high then 0 else 1,
        DecodeFrom(edges, initial, bit, first, last, next));
      i := BisectRight(edges, stop);
      bytes := bytes + [byte];
    }
    ContinuesEnds(all, bytes, errors);
  }

  // ------------------------------------------------------------ 8N1 frames on a line

  /** A byte sent from a cycle on: a start bit, eight data bits, a stop bit. */
  datatype Frame = Frame(start: int, byte: nat)

  predicate CellLevel(byte: nat, k: nat) { k == 9 || (1 <= k <= 8 && Bit(byte, k - 1)) }

  /** Frames do not overlap; any idle time may lie between them. */
  ghost predicate Spaced(frames: seq<Frame>, bit: nat) {
    && (forall j | 0 <= j < |frames| :: frames[j].byte < 256)
    && forall j, j' | 0 <= j < j' < |frames| :: frames[j].start + 10 * bit <= frames[j'].start
  }

  ghost predicate Sending(f: Frame, bit: nat, c: int) { f.start <= c < f.start + 10 * bit }

  /** The level of the line at a cycle: high except where a frame sends a low bit. */
  ghost predicate LineHigh(frames: seq<Frame>, bit: nat, c: int)
    requires bit > 0
  {
    forall j | 0 <= j < |frames| && Sending(frames[j], bit, c) ::
      CellLevel(frames[j].byte, (c - frames[j].start) / bit)
  }

  ghost predicate Rising(edges: seq<Edge>) {
    forall i, j | 0 <= i < j < |edges| :: edges[i].cycle < edges[j].cycle
  }

  /** Every edge changes the level. */
  ghost predicate Alternating(edges: seq<Edge>, initial: Option<bool>) {
    forall i | 0 <= i < |edges| :: edges[i].high != (if i == 0 then Idle(initial) else edges[i - 1].high)
  }

  /**
   What a capture from cycle begin on holds of a line: its level then, and every later level
   change in order. The capture may start in the middle of a frame.
   */
  ghost predicate EdgesOfLine(edges: seq<Edge>, initial: Option<bool>, frames: seq<Frame>, bit: nat,
                              begin: int)
    requires bit > 0
  {
    && Rising(edges) && Alternating(edges, initial) && (forall i | 0 <= i < |edges| :: edges[i].cycle > begin)
    && forall c | c >= begin :: LevelAt(edges, initial, c) <==> LineHigh(frames, bit, c)
  }

  /** The line's level in the middle of a bit cell is the bit. */
  lemma LevelInFrame(frames: seq<Frame>, bit: nat, j: nat, k: nat, d: nat)
    requires bit > 0 && Spaced(frames, bit) && j < |frames| && k < 10 && d < bit
    ensures LineHigh(frames, bit, frames[j].start + bit * k + d) <==> CellLevel(frames[j].byte, k)
  {
    var c := frames[j].start + bit * k + d;
    assert bit * k == k * bit;
    DivUnique(c - frames[j].start, bit, k, d);
    MulMonotone(k + 1, 10, bit);
    assert (k + 1) * bit == k * bit + bit;
    MulMonotone(0, k, bit);
    assert Sending(frames[j], bit, c);
    assert forall j' | 0 <= j' < |frames| && Sending(frames[j'], bit, c) :: j' == j;
  }

  /** Between the stop bit of frame j - 1 and the start of frame j the line is high. */
  lemma HighBetween(frames: seq<Frame>, bit: nat, j: nat, c: int)
    requires bit > 0 && Spaced(frames, bit) && j <= |frames|
    requires j < |frames| ==> c < frames[j].start
    requires j > 0 ==> Middle(frames[j - 1].start, bit, 9) <= c
    ensures LineHigh(frames, bit, c)
  {
    forall j' | 0 <= j' < |frames| && Sending(frames[j'], bit, c)
      ensures CellLevel(frames[j'].byte, (c - frames[j'].start) / bit)
    {
      assert j' + 1 == j;
      DivUnique(c - frames[j'].start, bit, 9, c - frames[j'].start - 9 * bit);
    }
  }

  // ------------------------------------------------------------ where the decoder stands

  /** The number of edges up to a cycle, and what it says about the level. */
  lemma {:induction false} CountSplits(edges: seq<Edge>, c: int)
    requires InOrder(edges)
    ensures var k := CountUpTo(edges, c);
      && (forall i | 0 <= i < k :: edges[i].cycle <= c) && (forall i | k <= i < |edges| :: edges[i].cycle > c)
  {
    if edges != [] && edges[|edges| - 1].cycle > c {
      CountSplits(edges[..|edges| - 1], c);
    }
  }

  lemma LevelIsLine(edges: seq<Edge>, initial: Option<bool>, frames: seq<Frame>, bit: nat, begin: int, c: int)
    requires bit > 0 && EdgesOfLine(edges, initial, frames, bit, begin) && c >= begin
    ensures LevelAt(edges, initial, c) <==> LineHigh(frames, bit, c)
  {
  }

  lemma LineIsInOrder(edges: seq<Edge>, initial: Option<bool>, frames: seq<Frame>, bit: nat, begin: int)
    requires bit > 0 && EdgesOfLine(edges, initial, frames, bit, begin)
    ensures InOrder(edges) && (forall i, j | 0 <= i < j < |edges| :: edges[i].cycle < edges[j].cycle)
    ensures forall i | 0 <= i < |edges| :: edges[i].cycle > begin
  {
  }

  /** An edge separates two different levels of the line. */
  lemma EdgeSeparates(edges: seq<Edge>, initial: Option<bool>, frames: seq<Frame>, bit: nat, begin: int, i: nat)
    requires bit > 0 && EdgesOfLine(edges, initial, frames, bit, begin) && i < |edges|
    ensures var c := edges[i].cycle; LineHigh(frames, bit, c) != LineHigh(frames, bit, c - 1)
  {
    hide LineHigh;
    var c := edges[i].cycle;
    CountIs(edges, c, i + 1);
    CountIs(edges, c - 1, i);
    assert LevelAt(edges, initial, c) == edges[i].high;
    assert LevelAt(edges, initial, c - 1) == if i == 0 then Idle(initial) else edges[i - 1].high;
  }

  /** The line falls at cycle c. */
  ghost predicate Falls(frames: seq<Frame>, bit: nat, c: int)
    requires bit > 0
  {
    !LineHigh(frames, bit, c) && LineHigh(frames, bit, c - 1)
  }

  /** Where the line falls there is an edge, the first one after the cycle before ... */
  lemma FallIsEdge(edges: seq<Edge>, initial: Option<bool>, frames: seq<Frame>, bit: nat, begin: int, c: int)
    requires bit > 0 && EdgesOfLine(edges, initial, frames, bit, begin) && Falls(frames, bit, c) && c > begin
    ensures var i := CountUpTo(edges, c - 1); i < |edges| && edges[i] == Edge(c, false)
  {
    hide EdgesOfLine, LineHigh;
    var i, k := CountUpTo(edges, c - 1), CountUpTo(edges, c);
    LevelIsLine(edges, initial, frames, bit, begin, c);
    LevelIsLine(edges, initial, frames, bit, begin, c - 1);
    assert i != k;
    LineIsInOrder(edges, initial, frames, bit, begin);
    CountSplits(edges, c - 1);
    CountSplits(edges, c);
  }

  /** ... and every edge to low is one. */
  lemma EdgeIsFall(edges: seq<Edge>, initial: Option<bool>, frames: seq<Frame>, bit: nat, begin: int, i: nat)
    requires bit > 0 && EdgesOfLine(edges, initial, frames, bit, begin) && i < |edges| && !edges[i].high
    ensures Falls(frames, bit, edges[i].cycle)
  {
    hide EdgesOfLine, LineHigh;
    var c := edges[i].cycle;
    LineIsInOrder(edges, initial, frames, bit, begin);
    CountIs(edges, c, i + 1);
    LevelIsLine(edges, initial, frames, bit, begin, c);
    EdgeSeparates(edges, initial, frames, bit, begin, i);
  }

  /** After the edges before frame j, the next edge is its start bit. */
  lemma StartEdge(edges: seq<Edge>, initial: Option<bool>, frames: seq<Frame>, bit: nat, begin: int, j: nat)
    requires bit > 0 && EdgesOfLine(edges, initial, frames, bit, begin) && Spaced(frames, bit) && j < |frames|
    requires frames[j].start > begin
    ensures var i := CountUpTo(edges, frames[j].start - 1);
      i < |edges| && edges[i] == Edge(frames[j].start, false)
  {
    hide EdgesOfLine, LineHigh, Spaced, Bit;
    LevelInFrame(frames, bit, j, 0, 0);
    BeforeFrame(frames, bit, j);
    FallIsEdge(edges, initial, frames, bit, begin, frames[j].start);
  }

  lemma BeforeFrame(frames: seq<Frame>, bit: nat, j: nat)
    requires bit > 0 && Spaced(frames, bit) && j < |frames|
    ensures LineHigh(frames, bit, frames[j].start - 1)
  {
    HighBetween(frames, bit, j, frames[j].start - 1);
  }

  /** An edge after the middle of the stop bit of frame j - 1 is not before frame j. */
  lemma NoEdgeBetween(edges: seq<Edge>, initial: Option<bool>, frames: seq<Frame>, bit: nat, begin: int, j: nat, i: nat)
    requires bit > 0 && EdgesOfLine(edges, initial, frames, bit, begin) && Spaced(frames, bit) && j <= |frames|
    requires i < |edges| && (j > 0 ==> Middle(frames[j - 1].start, bit, 9) < edges[i].cycle)
    ensures j < |frames| && frames[j].start <= edges[i].cycle
  {
    hide EdgesOfLine, LineHigh, LevelAt, Spaced;
    if j == |frames| || edges[i].cycle < frames[j].start {
      HighBetween(frames, bit, j, edges[i].cycle);
      HighBetween(frames, bit, j, edges[i].cycle - 1);
      EdgeSeparates(edges, initial, frames, bit, begin, i);
    }
  }

  /** From the middle of the stop bit of frame j, no edge happens before the next frame. */
  lemma SkipsToNextFrame(edges: seq<Edge>, initial: Option<bool>, frames: seq<Frame>, bit: nat, begin: int, j: nat)
    requires bit > 0 && EdgesOfLine(edges, initial, frames, bit, begin) && Spaced(frames, bit) && j <= |frames|
    ensures var from := if j == 0 then 0 else CountUpTo(edges, Middle(frames[j - 1].start, bit, 9));
      from == if j < |frames| then CountUpTo(edges, frames[j].start - 1) else |edges|
  {
    hide EdgesOfLine, LineHigh, LevelAt, CountUpTo;
    LineIsInOrder(edges, initial, frames, bit, begin);
    var from := if j == 0 then 0 else CountUpTo(edges, Middle(frames[j - 1].start, bit, 9));
    if j > 0 { CountSplits(edges, Middle(frames[j - 1].start, bit, 9)); }
    if from < |edges| { NoEdgeBetween(edges, initial, frames, bit, begin, j, from); }
    if j < |frames| {
      if j > 0 { assert frames[j - 1].start + 10 * bit <= frames[j].start; }
      forall i | from <= i < |edges| ensures frames[j].start <= edges[i].cycle {
        NoEdgeBetween(edges, initial, frames, bit, begin, j, i);
      }
      CountIs(edges, frames[j].start - 1, from);
    }
  }

  // ------------------------------------------------------------ the sampled byte

  lemma {:induction false} ShiftStep(x: nat, b: nat)
    ensures Shift(x, b + 1) == Shift(x, b) / 2 && (Bit(x, b) <==> Shift(x, b) % 2 == 1)
  {
    if b > 0 { ShiftStep(x / 2, b - 1); }
  }

  lemma {:induction false} SampledBits(edges: seq<Edge>, initial: Option<bool>, bit: nat, c0: int, x: nat, b: nat)
    requires b <= 8 && forall k | 0 <= k < b :: LevelAt(edges, initial, Middle(c0, bit, k + 1)) <==> Bit(x, k)
    ensures Sampled(edges, initial, bit, c0, b) + Power(b) * Shift(x, b) == x
  {
    hide Bit, LevelAt, Middle;
    if b > 0 {
      SampledBits(edges, initial, bit, c0, x, b - 1);
      assert LevelAt(edges, initial, Middle(c0, bit, b - 1 + 1)) <==> Bit(x, b - 1);
      ShiftStep(x, b - 1);
      HalveAndDouble(Power(b - 1), Shift(x, b - 1));
    }
  }

  lemma HalveAndDouble(p: nat, s: nat)
    ensures 2 * p * (s / 2) + (if s % 2 == 1 then p else 0) == p * s
  {
    assert s == 2 * (s / 2) + s % 2;
    assert p * (2 * (s / 2)) == 2 * p * (s / 2);
  }

  lemma ShiftOutByte(x: nat)
    requires x < 256
    ensures Shift(x, 8) == 0
  {
    assert Power(8) == 256;
    ShiftIs(x, 8, 256);
  }

  /** The decoder's samples of frame j are its byte and a good stop bit. */
  lemma FrameSamples(edges: seq<Edge>, initial: Option<bool>, frames: seq<Frame>, bit: nat, begin: int, j: nat)
    requires bit > 0 && EdgesOfLine(edges, initial, frames, bit, begin) && Spaced(frames, bit) && j < |frames|
    requires frames[j].start > begin
    ensures var c0 := frames[j].start;
      && !LevelAt(edges, initial, Middle(c0, bit, 0)) && LevelAt(edges, initial, Middle(c0, bit, 9))
      && Sampled(edges, initial, bit, c0, 8) == frames[j].byte
  {
    hide EdgesOfLine, LineHigh, LevelAt, Bit, Sampled, Shift, Power;
    var c0, x := frames[j].start, frames[j].byte;
    LevelIsLine(edges, initial, frames, bit, begin, Middle(c0, bit, 0));
    LevelIsLine(edges, initial, frames, bit, begin, Middle(c0, bit, 9));
    LevelInFrame(frames, bit, j, 0, bit / 2);
    LevelInFrame(frames, bit, j, 9, bit / 2);
    forall k | 0 <= k < 8 ensures LevelAt(edges, initial, Middle(c0, bit, k + 1)) <==> Bit(x, k) {
      LevelIsLine(edges, initial, frames, bit, begin, Middle(c0, bit, k + 1));
      LevelInFrame(frames, bit, j, k + 1, bit / 2);
    }
    SampledBits(edges, initial, bit, c0, x, 8);
    ShiftOutByte(x);
  }

  // ------------------------------------------------------------ every line has its edges

  /** The level changes of the line in the n cycles after a cycle. */
  ghost function Scan(frames: seq<Frame>, bit: nat, from: int, n: nat): seq<Edge>
    requires bit > 0
  {
    if n == 0 then []
    else if LineHigh(frames, bit, from + n) != LineHigh(frames, bit, from + n - 1) then
      Scan(frames, bit, from, n - 1) + [Edge(from + n, LineHigh(frames, bit, from + n))]
    else Scan(frames, bit, from, n - 1)
  }

  ghost predicate FinalLevel(edges: seq<Edge>, initial: Option<bool>) {
    if edges == [] then Idle(initial) else edges[|edges| - 1].high
  }

  ghost predicate Shows(edges: seq<Edge>, initial: Option<bool>, frames: seq<Frame>, bit: nat, from: int, end: int)
    requires bit > 0
  {
    && (forall e | e in edges :: from < e.cycle <= end) && Rising(edges) && Alternating(edges, initial)
    && (FinalLevel(edges, initial) <==> LineHigh(frames, bit, end))
    && forall c | from <= c <= end :: LevelAt(edges, initial, c) <==> LineHigh(frames, bit, c)
  }

  /** One more edge leaves the earlier levels as they are. */
  lemma LevelOfAppended(edges: seq<Edge>, initial: Option<bool>, e: Edge, c: int)
    ensures c < e.cycle ==> LevelAt(edges + [e], initial, c) == LevelAt(edges, initial, c)
    ensures e.cycle <= c ==> LevelAt(edges + [e], initial, c) == e.high
  {
    assert (edges + [e])[..|edges|] == edges;
  }

  lemma LevelAfterAll(edges: seq<Edge>, initial: Option<bool>, c: int)
    requires forall e | e in edges :: e.cycle <= c
    ensures LevelAt(edges, initial, c) <==> FinalLevel(edges, initial)
  {
    if edges != [] { assert edges[|edges| - 1] in edges; }
  }

  lemma {:induction false} ScanShowsLine(frames: seq<Frame>, initial: Option<bool>, bit: nat, from: int, n: nat)
    requires bit > 0 && (Idle(initial) <==> LineHigh(frames, bit, from))
    ensures Shows(Scan(frames, bit, from, n), initial, frames, bit, from, from + n)
  {
    hide LineHigh, LevelAt, Rising, Alternating, FinalLevel;
    if n == 0 {
      NothingScanned(initial);
      LevelAfterAll([], initial, from);
    } else {
      ScanShowsLine(frames, initial, bit, from, n - 1);
      var before, edges, end := Scan(frames, bit, from, n - 1), Scan(frames, bit, from, n), from + n;
      if edges == before {
        LevelAfterAll(edges, initial, end);
      } else {
        var e := Edge(end, LineHigh(frames, bit, end));
        forall c | from <= c <= end ensures LevelAt(edges, initial, c) <==> LineHigh(frames, bit, c) {
          LevelOfAppended(before, initial, e, c);
        }
        AppendedEdge(before, initial, e);
      }
    }
  }

  lemma NothingScanned(initial: Option<bool>)
    ensures Rising([]) && Alternating([], initial) && FinalLevel([], initial) == Idle(initial)
  {
  }

  lemma AppendedEdge(edges: seq<Edge>, initial: Option<bool>, e: Edge)
    requires Rising(edges) && Alternating(edges, initial) && (forall x | x in edges :: x.cycle < e.cycle)
    requires e.high != FinalLevel(edges, initial)
    ensures Rising(edges + [e]) && Alternating(edges + [e], initial) && FinalLevel(edges + [e], initial) == e.high
  {
  }

  /** Every spaced sequence of frames has its edges in a capture from any cycle on, so the results cover all of them. */
  lemma EveryLineHasEdges(frames: seq<Frame>, bit: nat, begin: int)
    requires bit > 0 && Spaced(frames, bit)
    ensures exists edges, initial :: EdgesOfLine(edges, initial, frames, bit, begin)
  {
    hide LineHigh, LevelAt, Spaced, Rising, Alternating, FinalLevel;
    var initial := Some(LineHigh(frames, bit, begin));
    var end := LastEnd(frames, bit, begin);
    var n: nat := if end <= begin then 0 else end - begin;
    ScanShowsLine(frames, initial, bit, begin, n);
    var edges := Scan(frames, bit, begin, n);
    forall c | c >= begin ensures LevelAt(edges, initial, c) <==> LineHigh(frames, bit, c) {
      if c > begin + n {
        LevelAfterAll(edges, initial, c);
        HighAfterAll(frames, bit, begin, c);
        HighAfterAll(frames, bit, begin, begin + n);
      }
    }
    assert EdgesOfLine(edges, initial, frames, bit, begin);
  }

  function LastEnd(frames: seq<Frame>, bit: nat, begin: int): int {
    if frames == [] then begin else frames[|frames| - 1].start + 10 * bit
  }

  lemma HighAfterAll(frames: seq<Frame>, bit: nat, begin: int, c: int)
    requires bit > 0 && Spaced(frames, bit) && c >= LastEnd(frames, bit, begin)
    ensures LineHigh(frames, bit, c)
  {
    HighBetween(frames, bit, |frames|, c);
  }
}
