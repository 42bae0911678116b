/**
 What the 8N1 decoder returns for a window of a line (demo/pe_capture.py, decode_uart): which frames it
 reads when an edge lies in the first ten bit times, and when that makes it read bytes nobody sent.
 */
module UartWindow {
  import opened Results
  import opened Arith
  import opened Bits
  import opened Uart

  // ------------------------------------------------------------ where bytes are read

  /** The cycles at which the decoder that continues at edge i takes a start bit and reads a byte. */
  ghost function ReadsFrom(edges: seq<Edge>, initial: Option<bool>, bit: nat, first: Option<int>, last: Option<int>,
                           i: nat): seq<int>
    requires InOrder(edges)
    decreases |edges| - i
  {
    if i >= |edges| then []
    else
      var c0 := edges[i].cycle;
      if edges[i].high || LevelAt(edges, initial, Middle(c0, bit, 0)) || TooEarly(edges, bit, first, c0) then
        ReadsFrom(edges, initial, bit, first, last, i + 1)
      else if last.Some? && c0 + 10 * bit > last.value then []
      else
        var stop := Middle(c0, bit, 9);
        CountPast(edges, stop, i);
        [c0] + ReadsFrom(edges, initial, bit, first, last, CountUpTo(edges, stop))
  }

  /** The bytes sampled and the missing stop bits at some start cycles. */
  function ReadAt(edges: seq<Edge>, initial: Option<bool>, bit: nat, starts: seq<int>): (seq<nat>, nat) {
    if starts == [] then ([], 0)
    else
      var rest := ReadAt(edges, initial, bit, starts[1..]);
      ([Sampled(edges, initial, bit, starts[0], 8)] + rest.0,
       rest.1 + if LevelAt(edges, initial, Middle(starts[0], bit, 9)) then 0 else 1)
  }

  /** The level at a cycle is that of the last edge up to it, before the first the initial one, or high. */
  lemma LevelIs(edges: seq<Edge>, initial: Option<bool>, c: int, k: nat)
    requires k <= |edges| && forall i | 0 <= i < k :: edges[i].cycle <= c
    requires forall i | k <= i < |edges| :: edges[i].cycle > c
    ensures LevelAt(edges, initial, c)
         == if k > 0 then edges[k - 1].high else if initial.Some? then initial.value else true
  {
    CountIs(edges, c, k);
  }

  lemma {:induction false} SampledBelow(edges: seq<Edge>, initial: Option<bool>, bit: nat, c0: int, n: nat)
    ensures Sampled(edges, initial, bit, c0, n) < Power(n)
  {
    hide LevelAt, Middle;
    if n > 0 { SampledBelow(edges, initial, bit, c0, n - 1); }
  }

  /** Bit b of a byte is the level in the middle of bit cell b + 1, cell 0 being the start bit. */
  lemma {:induction false} BitOfSampled(edges: seq<Edge>, initial: Option<bool>, bit: nat, c0: int, n: nat, b: nat)
    requires b < n
    ensures Bit(Sampled(edges, initial, bit, c0, n), b) == LevelAt(edges, initial, c0 + bit * (b + 1) + bit / 2)
  {
    hide LevelAt, Bit, Sampled;
    var low, high := Sampled(edges, initial, bit, c0, n - 1), LevelAt(edges, initial, Middle(c0, bit, n));
    SampledNext(edges, initial, bit, c0, n - 1);
    SampledBelow(edges, initial, bit, c0, n - 1);
    if b < n - 1 {
      BitOfSampled(edges, initial, bit, c0, n - 1, b);
      BitsOfSum(low, n - 1, high, b);
    } else {
      BitsOfSum(low, n - 1, high, b);
    }
  }

  lemma BitsOfSum(low: nat, n: nat, high: bool, b: nat)
    requires low < Power(n) && b <= n
    ensures Bit(low + if high then Power(n) else 0, b) == if b < n then Bit(low, b) else high
  {
    hide Bit;
    var p := Power(n);
    var x := low + if high then p else 0;
    DivUnique(x, p, if high then 1 else 0, low);
    if b < n {
      BitOfLow(x, n, b);
    } else {
      BitIs(x, n);
    }
  }

  /**
   What reading at some cycles gives: a byte for each, bit by bit from the middle of its cells, and as many errors as
   there are low stop bits.
   */
  lemma {:induction false} ReadAtMeans(edges: seq<Edge>, initial: Option<bool>, bit: nat, starts: seq<int>)
    ensures var (bytes, errors) := ReadAt(edges, initial, bit, starts);
      && |bytes| == |starts|
      && (forall x | 0 <= x < |starts| :: bytes[x] < 256)
      && (forall x, b | 0 <= x < |starts| && 0 <= b < 8 ::
            Bit(bytes[x], b) == LevelAt(edges, initial, starts[x] + bit * (b + 1) + bit / 2))
      && errors == multiset(StopBits(edges, initial, bit, starts))[false]
  {
    hide LevelAt, Sampled, Bit;
    if starts != [] {
      ReadAtMeans(edges, initial, bit, starts[1..]);
      SampledBelow(edges, initial, bit, starts[0], 8);
      assert Power(8) == 256;
      forall b | 0 <= b < 8
        ensures Bit(Sampled(edges, initial, bit, starts[0], 8), b)
             == LevelAt(edges, initial, starts[0] + bit * (b + 1) + bit / 2)
      {
        BitOfSampled(edges, initial, bit, starts[0], 8, b);
      }
      assert StopBits(edges, initial, bit, starts)
        == [LevelAt(edges, initial, starts[0] + bit * 9 + bit / 2)] + StopBits(edges, initial, bit, starts[1..]);
    }
  }

  /** The levels in the middle of the tenth bit cells. */
  function StopBits(edges: seq<Edge>, initial: Option<bool>, bit: nat, starts: seq<int>): seq<bool> {
    seq(|starts|, x requires 0 <= x < |starts| => LevelAt(edges, initial, starts[x] + bit * 9 + bit / 2))
  }

  /** The decoder returns what it samples at the cycles where it reads. */
  lemma {:induction false} DecodesReads(edges: seq<Edge>, initial: Option<bool>, bit: nat, first: Option<int>,
                                        last: Option<int>, i: nat)
    requires InOrder(edges)
    ensures DecodeFrom(edges, initial, bit, first, last, i)
         == ReadAt(edges, initial, bit, ReadsFrom(edges, initial, bit, first, last, i))
    decreases |edges| - i
  {
    hide Sampled, LevelAt, Middle, TooEarly;
    if i < |edges| {
      var c0 := edges[i].cycle;
      if edges[i].high || LevelAt(edges, initial, Middle(c0, bit, 0)) || TooEarly(edges, bit, first, c0) {
        DecodesReads(edges, initial, bit, first, last, i + 1);
      } else if !(last.Some? && c0 + 10 * bit > last.value) {
        StopIsAfter(edges, bit, c0, i);
        var next := CountUpTo(edges, Middle(c0, bit, 9));
        DecodesReads(edges, initial, bit, first, last, next);
        assert ([c0] + ReadsFrom(edges, initial, bit, first, last, next))[1..]
            == ReadsFrom(edges, initial, bit, first, last, next);
      }
    }
  }

  /** The frames that end by the end of the capture; all of them without an end. */
  function Ended(frames: seq<Frame>, bit: nat, last: Option<int>): seq<Frame> {
    if frames == [] || (last.Some? && frames[0].start + 10 * bit > last.value) then []
    else [frames[0]] + Ended(frames[1..], bit, last)
  }

  function Starts(frames: seq<Frame>): seq<int> {
    seq(|frames|, j requires 0 <= j < |frames| => frames[j].start)
  }

  function Bytes(frames: seq<Frame>): seq<nat> {
    seq(|frames|, j requires 0 <= j < |frames| => frames[j].byte)
  }

  /** Reading at the starts of frames gives their bytes and good stop bits. */
  lemma {:induction false} FramesRead(edges: seq<Edge>, initial: Option<bool>, frames: seq<Frame>, bit: nat,
                                      begin: int, j: nat, last: Option<int>)
    requires bit > 0 && EdgesOfLine(edges, initial, frames, bit, begin) && Spaced(frames, bit) && j <= |frames|
    requires forall k | j <= k < |frames| :: frames[k].start > begin
    ensures var ended := Ended(frames[j..], bit, last);
      ReadAt(edges, initial, bit, Starts(ended)) == (Bytes(ended), 0)
    decreases |frames| - j
  {
    hide EdgesOfLine, Spaced, LevelAt, Sampled, Middle;
    var ended := Ended(frames[j..], bit, last);
    if ended == [] {
      assert Starts(ended) == [] && Bytes(ended) == [];
    } else {
      FrameSamples(edges, initial, frames, bit, begin, j);
      FramesRead(edges, initial, frames, bit, begin, j + 1, last);
      assert frames[j..][1..] == frames[j + 1..];
      var rest := Ended(frames[j + 1..], bit, last);
      assert ended == [frames[j]] + rest;
      assert Starts(ended)[1..] == Starts(rest) && Starts(ended)[0] == frames[j].start;
      assert Bytes(ended) == [frames[j].byte] + Bytes(rest);
    }
  }

  /** Where a byte is read, the decoder goes on after its stop bit. */
  lemma ReadsStep(edges: seq<Edge>, initial: Option<bool>, bit: nat, first: Option<int>, last: Option<int>, i: nat)
    requires InOrder(edges) && i < |edges| && !edges[i].high && !TooEarly(edges, bit, first, edges[i].cycle)
    requires !LevelAt(edges, initial, Middle(edges[i].cycle, bit, 0))
    ensures var c0 := edges[i].cycle;
      ReadsFrom(edges, initial, bit, first, last, i) ==
        if last.Some? && c0 + 10 * bit > last.value then []
        else [c0] + ReadsFrom(edges, initial, bit, first, last, CountUpTo(edges, Middle(c0, bit, 9)))
  {
    hide LevelAt, TooEarly, Middle;
  }

  lemma NoEdgeLeft(edges: seq<Edge>, initial: Option<bool>, bit: nat, first: Option<int>, last: Option<int>)
    requires InOrder(edges)
    ensures ReadsFrom(edges, initial, bit, first, last, |edges|) == []
  {
  }

  lemma EndedStep(frames: seq<Frame>, bit: nat, last: Option<int>, j: nat)
    requires j <= |frames|
    ensures Ended(frames[j..], bit, last) ==
      if j == |frames| || (last.Some? && frames[j].start + 10 * bit > last.value) then []
      else [frames[j]] + Ended(frames[j + 1..], bit, last)
  {
    if j < |frames| { assert frames[j..][1..] == frames[j + 1..] && frames[j..][0] == frames[j]; }
  }

  /** From the edges before frame j on, the decoder reads at the starts of the frames that end in time. */
  lemma {:induction false} ReadsFrames(edges: seq<Edge>, initial: Option<bool>, frames: seq<Frame>, bit: nat,
                                       begin: int, first: Option<int>, last: Option<int>, j: nat, i: nat)
    requires bit > 0 && EdgesOfLine(edges, initial, frames, bit, begin) && Spaced(frames, bit) && j <= |frames|
    requires forall k | j <= k < |frames| ::
      frames[k].start > begin && (edges != [] ==> !TooEarly(edges, bit, first, frames[k].start))
    requires InOrder(edges) && i == if j < |frames| then CountUpTo(edges, frames[j].start - 1) else |edges|
    ensures ReadsFrom(edges, initial, bit, first, last, i) == Starts(Ended(frames[j..], bit, last))
    decreases |frames| - j
  {
    hide EdgesOfLine, LevelAt, Spaced, InOrder, Sampled, TooEarly, ReadsFrom, Ended, Middle;
    EndedStep(frames, bit, last, j);
    if j == |frames| {
      assert Starts([]) == [];
      NoEdgeLeft(edges, initial, bit, first, last);
    } else {
      StartEdge(edges, initial, frames, bit, begin, j);
      FrameSamples(edges, initial, frames, bit, begin, j);
      SkipsToNextFrame(edges, initial, frames, bit, begin, j + 1);
      var c0 := frames[j].start;
      ReadsStep(edges, initial, bit, first, last, i);
      if !(last.Some? && c0 + 10 * bit > last.value) {
        ReadsFrames(edges, initial, frames, bit, begin, first, last, j + 1, CountUpTo(edges, Middle(c0, bit, 9)));
        var rest := Ended(frames[j + 1..], bit, last);
        assert Starts([frames[j]] + rest) == [c0] + Starts(rest);
      }
    }
  }

  // ------------------------------------------------------------ the start of the window

  /**
   From when on the decoder reads: ten bit times into the window, or after the cycle at which the capture
   begins when the window has no start.
   */
  function Opening(bit: nat, begin: int, first: Option<int>): int {
    if first.Some? then first.value + 10 * bit else begin + 1
  }

  /** The window lies in the capture. */
  predicate InCapture(begin: int, first: Option<int>) { first.Some? ==> begin <= first.value }

  /** The first frame that starts once the window is open. */
  function FirstOpen(frames: seq<Frame>, bit: nat, begin: int, first: Option<int>): (j: nat)
    ensures j <= |frames|
    ensures forall k | 0 <= k < j :: frames[k].start < Opening(bit, begin, first)
    ensures j < |frames| ==> frames[j].start >= Opening(bit, begin, first)
  {
    if frames == [] || frames[0].start >= Opening(bit, begin, first) then 0
    else
      var rest := FirstOpen(frames[1..], bit, begin, first);
      assert forall k | 1 <= k < rest + 1 :: frames[k] == frames[1..][k - 1];
      rest + 1
  }

  /** A frame that started too early to be read falls at cycle c, in the open part of the window. */
  ghost predicate LateFall(frames: seq<Frame>, bit: nat, begin: int, first: Option<int>, c: int)
    requires bit > 0
  {
    Falls(frames, bit, c) && exists j | 0 <= j < |frames| ::
      frames[j].start < Opening(bit, begin, first) <= c && Sending(frames[j], bit, c)
  }

  /** Such a fall is followed by ten bit times of capture. */
  ghost predicate Misled(frames: seq<Frame>, bit: nat, begin: int, first: Option<int>, last: Option<int>)
    requires bit > 0
  {
    exists c :: LateFall(frames, bit, begin, first, c) && (last.Some? ==> c + 10 * bit <= last.value)
  }

  /** The low cell that makes the line low. */
  lemma LowCell(frames: seq<Frame>, bit: nat, c: int) returns (j: nat)
    requires bit > 0 && !LineHigh(frames, bit, c)
    ensures j < |frames| && Sending(frames[j], bit, c) && !CellLevel(frames[j].byte, (c - frames[j].start) / bit)
  {
    j :| 0 <= j < |frames| && Sending(frames[j], bit, c) && !CellLevel(frames[j].byte, (c - frames[j].start) / bit);
  }

  lemma MakesLow(frames: seq<Frame>, bit: nat, j: nat, c: int)
    requires bit > 0 && j < |frames| && Sending(frames[j], bit, c)
    requires !CellLevel(frames[j].byte, (c - frames[j].start) / bit)
    ensures !LineHigh(frames, bit, c)
  {
  }

  /** A falling edge starts a low cell, so the line is low half a bit later. */
  lemma FallStaysLow(frames: seq<Frame>, bit: nat, c: int)
    requires bit > 0 && Spaced(frames, bit) && Falls(frames, bit, c)
    ensures !LineHigh(frames, bit, c + bit / 2)
  {
    hide LineHigh, CellLevel, Spaced;
    var j := LowCell(frames, bit, c);
    var d := c - frames[j].start;
    DivBack(d, bit);
    if d % bit != 0 { MakesLow(frames, bit, j, c - 1); }
    var k := CellOf(d, bit);
    LevelInFrame(frames, bit, j, k, 0);
    LevelInFrame(frames, bit, j, k, bit / 2);
  }

  lemma CellOf(d: int, bit: nat) returns (k: nat)
    requires bit > 0 && 0 <= d < 10 * bit && d % bit == 0
    ensures k < 10 && d == bit * k && d / bit == k
  {
    assert d == (d / bit) * bit;
    if d / bit >= 10 { MulMonotone(10, d / bit, bit); }
    if d / bit < 0 { MulMonotone(d / bit, -1, bit); }
    k := d / bit;
  }

  /** Edges that the decoder passes over: rising ones, and early ones. */
  lemma {:induction false} Passes(edges: seq<Edge>, initial: Option<bool>, bit: nat, first: Option<int>,
                                  last: Option<int>, i: nat, k: nat)
    requires InOrder(edges) && i <= k <= |edges|
    requires forall m | i <= m < k :: edges[m].high || TooEarly(edges, bit, first, edges[m].cycle)
    ensures ReadsFrom(edges, initial, bit, first, last, i) == ReadsFrom(edges, initial, bit, first, last, k)
    decreases k - i
  {
    hide LevelAt, TooEarly;
    if i < k { Passes(edges, initial, bit, first, last, i + 1, k); }
  }

  /** The edge at which the decoder first considers a start bit: the first fall once the window is open. */
  ghost predicate FirstFall(edges: seq<Edge>, bit: nat, first: Option<int>, i: nat) {
    && i <= |edges|
    && (forall m | 0 <= m < i :: edges[m].high || TooEarly(edges, bit, first, edges[m].cycle))
    && (i < |edges| ==> !edges[i].high && !TooEarly(edges, bit, first, edges[i].cycle))
  }

  lemma {:induction false} HasFirstFall(edges: seq<Edge>, bit: nat, first: Option<int>, from: nat) returns (i: nat)
    requires from <= |edges|
    requires forall m | 0 <= m < from :: edges[m].high || TooEarly(edges, bit, first, edges[m].cycle)
    ensures FirstFall(edges, bit, first, i)
    decreases |edges| - from
  {
    hide TooEarly;
    if from == |edges| || !(edges[from].high || TooEarly(edges, bit, first, edges[from].cycle)) {
      i := from;
    } else {
      i := HasFirstFall(edges, bit, first, from + 1);
    }
  }

  /** Falls in the open part of the window are not before the first one. */
  lemma OpenFallIsAfter(edges: seq<Edge>, initial: Option<bool>, frames: seq<Frame>, bit: nat, begin: int,
                        first: Option<int>, i: nat, c: int)
    requires bit > 0 && EdgesOfLine(edges, initial, frames, bit, begin) && FirstFall(edges, bit, first, i)
    requires Falls(frames, bit, c) && InCapture(begin, first) && c >= Opening(bit, begin, first)
    ensures i < |edges| && edges[i].cycle <= c
  {
    hide EdgesOfLine, Falls;
    FallIsEdge(edges, initial, frames, bit, begin, c);
    LineIsInOrder(edges, initial, frames, bit, begin);
    var k := CountUpTo(edges, c - 1);
    assert !TooEarly(edges, bit, first, edges[k].cycle);
    assert k >= i;
  }

  /** A late fall is before every frame that can be read. */
  lemma LateFallIsBefore(frames: seq<Frame>, bit: nat, begin: int, first: Option<int>, c: int)
    requires bit > 0 && Spaced(frames, bit) && LateFall(frames, bit, begin, first, c)
    ensures var j := FirstOpen(frames, bit, begin, first); j < |frames| ==> c < frames[j].start
  {
    hide Falls, CellLevel;
    var k :| 0 <= k < |frames| && frames[k].start < Opening(bit, begin, first) <= c && Sending(frames[k], bit, c);
  }

  /** An edge that is not too early lies in the open part of the window. */
  lemma NotEarlyIsOpen(edges: seq<Edge>, bit: nat, begin: int, first: Option<int>, i: nat)
    requires InOrder(edges) && i < |edges| && !TooEarly(edges, bit, first, edges[i].cycle) && edges[i].cycle > begin
    ensures edges[i].cycle >= Opening(bit, begin, first)
  {
    assert i == 0 || edges[0].cycle <= edges[i].cycle;
  }

  /** The first fall considered is the start of the first open frame, or a late fall. */
  lemma FirstFallIs(edges: seq<Edge>, initial: Option<bool>, frames: seq<Frame>, bit: nat, begin: int,
                    first: Option<int>, i: nat)
    requires bit > 0 && EdgesOfLine(edges, initial, frames, bit, begin) && Spaced(frames, bit)
    requires InCapture(begin, first) && FirstFall(edges, bit, first, i) && i < |edges|
    ensures var j := FirstOpen(frames, bit, begin, first);
      || (j < |frames| && i == CountUpTo(edges, frames[j].start - 1) && edges[i].cycle == frames[j].start)
      || LateFall(frames, bit, begin, first, edges[i].cycle)
  {
    hide EdgesOfLine, LineHigh, LevelAt, TooEarly, CellLevel;
    var j, c := FirstOpen(frames, bit, begin, first), edges[i].cycle;
    LineIsInOrder(edges, initial, frames, bit, begin);
    EdgeIsFall(edges, initial, frames, bit, begin, i);
    NotEarlyIsOpen(edges, bit, begin, first, i);
    var k := LowCell(frames, bit, c);
    if k >= j {
      StartIsOpenFall(edges, initial, frames, bit, begin, first, i);
      assert frames[j].start <= frames[k].start;
      CountIs(edges, c - 1, i);
    }
  }

  lemma StartIsOpenFall(edges: seq<Edge>, initial: Option<bool>, frames: seq<Frame>, bit: nat, begin: int,
                        first: Option<int>, i: nat)
    requires bit > 0 && EdgesOfLine(edges, initial, frames, bit, begin) && Spaced(frames, bit)
    requires InCapture(begin, first) && FirstFall(edges, bit, first, i)
    requires FirstOpen(frames, bit, begin, first) < |frames|
    ensures i < |edges| && edges[i].cycle <= frames[FirstOpen(frames, bit, begin, first)].start
  {
    hide EdgesOfLine, LineHigh, FirstFall;
    var j := FirstOpen(frames, bit, begin, first);
    LevelInFrame(frames, bit, j, 0, 0);
    BeforeFrame(frames, bit, j);
    OpenFallIsAfter(edges, initial, frames, bit, begin, first, i, frames[j].start);
  }

  // ------------------------------------------------------------ the round trip of a window

  /**
   Round trip. For any line that sends bytes as 8N1 frames, and any window: the decoder reads exactly at
   the starts of the frames that start once the window is open and end by its end, if and only if no
   frame that started earlier falls in the open part, ten bit times before the end. Then it returns
   exactly their bytes, with no framing error.
   */
  lemma DecodesWindow(edges: seq<Edge>, initial: Option<bool>, frames: seq<Frame>, bit: nat, begin: int,
                      first: Option<int>, last: Option<int>)
    requires bit > 0 && EdgesOfLine(edges, initial, frames, bit, begin) && Spaced(frames, bit)
    requires InCapture(begin, first)
    ensures InOrder(edges)
    ensures var read := Ended(frames[FirstOpen(frames, bit, begin, first)..], bit, last);
      && (ReadsFrom(edges, initial, bit, first, last, 0) == Starts(read) <==> !Misled(frames, bit, begin, first, last))
      && (!Misled(frames, bit, begin, first, last) ==>
            DecodeFrom(edges, initial, bit, first, last, 0) == (Bytes(read), 0))
  {
    hide EdgesOfLine, LineHigh, Spaced, InOrder, LateFall, TooEarly, Falls, LevelAt, Sampled;
    LineIsInOrder(edges, initial, frames, bit, begin);
    var j := FirstOpen(frames, bit, begin, first);
    var read := Ended(frames[j..], bit, last);
    var i := HasFirstFall(edges, bit, first, 0);
    Passes(edges, initial, bit, first, last, 0, i);
    if i < |edges| && LateFall(frames, bit, begin, first, edges[i].cycle) {
      LateFallDecides(edges, initial, frames, bit, begin, first, last, i);
    } else {
      OpenStart(edges, initial, frames, bit, begin, first, last, i);
    }
    if !Misled(frames, bit, begin, first, last) {
      DecodesReads(edges, initial, bit, first, last, 0);
      OpenFrames(edges, frames, bit, begin, first);
      FramesRead(edges, initial, frames, bit, begin, j, last);
    }
  }

  /** Without a late fall the decoder starts at the first open frame. */
  lemma OpenStart(edges: seq<Edge>, initial: Option<bool>, frames: seq<Frame>, bit: nat, begin: int, first: Option<int>,
                  last: Option<int>, i: nat)
    requires bit > 0 && EdgesOfLine(edges, initial, frames, bit, begin) && Spaced(frames, bit) && InOrder(edges)
    requires InCapture(begin, first) && FirstFall(edges, bit, first, i)
    requires i < |edges| ==> !LateFall(frames, bit, begin, first, edges[i].cycle)
    ensures ReadsFrom(edges, initial, bit, first, last, i)
         == Starts(Ended(frames[FirstOpen(frames, bit, begin, first)..], bit, last))
    ensures !Misled(frames, bit, begin, first, last)
  {
    hide EdgesOfLine, LineHigh, Falls, LevelAt, TooEarly, InOrder;
    var j := FirstOpen(frames, bit, begin, first);
    forall c ensures !LateFall(frames, bit, begin, first, c) {
      if LateFall(frames, bit, begin, first, c) {
        OpenFallIsAfter(edges, initial, frames, bit, begin, first, i, c);
        LateFallIsBefore(frames, bit, begin, first, c);
        FirstFallIs(edges, initial, frames, bit, begin, first, i);
      }
    }
    if j < |frames| { StartIsOpenFall(edges, initial, frames, bit, begin, first, i); }
    if i < |edges| { FirstFallIs(edges, initial, frames, bit, begin, first, i); }
    OpenFrames(edges, frames, bit, begin, first);
    ReadsFrames(edges, initial, frames, bit, begin, first, last, j, i);
  }

  lemma OpenFrames(edges: seq<Edge>, frames: seq<Frame>, bit: nat, begin: int, first: Option<int>)
    requires bit > 0 && Spaced(frames, bit) && InCapture(begin, first)
    ensures forall k | FirstOpen(frames, bit, begin, first) <= k < |frames| ::
      frames[k].start > begin && (edges != [] ==> !TooEarly(edges, bit, first, frames[k].start))
  {
  }

  /** With one, it reads there, unless that is too close to the end of the window to read anything. */
  lemma LateFallDecides(edges: seq<Edge>, initial: Option<bool>, frames: seq<Frame>, bit: nat, begin: int,
                        first: Option<int>, last: Option<int>, i: nat)
    requires bit > 0 && EdgesOfLine(edges, initial, frames, bit, begin) && Spaced(frames, bit) && InOrder(edges)
    requires InCapture(begin, first) && FirstFall(edges, bit, first, i)
    requires i < |edges| && LateFall(frames, bit, begin, first, edges[i].cycle)
    ensures var read := Ended(frames[FirstOpen(frames, bit, begin, first)..], bit, last);
      ReadsFrom(edges, initial, bit, first, last, i) == Starts(read) <==> !Misled(frames, bit, begin, first, last)
  {
    hide EdgesOfLine, LineHigh, LevelAt, InOrder, Falls, TooEarly;
    var j, c := FirstOpen(frames, bit, begin, first), edges[i].cycle;
    EdgeIsFall(edges, initial, frames, bit, begin, i);
    FallStaysLow(frames, bit, c);
    LevelIsLine(edges, initial, frames, bit, begin, c + bit / 2);
    LateFallIsBefore(frames, bit, begin, first, c);
    var read := Ended(frames[j..], bit, last);
    if last.Some? && c + 10 * bit > last.value {
      assert read == [] && Starts(read) == [];
      forall c' | LateFall(frames, bit, begin, first, c') ensures c <= c' {
        OpenFallIsAfter(edges, initial, frames, bit, begin, first, i, c');
      }
    } else {
      assert ReadsFrom(edges, initial, bit, first, last, i)[0] == c;
      if read != [] { assert Starts(read)[0] == frames[j].start; }
    }
  }

  /** A window that starts idle for ten bit times misleads nobody, and every frame that starts in it is read. */
  lemma IdleWindow(edges: seq<Edge>, initial: Option<bool>, frames: seq<Frame>, bit: nat, begin: int, first: int,
                   last: Option<int>)
    requires bit > 0 && EdgesOfLine(edges, initial, frames, bit, begin) && Spaced(frames, bit) && begin <= first
    requires edges != [] ==> Opening(bit, begin, Some(first)) <= edges[0].cycle
    ensures !Misled(frames, bit, begin, Some(first), last)
    ensures forall k | 0 <= k < FirstOpen(frames, bit, begin, Some(first)) :: frames[k].start <= begin
  {
    hide EdgesOfLine, LineHigh, LevelAt, Falls, Spaced;
    LineIsInOrder(edges, initial, frames, bit, begin);
    forall k | 0 <= k < |frames| && frames[k].start > begin
      ensures Opening(bit, begin, Some(first)) <= frames[k].start
    {
      StartEdge(edges, initial, frames, bit, begin, k);
    }
  }

  /** Nothing is missing or misread in a capture that begins before the first frame, without bounds. */
  lemma WholeCapture(frames: seq<Frame>, bit: nat, begin: int)
    requires bit > 0 && forall k | 0 <= k < |frames| :: frames[k].start > begin
    ensures FirstOpen(frames, bit, begin, None) == 0 && !Misled(frames, bit, begin, None, None)
    ensures Ended(frames[0..], bit, None) == frames
  {
    hide Falls;
    assert frames[0..] == frames;
    EndedIsAll(frames, bit);
  }

  lemma {:induction false} EndedIsAll(frames: seq<Frame>, bit: nat)
    ensures Ended(frames, bit, None) == frames
  {
    if frames != [] { EndedIsAll(frames[1..], bit); }
  }

  // ------------------------------------------------------------ misled decoders

  /** The byte read at a cycle, from the levels of the line. */
  lemma ByteRead(edges: seq<Edge>, initial: Option<bool>, frames: seq<Frame>, bit: nat, begin: int, c: int, x: nat)
    requires bit > 0 && EdgesOfLine(edges, initial, frames, bit, begin) && x < 256 && c >= begin
    requires forall k | 0 <= k < 8 :: LineHigh(frames, bit, Middle(c, bit, k + 1)) <==> Bit(x, k)
    requires LineHigh(frames, bit, Middle(c, bit, 9))
    ensures ReadAt(edges, initial, bit, [c]) == ([x], 0)
  {
    hide EdgesOfLine, LineHigh, LevelAt, Bit, Sampled, Shift, Power;
    forall k | 0 <= k < 8 ensures LevelAt(edges, initial, Middle(c, bit, k + 1)) <==> Bit(x, k) {
      LevelIsLine(edges, initial, frames, bit, begin, Middle(c, bit, k + 1));
    }
    LevelIsLine(edges, initial, frames, bit, begin, Middle(c, bit, 9));
    SampledBits(edges, initial, bit, c, x, 8);
    ShiftOutByte(x);
    assert Sampled(edges, initial, bit, c, 8) == x;
    assert [x] + [] == [x] && [c][1..] == [] && ReadAt(edges, initial, bit, []) == ([], 0);
  }

  /** A decoder that can be misled reads first at the late fall that comes first. */
  lemma ReadsLateFall(edges: seq<Edge>, initial: Option<bool>, frames: seq<Frame>, bit: nat, begin: int, first: int,
                      last: Option<int>, c: int)
    requires bit > 0 && EdgesOfLine(edges, initial, frames, bit, begin) && Spaced(frames, bit) && begin <= first
    requires Falls(frames, bit, c) && c == Opening(bit, begin, Some(first))
    requires last.Some? ==> c + 10 * bit <= last.value
    ensures InOrder(edges)
    ensures var next := CountUpTo(edges, Middle(c, bit, 9));
      && next <= |edges| && (forall m | next <= m < |edges| :: edges[m].cycle > Middle(c, bit, 9))
      && ReadsFrom(edges, initial, bit, Some(first), last, 0)
         == [c] + ReadsFrom(edges, initial, bit, Some(first), last, next)
  {
    hide EdgesOfLine, LineHigh, LevelAt, Falls, TooEarly;
    LineIsInOrder(edges, initial, frames, bit, begin);
    var i := HasFirstFall(edges, bit, Some(first), 0);
    Passes(edges, initial, bit, Some(first), last, 0, i);
    OpenFallIsAfter(edges, initial, frames, bit, begin, Some(first), i, c);
    NotEarlyIsOpen(edges, bit, begin, Some(first), i);
    FallStaysLow(frames, bit, c);
    LevelIsLine(edges, initial, frames, bit, begin, c + bit / 2);
    CountSplits(edges, Middle(c, bit, 9));
  }

  /** Nothing is read where no falls are left, or where they are too close to the end. */
  lemma {:induction false} NothingRead(edges: seq<Edge>, initial: Option<bool>, bit: nat, first: Option<int>,
                                       last: Option<int>, i: nat)
    requires InOrder(edges) && i <= |edges|
    requires forall m | i <= m < |edges| ::
      edges[m].high || (last.Some? && edges[m].cycle + 10 * bit > last.value)
    ensures ReadsFrom(edges, initial, bit, first, last, i) == []
    decreases |edges| - i
  {
    hide LevelAt, TooEarly;
    if i < |edges| { NothingRead(edges, initial, bit, first, last, i + 1); }
  }

  const LONE := [Frame(10, 0x0F)]

  /**
   A skipped start edge can make up a byte: 0x0F is sent from cycle 10 on, two cycles a bit, the window
   starts at 0, and the decoder returns 0xF8 without a framing error where there is nothing to read.
   */
  lemma SkippedStartMisleads(edges: seq<Edge>, initial: Option<bool>)
    requires EdgesOfLine(edges, initial, LONE, 2, 0)
    ensures InOrder(edges) && DecodeFrom(edges, initial, 2, Some(0), None, 0) == ([0xF8], 0)
    ensures Ended(LONE[FirstOpen(LONE, 2, 0, Some(0))..], 2, None) == []
  {
    hide EdgesOfLine, LevelAt, LineHigh;
    LoneLevels();
    ReadsLateFall(edges, initial, LONE, 2, 0, 0, None, 20);
    var next := CountUpTo(edges, 39);
    forall m | next <= m < |edges| ensures edges[m].high {
      if !edges[m].high {
        EdgeIsFall(edges, initial, LONE, 2, 0, m);
        HighBetween(LONE, 2, 1, edges[m].cycle);
      }
    }
    NothingRead(edges, initial, 2, Some(0), None, next);
    ByteRead(edges, initial, LONE, 2, 0, 20, 0xF8);
    DecodesReads(edges, initial, 2, Some(0), None, 0);
  }

  lemma LoneLevels()
    ensures Spaced(LONE, 2) && Falls(LONE, 2, 20)
    ensures forall k | 0 <= k < 8 :: LineHigh(LONE, 2, Middle(20, 2, k + 1)) <==> Bit(0xF8, k)
    ensures LineHigh(LONE, 2, Middle(20, 2, 9))
  {
    hide LineHigh;
    LevelInFrame(LONE, 2, 0, 4, 1);
    LevelInFrame(LONE, 2, 0, 5, 0);
    forall k | 0 <= k < 8 ensures LineHigh(LONE, 2, Middle(20, 2, k + 1)) <==> Bit(0xF8, k) {
      if k < 3 {
        LevelInFrame(LONE, 2, 0, 6 + k, 1);
      } else {
        HighBetween(LONE, 2, 1, Middle(20, 2, k + 1));
      }
    }
    HighBetween(LONE, 2, 1, Middle(20, 2, 9));
  }

  const STEADY := [Frame(0, 0x55), Frame(10, 0x55)]

  /**
   A misled decoder can return the right bytes all the same: it reads 0x55 at cycle 2, in the middle of the
   first frame, where it should have read 0x55 at cycle 10.
   */
  lemma MisledUnnoticed(edges: seq<Edge>, initial: Option<bool>)
    requires EdgesOfLine(edges, initial, STEADY, 1, -9)
    ensures InOrder(edges) && Misled(STEADY, 1, -9, Some(-8), Some(20))
    ensures DecodeFrom(edges, initial, 1, Some(-8), Some(20), 0) == ([0x55], 0)
    ensures Bytes(Ended(STEADY[FirstOpen(STEADY, 1, -9, Some(-8))..], 1, Some(20))) == [0x55]
  {
    hide EdgesOfLine, LevelAt, LineHigh, Falls, DecodeFrom, ReadsFrom, ReadAt, Ended, FirstOpen, Bytes, Bit, CountUpTo;
    SteadyLevels();
    assert LateFall(STEADY, 1, -9, Some(-8), 2) by { assert Sending(STEADY[0], 1, 2); }
    ReadsLateFall(edges, initial, STEADY, 1, -9, -8, Some(20), 2);
    NothingRead(edges, initial, 1, Some(-8), Some(20), CountUpTo(edges, 11));
    ByteRead(edges, initial, STEADY, 1, -9, 2, 0x55);
    DecodesReads(edges, initial, 1, Some(-8), Some(20), 0);
    assert [2] + [] == [2];
    SecondOfTwo(Frame(0, 0x55), Frame(10, 0x55), 1, -9, -8, 20);
  }

  lemma SecondOfTwo(a: Frame, b: Frame, bit: nat, begin: int, first: int, last: int)
    requires a.start < Opening(bit, begin, Some(first)) <= b.start && b.start + 10 * bit <= last
    ensures Bytes(Ended([a, b][FirstOpen([a, b], bit, begin, Some(first))..], bit, Some(last))) == [b.byte]
  {
    assert [a, b][1..] == [b] && [b][1..] == [];
    assert FirstOpen([b], bit, begin, Some(first)) == 0 && FirstOpen([a, b], bit, begin, Some(first)) == 1;
    assert Ended([b], bit, Some(last)) == [b] + Ended([], bit, Some(last));
  }

  lemma BitsOf55()
    ensures forall i | 0 <= i < 8 :: Bit(0x55, i) <==> i % 2 == 0
  {
    assert Bit(0x55, 0) && !Bit(0x55, 1) && Bit(0x55, 2) && !Bit(0x55, 3);
    assert !Bit(0x0A, 0) && Bit(0x05, 0) && !Bit(0x02, 0) && Bit(0x01, 0) && !Bit(0, 0);
    assert forall i | 0 <= i < 8 :: i in [0, 1, 2, 3, 4, 5, 6, 7];
  }

  lemma SteadyLevels()
    ensures Spaced(STEADY, 1) && Falls(STEADY, 1, 2)
    ensures forall k | 0 <= k < 8 :: LineHigh(STEADY, 1, Middle(2, 1, k + 1)) <==> Bit(0x55, k)
    ensures LineHigh(STEADY, 1, Middle(2, 1, 9))
  {
    hide LineHigh, Bit;
    BitsOf55();
    LevelInFrame(STEADY, 1, 0, 1, 0);
    LevelInFrame(STEADY, 1, 0, 2, 0);
    forall k | 0 <= k < 8 ensures LineHigh(STEADY, 1, Middle(2, 1, k + 1)) <==> Bit(0x55, k) {
      if k < 7 { LevelInFrame(STEADY, 1, 0, 3 + k, 0); } else { LevelInFrame(STEADY, 1, 1, 0, 0); }
    }
    LevelInFrame(STEADY, 1, 1, 1, 0);
  }
}
