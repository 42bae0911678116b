/**
 sigrok session data (demo/pe_capture.py: the byte expansion of write_srzip, _unit_changes, and the
 per-probe scan of read_srzip).

 A waveform is one unit value per sample. The writer expands a change list to unitsize bytes per
 sample, least significant first, and cuts them into chunks; the reader scans the chunks for the
 samples at which the value changes.
 */
module Srzip {
  import opened Results
  import opened Arith
  import opened Bits

  type Byte = b: nat | b < 256 witness 0

  /** A unit value from a sample on. */
  datatype Change = Change(index: nat, value: nat)

  // ------------------------------------------------------------ units and bytes

  function Bound(unit: nat): nat { if unit == 0 then 1 else 256 * Bound(unit - 1) }

  /** value.to_bytes(unit, "little") */
  function ToBytes(value: nat, unit: nat): (bytes: seq<Byte>)
    ensures |bytes| == unit
  {
    if unit == 0 then [] else [value % 256] + ToBytes(value / 256, unit - 1)
  }

  /** int.from_bytes(bytes, "little") */
  function FromBytes(bytes: seq<Byte>): nat {
    if bytes == [] then 0 else bytes[0] + 256 * FromBytes(bytes[1..])
  }

  lemma {:induction false} BytesRoundTrip(value: nat, unit: nat)
    requires value < Bound(unit)
    ensures FromBytes(ToBytes(value, unit)) == value
  {
    if unit > 0 {
      BytesRoundTrip(value / 256, unit - 1);
      assert ToBytes(value, unit)[1..] == ToBytes(value / 256, unit - 1);
    }
  }

  // ------------------------------------------------------------ waveforms

  /** Where a waveform changes value; its first sample counts as a change. */
  function Compress(wave: seq<nat>): seq<Change> {
    if wave == [] then []
    else
      var n := |wave| - 1;
      if n == 0 || wave[n] != wave[n - 1] then Compress(wave[..n]) + [Change(n, wave[n])] else Compress(wave[..n])
  }

  function Repeat(value: nat, n: nat): (wave: seq<nat>)
    ensures |wave| == n && forall i | 0 <= i < n :: wave[i] == value
  {
    seq(n, _ => value)
  }

  /** Change lists that a writer accepts: increasing indices up to the total. */
  ghost predicate Increasing(changes: seq<Change>, total: nat) {
    && (forall i, j | 0 <= i < j < |changes| :: changes[i].index <= changes[j].index)
    && (forall c | c in changes :: c.index <= total)
  }

  function Front(changes: seq<Change>): seq<Change>
    requires changes != []
  {
    changes[..|changes| - 1]
  }

  /** The waveform of a change list; it is 0 before the first change. */
  function Expand(changes: seq<Change>, total: nat): (wave: seq<nat>)
    requires Increasing(changes, total)
    ensures |wave| == total
  {
    if changes == [] then Repeat(0, total)
    else
      var last := changes[|changes| - 1];
      assert last in changes;
      assert forall c | c in Front(changes) :: c in changes;
      Expand(Front(changes), last.index) + Repeat(last.value, total - last.index)
  }

  /** The bytes of a waveform. */
  function WaveBytes(wave: seq<nat>, unit: nat): seq<Byte> {
    if wave == [] then [] else WaveBytes(wave[..|wave| - 1], unit) + ToBytes(wave[|wave| - 1], unit)
  }

  /** What a waveform and its change list have to do with each other: the changes are where the value differs. */
  lemma {:induction false} CompressHolds(wave: seq<nat>, c: Change)
    ensures c in Compress(wave) <==>
      (c.index < |wave| && wave[c.index] == c.value && (c.index == 0 || wave[c.index - 1] != c.value))
  {
    if wave != [] {
      var n := |wave| - 1;
      CompressHolds(wave[..n], c);
      if n == 0 || wave[n] != wave[n - 1] {
        assert Compress(wave) == Compress(wave[..n]) + [Change(n, wave[n])];
      }
    }
  }

  /** Sample i of an expanded change list has the value of the last change up to i, and 0 before the first. */
  lemma {:induction false} ExpandedAt(changes: seq<Change>, total: nat, i: nat, k: nat)
    requires Increasing(changes, total) && i < total && k <= |changes|
    requires (forall j | 0 <= j < k :: changes[j].index <= i) && forall j | k <= j < |changes| :: changes[j].index > i
    ensures Expand(changes, total)[i] == if k > 0 then changes[k - 1].value else 0
  {
    if changes != [] {
      var n := |changes| - 1;
      var last := changes[n];
      assert last in changes;
      assert forall c | c in Front(changes) :: c in changes;
      if k <= n { ExpandedAt(Front(changes), last.index, i, k); }
    }
  }

  /** Byte k of a value, least significant first. */
  lemma {:induction false} ByteOfValue(value: nat, unit: nat, k: nat)
    requires k < unit
    ensures Bound(k) > 0 && ToBytes(value, unit)[k] == value / Bound(k) % 256
  {
    BoundIsPositive(k);
    if k > 0 {
      ByteOfValue(value / 256, unit - 1, k - 1);
      DivideTwice(value, Bound(k - 1));
      assert ToBytes(value, unit)[k] == ToBytes(value / 256, unit - 1)[k - 1];
    }
  }

  lemma {:induction false} BoundIsPositive(k: nat)
    ensures Bound(k) > 0
  {
    if k > 0 { BoundIsPositive(k - 1); }
  }

  lemma DivideTwice(value: nat, p: nat)
    requires p > 0
    ensures value / 256 / p == value / (256 * p)
  {
    var h := value / 256;
    var q := h / p;
    assert h == q * p + h % p && value == 256 * h + value % 256;
    DivUnique(value, 256 * p, q, 256 * (h % p) + value % 256);
  }

  // ------------------------------------------------------------ the writer

  function Copies(bytes: seq<Byte>, n: nat): (r: seq<Byte>) {
    if n == 0 then [] else Copies(bytes, n - 1) + bytes
  }

  lemma WaveBytesStep(wave: seq<nat>, v: nat, unit: nat)
    ensures WaveBytes(wave + [v], unit) == WaveBytes(wave, unit) + ToBytes(v, unit)
  {
    assert (wave + [v])[..|wave|] == wave;
  }

  lemma RepeatStep(value: nat, n: nat)
    ensures Repeat(value, 0) == [] && Repeat(value, n + 1) == Repeat(value, n) + [value]
  {
  }

  lemma {:induction false} BytesOfRun(wave: seq<nat>, value: nat, n: nat, unit: nat)
    ensures WaveBytes(wave + Repeat(value, n), unit) == WaveBytes(wave, unit) + Copies(ToBytes(value, unit), n)
  {
    hide WaveBytes, ToBytes, Repeat;
    if n == 0 {
      RepeatStep(value, 0);
      assert wave + [] == wave;
    } else {
      BytesOfRun(wave, value, n - 1, unit);
      RepeatStep(value, n - 1);
      WaveBytesStep(wave + Repeat(value, n - 1), value, unit);
      assert wave + (Repeat(value, n - 1) + [value]) == (wave + Repeat(value, n - 1)) + [value];
    }
  }

  /** The bytes that write_srzip stores: the change list expanded run by run. */
  method WriteData(changes: seq<Change>, total: nat, unit: nat) returns (data: seq<Byte>)
    requires Increasing(changes, total)
    ensures data == WaveBytes(Expand(changes, total), unit)
  {
    hide Expand, WaveBytes, Copies, LastValue;
    data := [];
    var cur: nat, lastIndex: nat := 0, 0;
    NothingWritten(unit);
    for i := 0 to |changes|
      invariant lastIndex == (if i == 0 then 0 else changes[i - 1].index) <= total
      invariant cur == LastValue(changes[..i])
      invariant Increasing(changes[..i], lastIndex)
      invariant data == WaveBytes(Expand(changes[..i], lastIndex), unit)
    {
      var c := changes[i];
      assert c in changes && lastIndex <= c.index;
      RunWritten(changes[..i], lastIndex, c.index, unit);
      data := data + Copies(ToBytes(cur, unit), c.index - lastIndex);
      ExpandNext(changes, i);
      cur, lastIndex := c.value, c.index;
    }
    assert changes[..|changes|] == changes;
    RunWritten(changes, lastIndex, total, unit);
    data := data + Copies(ToBytes(cur, unit), total - lastIndex);
  }

  function LastValue(changes: seq<Change>): nat {
    if changes == [] then 0 else changes[|changes| - 1].value
  }

  lemma NothingWritten(unit: nat)
    ensures Increasing([], 0) && WaveBytes(Expand([], 0), unit) == [] && LastValue([]) == 0
  {
  }

  /** The run up to index n adds copies of the current value's bytes. */
  lemma RunWritten(changes: seq<Change>, lastIndex: nat, n: nat, unit: nat)
    requires Increasing(changes, lastIndex) && lastIndex <= n
    ensures Increasing(changes, n)
    ensures WaveBytes(Expand(changes, n), unit)
         == WaveBytes(Expand(changes, lastIndex), unit) + Copies(ToBytes(LastValue(changes), unit), n - lastIndex)
  {
    hide WaveBytes;
    ExpandLonger(changes, lastIndex, n);
    BytesOfRun(Expand(changes, lastIndex), LastValue(changes), n - lastIndex, unit);
  }

  /** The last value of a change list runs on. */
  lemma ExpandLonger(changes: seq<Change>, n: nat, total: nat)
    requires Increasing(changes, n) && n <= total
    ensures Increasing(changes, total)
    ensures Expand(changes, total) == Expand(changes, n) + Repeat(LastValue(changes), total - n)
  {
    if changes != [] {
      assert changes[|changes| - 1] in changes;
    }
  }

  lemma ExpandNext(changes: seq<Change>, i: nat)
    requires i < |changes| && Increasing(changes[..i], changes[i].index)
    requires forall j | 0 <= j < i :: changes[j].index <= changes[i].index
    ensures Increasing(changes[..i + 1], changes[i].index)
    ensures Expand(changes[..i + 1], changes[i].index) == Expand(changes[..i], changes[i].index)
    ensures LastValue(changes[..i + 1]) == changes[i].value
  {
    assert changes[..i + 1][..i] == changes[..i];
    assert Front(changes[..i + 1]) == changes[..i];
  }

  /** Chunks of at most 4 MiB, at least one. */
  const CHUNK: nat := 0x40_0000

  function Concat(blobs: seq<seq<Byte>>): seq<Byte> {
    if blobs == [] then [] else Concat(blobs[..|blobs| - 1]) + blobs[|blobs| - 1]
  }

  ghost predicate Aligned(blobs: seq<seq<Byte>>, unit: nat)
    requires unit > 0
  {
    forall b | b in blobs :: Whole(|b|, unit)
  }

  /** Cut the data into chunks: at sample boundaries when the sample size divides the chunk size, or with one chunk. */
  method WriteChunks(data: seq<Byte>, unit: nat) returns (chunks: seq<seq<Byte>>)
    requires unit > 0
    ensures Concat(chunks) == data
    ensures Whole(|data|, unit) ==> (Aligned(chunks, unit) <==> Whole(CHUNK, unit) || |data| <= CHUNK)
  {
    hide Whole;
    SmallestWholes(unit);
    chunks := [];
    var k: nat := 0;
    while k < |data| || k == 0
      invariant 0 <= k && (k == 0 ==> chunks == [])
      invariant Concat(chunks) == data[..if k < |data| then k else |data|]
      invariant Whole(CHUNK, unit) && Whole(|data|, unit) ==> Aligned(chunks, unit)
      invariant Whole(CHUNK, unit) ==> Whole(k, unit)
      invariant k > 0 ==> (if |data| <= CHUNK then chunks == [data] else chunks != [] && |chunks[0]| == CHUNK)
      decreases |data| + CHUNK - k
    {
      var end := if k + CHUNK < |data| then k + CHUNK else |data|;
      var piece := data[if k < |data| then k else |data|..end];
      assert k == 0 && |data| <= CHUNK ==> piece == data;
      if Whole(CHUNK, unit) && Whole(k, unit) { CutOfWholes(k, |data|, unit); }
      assert (chunks + [piece])[..|chunks|] == chunks;
      chunks := chunks + [piece];
      k := k + CHUNK;
    }
    assert data[..|data|] == data;
    assert chunks[0] in chunks;
  }

  /** n bytes are a whole number of samples. */
  predicate Whole(n: nat, unit: nat)
    requires unit > 0
  {
    n % unit == 0
  }

  lemma SumOfWholes(a: nat, b: nat, unit: nat)
    requires unit > 0 && Whole(a, unit) && Whole(b, unit)
    ensures Whole(a + b, unit)
  {
    assert a == a / unit * unit;
    DivPlus(b, unit, a / unit);
  }

  lemma DifferenceOfWholes(a: nat, b: nat, unit: nat)
    requires unit > 0 && Whole(a, unit) && Whole(b, unit) && b <= a
    ensures Whole(a - b, unit)
  {
    assert b == b / unit * unit;
    DivPlus(a - b, unit, b / unit);
  }

  lemma CutOfWholes(k: nat, n: nat, unit: nat)
    requires unit > 0 && Whole(CHUNK, unit) && Whole(k, unit)
    ensures Whole(k + CHUNK, unit)
    ensures Whole(n, unit) && k <= n ==> Whole(n - k, unit)
  {
    hide Whole;
    SumOfWholes(k, CHUNK, unit);
    if Whole(n, unit) && k <= n { DifferenceOfWholes(n, k, unit); }
  }

  lemma SmallestWholes(unit: nat)
    requires unit > 0
    ensures Whole(0, unit) && Whole(unit, unit)
    ensures forall n | 0 < n < unit :: !Whole(n, unit)
  {
    DivSmall(0, unit);
    DivUnique(unit, unit, 1, 0);
    forall n | 0 < n < unit ensures !Whole(n, unit) { DivSmall(n, unit); }
  }

  // ------------------------------------------------------------ the reader

  /** A blob as rows of unit bytes; an incomplete last row is dropped. */
  function Rows(blob: seq<Byte>, unit: nat): (rows: seq<seq<Byte>>)
    requires unit > 0
    ensures forall r | r in rows :: |r| == unit
  {
    if |blob| < unit then [] else [blob[..unit]] + Rows(blob[unit..], unit)
  }

  /** Row s is bytes s * unit to (s + 1) * unit; only whole rows count. */
  lemma {:induction false} RowAt(blob: seq<Byte>, unit: nat, s: nat)
    requires unit > 0
    ensures s < |Rows(blob, unit)| <==> (s + 1) * unit <= |blob|
    ensures s < |Rows(blob, unit)| ==>
      0 <= s * unit <= (s + 1) * unit && Rows(blob, unit)[s] == blob[s * unit..(s + 1) * unit]
  {
    assert (s + 1) * unit == s * unit + unit && s * unit >= 0;
    if |blob| >= unit && s > 0 {
      RowAt(blob[unit..], unit, s - 1);
      assert (s - 1) * unit + unit == s * unit && (s - 1) * unit >= 0;
      if s < |Rows(blob, unit)| { assert blob[unit..][(s - 1) * unit..s * unit] == blob[s * unit..(s + 1) * unit]; }
    }
  }

  lemma RowsStep(blob: seq<Byte>, unit: nat)
    requires unit > 0
    ensures Rows(blob, unit) == if |blob| < unit then [] else [blob[..unit]] + Rows(blob[unit..], unit)
  {
  }

  function Samples(blob: seq<Byte>, unit: nat): (wave: seq<nat>)
    requires unit > 0
    ensures |wave| == |Rows(blob, unit)|
  {
    var rows := Rows(blob, unit);
    seq(|rows|, s requires 0 <= s < |rows| => FromBytes(rows[s]))
  }

  function AllSamples(blobs: seq<seq<Byte>>, unit: nat): seq<nat>
    requires unit > 0
  {
    if blobs == [] then [] else AllSamples(blobs[..|blobs| - 1], unit) + Samples(blobs[|blobs| - 1], unit)
  }

  /** A row as the vectorised scan sees it: in a 64-bit word, which the bytes after the eighth are shifted out of. */
  function InWord(row: seq<Byte>): nat { FromBytes(if |row| <= 8 then row else row[..8]) }

  function Words(blob: seq<Byte>, unit: nat): (wave: seq<nat>)
    requires unit > 0
    ensures |wave| == |Rows(blob, unit)|
  {
    var rows := Rows(blob, unit);
    seq(|rows|, s requires 0 <= s < |rows| => InWord(rows[s]))
  }

  /** The waveform that either scan sees. */
  function Seen(blobs: seq<seq<Byte>>, unit: nat, vectorised: bool): seq<nat>
    requires unit > 0
  {
    if blobs == [] then []
    else
      var last := blobs[|blobs| - 1];
      Seen(blobs[..|blobs| - 1], unit, vectorised) + if vectorised then Words(last, unit) else Samples(last, unit)
  }

  /** What 64 bits hold of a waveform. */
  const WORD: nat := 0x1_0000_0000_0000_0000

  function Wrapped(wave: seq<nat>): (r: seq<nat>)
    ensures |r| == |wave|
  {
    seq(|wave|, i requires 0 <= i < |wave| => wave[i] % WORD)
  }

  lemma {:induction false} FromBytesOfParts(a: seq<Byte>, b: seq<Byte>)
    ensures FromBytes(a + b) == FromBytes(a) + Bound(|a|) * FromBytes(b)
  {
    if a == [] {
      assert [] + b == b;
    } else {
      FromBytesOfParts(a[1..], b);
      assert (a + b)[1..] == a[1..] + b;
      assert 256 * (Bound(|a| - 1) * FromBytes(b)) == 256 * Bound(|a| - 1) * FromBytes(b);
    }
  }

  lemma {:induction false} FromBytesBelow(bytes: seq<Byte>)
    ensures FromBytes(bytes) < Bound(|bytes|)
  {
    if bytes != [] { FromBytesBelow(bytes[1..]); }
  }

  lemma {:induction false} BoundGrows(m: nat, n: nat)
    requires m <= n
    ensures 0 < Bound(m) <= Bound(n) && (m < n ==> Bound(m) < Bound(n))
  {
    if m < n { BoundGrows(m, n - 1); } else if m > 0 { BoundGrows(m - 1, m - 1); }
  }

  lemma WordIsEightBytes()
    ensures Bound(8) == WORD
  {
    assert Bound(4) == 0x1_0000_0000;
  }

  lemma RemainderIs(x: nat, q: nat, r: nat)
    requires r < WORD && x == r + WORD * q
    ensures x % WORD == r && (x < WORD <==> q == 0)
  {
    DivUnique(x, WORD, q, r);
  }

  /** The vectorised scan sees a sample modulo 2^64, hence the sample if the bytes after the eighth are 0. */
  lemma WordOfRow(row: seq<Byte>)
    ensures InWord(row) == FromBytes(row) % WORD
    ensures FromBytes(row) < WORD <==> forall i | 8 <= i < |row| :: row[i] == 0
  {
    hide FromBytes, Bound;
    WordIsEightBytes();
    if |row| <= 8 {
      FromBytesBelow(row);
      BoundGrows(|row|, 8);
      RemainderIs(FromBytes(row), 0, FromBytes(row));
    } else {
      LongRow(row);
      ZeroBytes(row[8..]);
      assert forall i | 8 <= i < |row| :: row[i] == row[8..][i - 8];
    }
  }

  lemma LongRow(row: seq<Byte>)
    requires |row| > 8
    ensures FromBytes(row) % WORD == FromBytes(row[..8])
    ensures FromBytes(row) < WORD <==> FromBytes(row[8..]) == 0
  {
    hide FromBytes, Bound;
    WordIsEightBytes();
    assert row == row[..8] + row[8..];
    FromBytesOfParts(row[..8], row[8..]);
    FromBytesBelow(row[..8]);
    RemainderIs(FromBytes(row), FromBytes(row[8..]), FromBytes(row[..8]));
  }

  lemma {:induction false} ZeroBytes(bytes: seq<Byte>)
    ensures FromBytes(bytes) == 0 <==> forall i | 0 <= i < |bytes| :: bytes[i] == 0
  {
    if bytes != [] {
      ZeroBytes(bytes[1..]);
      assert forall i | 1 <= i < |bytes| :: bytes[i] == bytes[1..][i - 1];
    }
  }

  /** What the scans see: the samples, and the vectorised one their last 64 bits. */
  lemma {:induction false} ScansSee(blobs: seq<seq<Byte>>, unit: nat)
    requires unit > 0
    ensures Seen(blobs, unit, false) == AllSamples(blobs, unit)
    ensures Seen(blobs, unit, true) == Wrapped(AllSamples(blobs, unit))
  {
    hide Rows, FromBytes, InWord;
    if blobs != [] {
      var front, last := blobs[..|blobs| - 1], blobs[|blobs| - 1];
      ScansSee(front, unit);
      forall s | 0 <= s < |Rows(last, unit)| ensures Words(last, unit)[s] == Samples(last, unit)[s] % WORD {
        WordOfRow(Rows(last, unit)[s]);
      }
      assert Wrapped(AllSamples(front, unit) + Samples(last, unit))
          == Wrapped(AllSamples(front, unit)) + Wrapped(Samples(last, unit));
      assert Words(last, unit) == Wrapped(Samples(last, unit));
    }
  }

  /** Every sample fits in a word. */
  ghost predicate InWords(wave: seq<nat>) { forall v | v in wave :: v < WORD }

  lemma WrappedIsSame(wave: seq<nat>)
    ensures Compress(Wrapped(wave)) == Compress(wave) <==> InWords(wave)
  {
    hide Compress;
    if InWords(wave) {
      forall i | 0 <= i < |wave| ensures Wrapped(wave)[i] == wave[i] { assert wave[i] in wave; }
      assert Wrapped(wave) == wave;
    } else {
      CompressedExpands(wave);
      CompressedExpands(Wrapped(wave));
      var i :| 0 <= i < |wave| && wave[i] >= WORD;
      assert Wrapped(wave)[i] != wave[i];
    }
  }

  /** The two scans return the same changes if and only if every sample fits in 64 bits. */
  lemma ScansAgree(blobs: seq<seq<Byte>>, unit: nat)
    requires unit > 0
    ensures Compress(Seen(blobs, unit, true)) == Compress(Seen(blobs, unit, false)) <==> InWords(AllSamples(blobs, unit))
  {
    hide Compress, AllSamples, Wrapped;
    ScansSee(blobs, unit);
    WrappedIsSame(AllSamples(blobs, unit));
  }

  lemma {:induction false} SamplesBelow(blobs: seq<seq<Byte>>, unit: nat)
    requires unit > 0
    ensures forall v | v in AllSamples(blobs, unit) :: v < Bound(unit)
  {
    hide Rows, FromBytes, Bound;
    if blobs != [] {
      SamplesBelow(blobs[..|blobs| - 1], unit);
      var rows := Rows(blobs[|blobs| - 1], unit);
      forall s | 0 <= s < |rows| ensures FromBytes(rows[s]) < Bound(unit) { FromBytesBelow(rows[s]); }
    }
  }

  /** They agree on every session if and only if a sample has at most eight bytes. */
  lemma UnitsThatAgree(unit: nat)
    requires unit > 0
    ensures (forall blobs :: Compress(Seen(blobs, unit, true)) == Compress(Seen(blobs, unit, false))) <==> unit <= 8
  {
    hide Compress, Seen, AllSamples, Bound;
    WordIsEightBytes();
    if unit <= 8 {
      BoundGrows(unit, 8);
      forall blobs ensures Compress(Seen(blobs, unit, true)) == Compress(Seen(blobs, unit, false)) {
        SamplesBelow(blobs, unit);
        ScansAgree(blobs, unit);
      }
    } else {
      var blobs := WideUnitsDiffer(unit);
      ScansAgree(blobs, unit);
      assert AllSamples(blobs, unit)[1] == WORD && WORD in AllSamples(blobs, unit);
    }
  }

  /** For every wider sample a change can go unseen: 0 and then 2^64 look like a constant 0. */
  lemma WideUnitsDiffer(unit: nat) returns (blobs: seq<seq<Byte>>)
    requires unit > 8
    ensures AllSamples(blobs, unit) == [0, WORD] && Compress(Seen(blobs, unit, true)) == [Change(0, 0)]
  {
    hide Bound, Samples, ToBytes, Seen;
    WordIsEightBytes();
    BoundGrows(8, unit);
    blobs := [ToBytes(0, unit), ToBytes(WORD, unit)];
    SampleOfUnit(0, unit);
    SampleOfUnit(WORD, unit);
    assert blobs[..1] == [ToBytes(0, unit)] && blobs[..1][..0] == [];
    assert AllSamples(blobs[..1], unit) == AllSamples([], unit) + [0];
    ScansSee(blobs, unit);
    assert Wrapped([0, WORD]) == [0, 0] && [0, 0][..1] == [0] && [0][..0] == [];
    assert Compress([0]) == Compress([]) + [Change(0, 0)];
  }

  /** The reader's state after a waveform: its changes and its last value. */
  ghost predicate Scanned(out: seq<Change>, prev: Option<nat>, wave: seq<nat>) {
    out == Compress(wave) && prev == if wave == [] then None else Some(wave[|wave| - 1])
  }

  lemma CompressStep(wave: seq<nat>, v: nat)
    ensures Compress(wave + [v]) ==
      if wave == [] || wave[|wave| - 1] != v then Compress(wave) + [Change(|wave|, v)] else Compress(wave)
  {
    var longer, n := wave + [v], |wave|;
    assert longer[..n] == wave && longer[n] == v;
    if n > 0 { assert longer[n - 1] == wave[n - 1]; }
    assert Compress(longer) ==
      if n == 0 || longer[n] != longer[n - 1] then Compress(longer[..n]) + [Change(n, longer[n])] else Compress(longer[..n]);
  }

  /** The scan without numpy: sample by sample, after offset earlier samples. */
  method ScanSamples(vals: seq<nat>, out: seq<Change>, prev: Option<nat>, offset: nat, ghost wave: seq<nat>)
    returns (out': seq<Change>, prev': Option<nat>)
    requires Scanned(out, prev, wave) && offset == |wave|
    ensures Scanned(out', prev', wave + vals)
  {
    hide Compress;
    out', prev' := out, prev;
    assert wave + vals[..0] == wave;
    for k := 0 to |vals|
      invariant Scanned(out', prev', wave + vals[..k])
    {
      CompressStep(wave + vals[..k], vals[k]);
      assert wave + vals[..k + 1] == wave + vals[..k] + [vals[k]];
      if prev' != Some(vals[k]) {
        out' := out' + [Change(offset + k, vals[k])];
        prev' := Some(vals[k]);
      }
    }
    assert wave + vals[..|vals|] == wave + vals;
  }

  /** The scan with numpy: the positions that differ from their predecessor, all at once. */
  method ScanVector(vals: seq<nat>, out: seq<Change>, prev: Option<nat>, offset: nat, ghost wave: seq<nat>)
    returns (out': seq<Change>, prev': Option<nat>)
    requires Scanned(out, prev, wave) && offset == |wave| && vals != []
    ensures Scanned(out', prev', wave + vals)
  {
    hide Compress;
    out' := out;
    CompressStep(wave, vals[0]);
    if prev.None? || vals[0] != prev.value { out' := out' + [Change(offset, vals[0])]; }
    assert wave + vals[..1] == wave + [vals[0]];
    for i := 1 to |vals|
      invariant out' == Compress(wave + vals[..i])
    {
      CompressStep(wave + vals[..i], vals[i]);
      assert wave + vals[..i + 1] == wave + vals[..i] + [vals[i]];
      if vals[i] != vals[i - 1] { out' := out' + [Change(offset + i, vals[i])]; }
    }
    prev' := Some(vals[|vals| - 1]);
    assert wave + vals[..|vals|] == wave + vals;
  }

  lemma {:induction false} FromBytesStep(bytes: seq<Byte>, b: Byte)
    ensures FromBytes(bytes + [b]) == FromBytes(bytes) + Bound(|bytes|) * b
  {
    if bytes == [] {
      assert ([b])[1..] == [];
    } else {
      assert (bytes + [b])[1..] == bytes[1..] + [b];
      FromBytesStep(bytes[1..], b);
      assert 256 * (Bound(|bytes| - 1) * b) == 256 * Bound(|bytes| - 1) * b;
    }
  }

  lemma RowStep(row: seq<Byte>, k: nat)
    requires k < |row|
    ensures FromBytes(row[..k + 1]) == FromBytes(row[..k]) + Bound(k) * row[k]
  {
    assert row[..k + 1] == row[..k] + [row[k]];
    FromBytesStep(row[..k], row[k]);
  }

  /** The words of all rows, one byte column at a time; columns after the eighth are shifted out. */
  method ColumnSums(blob: seq<Byte>, unit: nat) returns (vals: seq<nat>)
    requires unit > 0
    ensures vals == Words(blob, unit)
  {
    hide FromBytes, Bound, Rows;
    var rows := Rows(blob, unit);
    vals := seq(|rows|, _ => 0);
    var weight: nat := 1;
    NoBytes();
    for k := 0 to unit
      invariant weight == Bound(if k < 8 then k else 8) && |vals| == |rows|
      invariant forall s | 0 <= s < |rows| :: vals[s] == FromBytes(rows[s][..if k < 8 then k else 8])
    {
      if k < 8 {
        forall s | 0 <= s < |rows| ensures FromBytes(rows[s][..k + 1]) == vals[s] + weight * rows[s][k] {
          RowStep(rows[s], k);
        }
        vals := seq(|rows|, s requires 0 <= s < |rows| => vals[s] + weight * rows[s][k]);
        weight := 256 * weight;
        BoundStep(k);
      }
    }
    assert forall s | 0 <= s < |rows| && unit <= 8 :: rows[s][..unit] == rows[s];
  }

  lemma NoBytes()
    ensures FromBytes([]) == 0 && Bound(0) == 1
  {
  }

  lemma BoundStep(k: nat)
    ensures Bound(k + 1) == 256 * Bound(k)
  {
  }

  /** The changes and the total of the samples in some blobs, with either scan. */
  method UnitChanges(blobs: seq<seq<Byte>>, unit: nat, vectorised: bool) returns (out: seq<Change>, total: nat)
    requires unit > 0
    ensures out == Compress(Seen(blobs, unit, vectorised)) && total == |Seen(blobs, unit, vectorised)|
  {
    hide Compress, Samples, Words;
    out, total := [], 0;
    var prev: Option<nat> := None;
    NothingScanned();
    for i := 0 to |blobs|
      invariant Scanned(out, prev, Seen(blobs[..i], unit, vectorised))
      invariant total == |Seen(blobs[..i], unit, vectorised)|
    {
      assert blobs[..i + 1][..i] == blobs[..i];
      ghost var wave := Seen(blobs[..i], unit, vectorised);
      var vals: seq<nat>;
      if vectorised {
        vals := ColumnSums(blobs[i], unit);
        if vals != [] { out, prev := ScanVector(vals, out, prev, total, wave); }
      } else {
        vals := Samples(blobs[i], unit);
        out, prev := ScanSamples(vals, out, prev, total, wave);
      }
      assert wave + vals == if vals == [] then wave else wave + vals;
      total := total + |vals|;
    }
    assert blobs[..|blobs|] == blobs;
  }

  lemma NothingScanned()
    ensures Scanned([], None, [])
  {
  }

  // ------------------------------------------------------------ round trips

  lemma {:induction false} SamplesOfConcat(a: seq<Byte>, b: seq<Byte>, unit: nat)
    requires unit > 0 && Whole(|a|, unit)
    ensures Samples(a + b, unit) == Samples(a, unit) + Samples(b, unit)
  {
    hide Samples, Whole, FromBytes, Rows;
    SmallestWholes(unit);
    if |a| < unit {
      assert a == [] && a + b == b;
      NoSamples(unit);
    } else {
      DifferenceOfWholes(|a|, unit, unit);
      var rest := a[unit..];
      SamplesOfConcat(rest, b, unit);
      CutConcat(a, b, unit);
      FirstSample(a, unit);
      FirstSample(a + b, unit);
      Regrouped([FromBytes(a[..unit])], Samples(rest, unit), Samples(b, unit));
    }
  }

  lemma CutConcat(a: seq<Byte>, b: seq<Byte>, n: nat)
    requires n <= |a|
    ensures (a + b)[..n] == a[..n] && (a + b)[n..] == a[n..] + b
  {
  }

  lemma Regrouped(x: seq<nat>, y: seq<nat>, z: seq<nat>)
    ensures x + (y + z) == (x + y) + z
  {
  }

  lemma FirstSample(blob: seq<Byte>, unit: nat)
    requires unit > 0 && |blob| >= unit
    ensures Samples(blob, unit) == [FromBytes(blob[..unit])] + Samples(blob[unit..], unit)
  {
    hide Rows, FromBytes;
    RowsStep(blob, unit);
  }

  lemma {:induction false} SamplesOfAllBlobs(blobs: seq<seq<Byte>>, unit: nat)
    requires unit > 0 && Aligned(blobs, unit)
    ensures AllSamples(blobs, unit) == Samples(Concat(blobs), unit) && Whole(|Concat(blobs)|, unit)
  {
    hide Whole, Samples;
    SmallestWholes(unit);
    NoSamples(unit);
    if blobs != [] {
      var front, last := blobs[..|blobs| - 1], blobs[|blobs| - 1];
      assert last in blobs;
      SamplesOfAllBlobs(front, unit);
      SamplesOfConcat(Concat(front), last, unit);
      SumOfWholes(|Concat(front)|, |last|, unit);
    }
  }

  lemma {:induction false} SamplesOfWave(wave: seq<nat>, unit: nat)
    requires unit > 0 && forall v | v in wave :: v < Bound(unit)
    ensures Samples(WaveBytes(wave, unit), unit) == wave && Whole(|WaveBytes(wave, unit)|, unit)
  {
    hide Whole, Samples, WaveBytes, ToBytes, FromBytes, Bound;
    if wave == [] {
      NoSamples(unit);
    } else {
      var front, v := wave[..|wave| - 1], wave[|wave| - 1];
      assert wave == front + [v] && v in wave && forall u | u in front :: u in wave;
      SamplesOfWave(front, unit);
      WaveBytesStep(front, v, unit);
      SamplesOfConcat(WaveBytes(front, unit), ToBytes(v, unit), unit);
      SmallestWholes(unit);
      SumOfWholes(|WaveBytes(front, unit)|, unit, unit);
      SampleOfUnit(v, unit);
    }
  }

  lemma NoSamples(unit: nat)
    requires unit > 0
    ensures WaveBytes([], unit) == [] && Samples([], unit) == [] && Whole(0, unit)
  {
    SmallestWholes(unit);
  }

  lemma SampleOfUnit(v: nat, unit: nat)
    requires unit > 0 && v < Bound(unit)
    ensures Samples(ToBytes(v, unit), unit) == [v]
  {
    var bytes := ToBytes(v, unit);
    FirstSample(bytes, unit);
    assert bytes[..unit] == bytes && bytes[unit..] == [];
    BytesRoundTrip(v, unit);
  }

  /**
   Round trip. However the bytes of a waveform are cut at sample boundaries, scanning the chunks
   gives exactly the compressed waveform and its length.
   */
  lemma SrzipRoundTrip(changes: seq<Change>, total: nat, unit: nat, chunks: seq<seq<Byte>>)
    requires unit > 0 && Increasing(changes, total) && Aligned(chunks, unit)
    requires forall v | v in Expand(changes, total) :: v < Bound(unit)
    requires Concat(chunks) == WaveBytes(Expand(changes, total), unit)
    ensures AllSamples(chunks, unit) == Expand(changes, total)
  {
    SamplesOfAllBlobs(chunks, unit);
    SamplesOfWave(Expand(changes, total), unit);
  }

  // ------------------------------------------------------------ writing and reading a session

  lemma {:induction false} RowCount(blob: seq<Byte>, unit: nat)
    requires unit > 0
    ensures |Rows(blob, unit)| * unit <= |blob|
    ensures |Rows(blob, unit)| * unit == |blob| <==> Whole(|blob|, unit)
  {
    hide Whole, Rows;
    SmallestWholes(unit);
    RowsStep(blob, unit);
    if |blob| >= unit {
      RowCount(blob[unit..], unit);
      SumTimes(1, |Rows(blob[unit..], unit)|, unit);
      if Whole(|blob|, unit) { DifferenceOfWholes(|blob|, unit, unit); }
      if Whole(|blob| - unit, unit) { SumOfWholes(|blob| - unit, unit, unit); }
    }
  }

  lemma SumTimes(a: nat, b: nat, unit: nat)
    ensures (a + b) * unit == a * unit + b * unit
  {
  }

  /** A blob that ends inside a sample loses it: the count is right exactly when all blobs are aligned. */
  lemma {:induction false} SampleCount(blobs: seq<seq<Byte>>, unit: nat)
    requires unit > 0
    ensures |AllSamples(blobs, unit)| * unit <= |Concat(blobs)|
    ensures |AllSamples(blobs, unit)| * unit == |Concat(blobs)| <==> Aligned(blobs, unit)
  {
    hide Whole, Rows, Aligned, AllSamples, Concat;
    AlignedParts(blobs, unit);
    PartsCounted(blobs, unit);
    if blobs != [] {
      var front, last := blobs[..|blobs| - 1], blobs[|blobs| - 1];
      SampleCount(front, unit);
      RowCount(last, unit);
      CountsAdd(|AllSamples(front, unit)|, |Rows(last, unit)|, |Concat(front)|, |last|, unit);
    }
  }

  lemma PartsCounted(blobs: seq<seq<Byte>>, unit: nat)
    requires unit > 0
    ensures blobs == [] ==> |AllSamples(blobs, unit)| * unit == 0 && |Concat(blobs)| == 0
    ensures blobs != [] ==> var front, last := blobs[..|blobs| - 1], blobs[|blobs| - 1];
      && |AllSamples(blobs, unit)| == |AllSamples(front, unit)| + |Rows(last, unit)|
      && |Concat(blobs)| == |Concat(front)| + |last|
  {
  }

  lemma CountsAdd(a: nat, b: nat, x: nat, y: nat, unit: nat)
    requires a * unit <= x && b * unit <= y
    ensures (a + b) * unit <= x + y
    ensures (a + b) * unit == x + y <==> a * unit == x && b * unit == y
  {
    SumTimes(a, b, unit);
  }

  lemma AlignedParts(blobs: seq<seq<Byte>>, unit: nat)
    requires unit > 0
    ensures Aligned(blobs, unit) <==>
      blobs == [] || (Aligned(blobs[..|blobs| - 1], unit) && Whole(|blobs[|blobs| - 1]|, unit))
  {
    hide Whole;
    if blobs != [] { assert blobs == blobs[..|blobs| - 1] + [blobs[|blobs| - 1]]; }
  }

  lemma {:induction false} WaveByteCount(wave: seq<nat>, unit: nat)
    ensures |WaveBytes(wave, unit)| == |wave| * unit
  {
    if wave != [] {
      WaveByteCount(wave[..|wave| - 1], unit);
      assert (|wave| - 1) * unit + unit == |wave| * unit;
    }
  }

  lemma SameCount(a: nat, b: nat, unit: nat)
    requires unit > 0
    ensures a * unit == b * unit <==> a == b
    ensures a * unit <= b * unit ==> a <= b
  {
    if a < b { MulMonotone(a + 1, b, unit); } else if b < a { MulMonotone(b + 1, a, unit); }
    assert (a + 1) * unit == a * unit + unit && (b + 1) * unit == b * unit + unit;
  }

  /**
   Writing a session and reading it back. The samples are all there if and only if the unit size
   divides the chunk size or the data fits one chunk; otherwise samples are lost. Then the changes read
   are those of the waveform if and only if, with the vectorised scan, its values fit in 64 bits.
   */
  method WriteAndRead(changes: seq<Change>, total: nat, unit: nat, vectorised: bool)
    returns (out: seq<Change>, count: nat)
    requires unit > 0 && Increasing(changes, total)
    requires forall v | v in Expand(changes, total) :: v < Bound(unit)
    ensures count <= total && (count == total <==> Whole(CHUNK, unit) || total * unit <= CHUNK)
    ensures count == total ==>
      (out == Compress(Expand(changes, total)) <==> !vectorised || InWords(Expand(changes, total)))
  {
    hide Whole, Expand, WaveBytes, Compress, AllSamples, Aligned, Seen, Wrapped;
    var data := WriteData(changes, total, unit);
    var chunks := WriteChunks(data, unit);
    ghost var wave := Expand(changes, total);
    SamplesOfWave(wave, unit);
    WaveByteCount(wave, unit);
    SampleCount(chunks, unit);
    ScansSee(chunks, unit);
    WrappedIsSame(AllSamples(chunks, unit));
    out, count := UnitChanges(chunks, unit, vectorised);
    SameCount(count, total, unit);
    if Aligned(chunks, unit) { SrzipRoundTrip(changes, total, unit, chunks); }
  }

  /** A compressed waveform expands to itself. */
  lemma {:induction false} CompressedExpands(wave: seq<nat>)
    ensures Increasing(Compress(wave), |wave|) && Expand(Compress(wave), |wave|) == wave
    ensures wave != [] ==> LastValue(Compress(wave)) == wave[|wave| - 1]
  {
    hide Compress, Expand;
    if wave == [] {
      NothingToExpand();
    } else {
      var n := |wave| - 1;
      var front, v := wave[..n], wave[n];
      assert wave == front + [v];
      CompressedExpands(front);
      CompressStep(front, v);
      if n == 0 || wave[n] != wave[n - 1] {
        ExpandAppended(Compress(front), n, v);
      } else {
        ExpandLonger(Compress(front), n, n + 1);
        RepeatStep(v, 0);
      }
    }
  }

  lemma NothingToExpand()
    ensures Compress([]) == [] && Increasing([], 0) && Expand([], 0) == []
  {
  }

  lemma ExpandAppended(changes: seq<Change>, n: nat, v: nat)
    requires Increasing(changes, n)
    ensures Increasing(changes + [Change(n, v)], n + 1)
    ensures Expand(changes + [Change(n, v)], n + 1) == Expand(changes, n) + [v]
  {
    var longer := changes + [Change(n, v)];
    assert Front(longer) == changes;
    forall i | 0 <= i < |changes| ensures changes[i].index <= n { assert changes[i] in changes; }
  }

  /** Change lists without redundancy: from sample 0 on, each entry changes the value. */
  ghost predicate Canonical(changes: seq<Change>, total: nat) {
    && (changes == [] <==> total == 0) && (changes != [] ==> changes[0].index == 0)
    && (forall i, j | 0 <= i < j < |changes| :: changes[i].index < changes[j].index)
    && (forall i | 0 <= i < |changes| :: changes[i].index < total)
    && (forall i | 0 < i < |changes| :: changes[i].value != changes[i - 1].value)
  }

  lemma {:induction false} CompressRun(wave: seq<nat>, v: nat, n: nat)
    requires n > 0
    ensures Compress(wave + Repeat(v, n)) == Compress(wave + [v])
  {
    if n == 1 {
      assert Repeat(v, 1) == [v];
    } else {
      CompressRun(wave, v, n - 1);
      var longer := wave + Repeat(v, n - 1);
      assert wave + Repeat(v, n) == longer + [v];
      CompressStep(longer, v);
    }
  }

  /** A canonical change list survives writing and reading unchanged. */
  lemma {:induction false} CanonicalIsFixed(changes: seq<Change>, total: nat)
    requires Canonical(changes, total)
    ensures Increasing(changes, total) && Compress(Expand(changes, total)) == changes
  {
    hide Compress, Expand, Canonical;
    if changes == [] {
      NothingCanonical(total);
    } else {
      var front, last := Front(changes), changes[|changes| - 1];
      FrontIsCanonical(changes, total);
      CanonicalIsFixed(front, last.index);
      var wave := Expand(front, last.index);
      LastOfExpand(front, last.index);
      CompressRun(wave, last.value, total - last.index);
      CompressStep(wave, last.value);
      ExpandFront(changes, total);
    }
  }

  lemma NothingCanonical(total: nat)
    requires Canonical([], total)
    ensures Increasing([], total) && Compress(Expand([], total)) == []
  {
  }

  lemma CanonicalIncreases(changes: seq<Change>, total: nat)
    requires Canonical(changes, total)
    ensures Increasing(changes, total)
  {
  }

  lemma FrontIsCanonical(changes: seq<Change>, total: nat)
    requires Canonical(changes, total) && changes != []
    ensures var front, last := Front(changes), changes[|changes| - 1];
      && Canonical(front, last.index) && Increasing(changes, total) && last.index < total
      && (front != [] ==> last.value != LastValue(front)) && changes == front + [last]
      && (last.index == 0 <==> front == [])
  {
    hide Increasing;
    CanonicalIncreases(changes, total);
    var front, last := Front(changes), changes[|changes| - 1];
    assert changes == front + [last];
  }

  lemma ExpandFront(changes: seq<Change>, total: nat)
    requires changes != [] && Increasing(changes, total)
    requires Increasing(Front(changes), changes[|changes| - 1].index) && changes[|changes| - 1].index <= total
    ensures var last := changes[|changes| - 1];
      Expand(changes, total) == Expand(Front(changes), last.index) + Repeat(last.value, total - last.index)
  {
  }

  lemma LastOfExpand(changes: seq<Change>, total: nat)
    requires Canonical(changes, total) && Increasing(changes, total)
    ensures total > 0 ==> Expand(changes, total)[total - 1] == LastValue(changes)
  {
  }

  // ------------------------------------------------------------ one probe

  function BitWave(wave: seq<nat>, bit: nat): (r: seq<nat>)
    ensures |r| == |wave|
  {
    seq(|wave|, i requires 0 <= i < |wave| => if Bit(wave[i], bit) then 1 else 0)
  }

  /** The scalar changes of one probe: bit number bit of the unit values. */
  method ProbeChanges(changes: seq<Change>, bit: nat) returns (probe: seq<Change>)
    ensures probe == Probe(changes, bit)
  {
    probe := [];
    var last: Option<nat> := None;
    for i := 0 to |changes|
      invariant probe == Probe(changes[..i], bit)
      invariant last == if probe == [] then None else Some(LastValue(probe))
    {
      assert changes[..i + 1][..i] == changes[..i];
      var v := if Bit(changes[i].value, bit) then 1 else 0;
      if last != Some(v) {
        probe := probe + [Change(changes[i].index, v)];
        last := Some(v);
      }
    }
    assert changes[..|changes|] == changes;
  }

  function Probe(changes: seq<Change>, bit: nat): seq<Change> {
    if changes == [] then []
    else
      var front, last := Probe(Front(changes), bit), changes[|changes| - 1];
      var v := if Bit(last.value, bit) then 1 else 0;
      if front == [] || LastValue(front) != v then front + [Change(last.index, v)] else front
  }

  /** Scanning the unit changes for one bit gives the compressed waveform of that bit. */
  lemma {:induction false} ProbeIsBitWave(wave: seq<nat>, bit: nat)
    ensures Probe(Compress(wave), bit) == Compress(BitWave(wave, bit))
    ensures wave != [] ==> EndsWith(Compress(BitWave(wave, bit)), BitWave(wave, bit)[|wave| - 1])
  {
    hide Bit, Compress, Probe;
    if wave == [] {
      NothingToProbe(bit);
    } else {
      var n := |wave| - 1;
      var front, v := wave[..n], wave[n];
      assert wave == front + [v];
      ProbeIsBitWave(front, bit);
      NothingToProbe(bit);
      CompressStep(front, v);
      var b := if Bit(v, bit) then 1 else 0;
      CompressStep(BitWave(front, bit), b);
      assert BitWave(wave, bit) == BitWave(front, bit) + [b];
      if n == 0 || front[n - 1] != v {
        ProbeStep(Compress(front), Change(n, v), bit);
      }
    }
  }

  ghost predicate EndsWith(changes: seq<Change>, v: nat) { changes != [] && LastValue(changes) == v }

  lemma NothingToProbe(bit: nat)
    ensures Compress([]) == [] && Probe([], bit) == [] && BitWave([], bit) == []
  {
  }

  lemma ProbeStep(changes: seq<Change>, c: Change, bit: nat)
    ensures var before, v := Probe(changes, bit), if Bit(c.value, bit) then 1 else 0;
      Probe(changes + [c], bit) == if EndsWith(before, v) then before else before + [Change(c.index, v)]
  {
    assert Front(changes + [c]) == changes;
  }
}
