/**
 Records of the on-board capture unit (fpga/host/pe_scope.py: unpack, pack, decode, Capture.check).

 A record is a 72-bit word: a 22-bit stamp, a kind, the mask of the channels that changed and the
 levels of all channels. Full stamps are recovered by unwrapping the 22-bit fields.
 */
module ScopeRecords {
  import opened Results
  import opened Arith
  import opened Bits

  const K_CHANGE := 0
  const K_START := 1
  const K_MARK := 2
  const K_END := 3
  const STAMPS := 0x40_0000
  const MARK_INTERVAL := 0x20_0000
  const VECTORS := 0x100_0000
  const STATUS_STAMPS := 0x1_0000_0000_0000
  const WORDS := 0x100_0000_0000_0000_0000

  datatype Record = Record(stamp: nat, kind: nat, mask: nat, values: nat)

  datatype ScopeError =
    | NoStart | StartStamp | SecondStart(index: nat) | AfterEnd(index: nat) | NoAdvance(index: nat)
    | Marker(index: nat) | EmptyChange(index: nat) | EndStamp
    | MaskOutside(index: nat) | SilentChange(index: nat) | ActivityCount(ch: nat)

  // ------------------------------------------------------------ words

  /** The stamp field, the kind, the mask and the levels of a word. */
  function Unpack(raw: nat): (nat, nat, nat, nat) {
    (raw % STAMPS, raw / STAMPS % 4, raw / VECTORS % VECTORS, raw / STATUS_STAMPS % VECTORS)
  }

  function Pack(r: Record): nat {
    (r.values % VECTORS) * STATUS_STAMPS + (r.mask % VECTORS) * VECTORS + (r.kind % 4) * STAMPS + r.stamp % STAMPS
  }

  ghost predicate InRange(r: Record) { r.kind < 4 && r.mask < VECTORS && r.values < VECTORS }

  /** A word laid out as four fields. */
  function Join(s22: nat, kind: nat, mask: nat, values: nat): nat {
    values * STATUS_STAMPS + mask * VECTORS + kind * STAMPS + s22
  }

  ghost predicate Fields(s22: nat, kind: nat, mask: nat, values: nat) {
    s22 < STAMPS && kind < 4 && mask < VECTORS && values < VECTORS
  }

  lemma LowFields(s22: nat, kind: nat, mask: nat, values: nat)
    requires Fields(s22, kind, mask, values)
    ensures var w := Join(s22, kind, mask, values); w % STAMPS == s22 && w / STAMPS % 4 == kind
  {
    var w, high := Join(s22, kind, mask, values), values * VECTORS * 4 + mask * 4 + kind;
    DivUnique(w, STAMPS, high, s22);
    DivUnique(high, 4, values * VECTORS + mask, kind);
  }

  lemma HighFields(s22: nat, kind: nat, mask: nat, values: nat)
    requires Fields(s22, kind, mask, values)
    ensures var w := Join(s22, kind, mask, values);
      w / VECTORS % VECTORS == mask && w / STATUS_STAMPS == values && w < WORDS
  {
    var w := Join(s22, kind, mask, values);
    DivUnique(w, VECTORS, values * VECTORS + mask, kind * STAMPS + s22);
    DivUnique(values * VECTORS + mask, VECTORS, values, mask);
    DivUnique(w, STATUS_STAMPS, values, mask * VECTORS + kind * STAMPS + s22);
  }

  lemma SplitOfJoin(s22: nat, kind: nat, mask: nat, values: nat)
    requires Fields(s22, kind, mask, values)
    ensures Unpack(Join(s22, kind, mask, values)) == (s22, kind, mask, values)
    ensures Join(s22, kind, mask, values) < WORDS
  {
    LowFields(s22, kind, mask, values);
    HighFields(s22, kind, mask, values);
    DivUnique(values, VECTORS, 0, values);
  }

  /** Every word is its four fields and an excess above 72 bits. */
  lemma WordIsFields(raw: nat)
    ensures var (s22, kind, mask, values) := Unpack(raw);
      Fields(s22, kind, mask, values) && raw % WORDS == Join(s22, kind, mask, values)
  {
    var a := raw / STAMPS;
    var b := a / 4;
    var c := b / VECTORS;
    assert raw == a * STAMPS + raw % STAMPS && a == b * 4 + a % 4 && b == c * VECTORS + b % VECTORS;
    assert c == c / VECTORS * VECTORS + c % VECTORS;
    Regroup(raw, a, b, c);
    DivUnique(raw, WORDS, c / VECTORS, Join(raw % STAMPS, a % 4, b % VECTORS, c % VECTORS));
  }

  lemma Regroup(raw: nat, a: nat, b: nat, c: nat)
    requires a == raw / STAMPS && b == a / 4 && c == b / VECTORS
    ensures b == raw / VECTORS && c == raw / STATUS_STAMPS
  {
    DivUnique(raw, VECTORS, b, a % 4 * STAMPS + raw % STAMPS);
    DivUnique(raw, STATUS_STAMPS, c, b % VECTORS * VECTORS + a % 4 * STAMPS + raw % STAMPS);
  }

  /** The fields come back from the packed word; only the high bits of the stamp are lost. */
  lemma UnpackPack(r: Record)
    requires InRange(r)
    ensures Unpack(Pack(r)) == (r.stamp % STAMPS, r.kind, r.mask, r.values) && Pack(r) < WORDS
  {
    DivSmall(r.values, VECTORS);
    DivSmall(r.mask, VECTORS);
    DivSmall(r.kind, 4);
    hide Unpack;
    assert Pack(r) == Join(r.stamp % STAMPS, r.kind, r.mask, r.values);
    SplitOfJoin(r.stamp % STAMPS, r.kind, r.mask, r.values);
  }

  /** Packing the fields of a word gives back its low 72 bits. */
  lemma PackUnpack(raw: nat, r: Record)
    requires (r.stamp % STAMPS, r.kind, r.mask, r.values) == Unpack(raw)
    ensures Pack(r) == raw % WORDS && InRange(r)
  {
    hide Unpack;
    WordIsFields(raw);
    DivSmall(r.values, VECTORS);
    DivSmall(r.mask, VECTORS);
    DivSmall(r.kind, 4);
  }

  lemma LowBits(word: nat)
    ensures Unpack(word % WORDS) == Unpack(word)
  {
    hide Unpack;
    WordIsFields(word);
    var (s22, kind, mask, values) := Unpack(word);
    SplitOfJoin(s22, kind, mask, values);
  }

  /** The layout, bit by bit: the stamp from bit 0, the kind from 22, the mask from 24, the levels from 48. */
  lemma FieldBits(raw: nat, i: nat)
    ensures var (s22, kind, mask, values) := Unpack(raw);
      && (i < 22 ==> Bit(s22, i) == Bit(raw, i)) && (i < 2 ==> Bit(kind, i) == Bit(raw, 22 + i))
      && (i < 24 ==> Bit(mask, i) == Bit(raw, 24 + i)) && (i < 24 ==> Bit(values, i) == Bit(raw, 48 + i))
  {
    hide Bit;
    Powers();
    if i < 22 { BitOfLow(raw, 22, i); }
    FieldBit(raw, 22, STAMPS, 2, 4, i);
    FieldBit(raw, 24, VECTORS, 24, VECTORS, i);
    FieldBit(raw, 48, STATUS_STAMPS, 24, VECTORS, i);
  }

  lemma Powers()
    ensures Power(2) == 4 && Power(22) == STAMPS && Power(24) == VECTORS && Power(48) == STATUS_STAMPS
  {
    assert Power(12) == 0x1000;
    assert Power(22) == 0x400 * Power(12) && Power(24) == 0x1000 * Power(12);
    assert Power(36) == 0x1000 * Power(24) && Power(48) == 0x1000 * Power(36);
  }

  /** A field of n bits from bit k on. */
  lemma FieldBit(raw: nat, k: nat, p: nat, n: nat, q: nat, i: nat)
    requires p == Power(k) && q == Power(n)
    ensures p > 0 && q > 0 && (i < n ==> Bit(raw / p % q, i) == Bit(raw, k + i))
  {
    hide Bit, Power;
    ShiftIs(raw, k, p);
    PowerIsPositive(n);
    if i < n {
      BitOfLow(Shift(raw, k), n, i);
      BitOfShift(raw, k, i);
    }
  }

  // ------------------------------------------------------------ well-formed record lists

  /** What the format allows after a record, or at the start. */
  ghost predicate Admissible(prev: Option<Record>, r: Record, start: nat) {
    && InRange(r)
    && match prev
       case None => r.kind == K_START && r.stamp == start
       case Some(p) =>
         && r.kind != K_START && p.kind != K_END && 0 < r.stamp - p.stamp < STAMPS
         && (r.kind == K_MARK ==> r.mask == 0 && r.stamp % MARK_INTERVAL == 0)
         && (r.kind == K_CHANGE ==> r.mask != 0)
  }

  ghost function Previous(recs: seq<Record>, i: nat): Option<Record>
    requires i <= |recs|
  {
    if i == 0 then None else Some(recs[i - 1])
  }

  ghost predicate Chained(recs: seq<Record>, start: nat) {
    forall i | 0 <= i < |recs| :: Admissible(Previous(recs, i), recs[i], start)
  }

  /** A list starts with the start record and goes on, less than a turn of the stamp at a time, up to an end record. */
  lemma ChainGrows(recs: seq<Record>, r: Record, start: nat)
    ensures Chained([], start) && (Chained([r], start) <==> InRange(r) && r.kind == K_START && r.stamp == start)
    ensures recs != [] ==> var last := recs[|recs| - 1];
      Chained(recs + [r], start) <==>
        && Chained(recs, start) && InRange(r) && last.kind != K_END && r.kind != K_START
        && last.stamp < r.stamp < last.stamp + STAMPS
        && (r.kind != K_MARK || (r.mask == 0 && r.stamp % MARK_INTERVAL == 0)) && (r.kind != K_CHANGE || r.mask != 0)
  {
    hide Chained, InRange;
    ChainStep([], r, start);
    ChainStep(recs, r, start);
    assert [] + [r] == [r];
  }

  lemma ChainStep(recs: seq<Record>, r: Record, start: nat)
    ensures Chained([], start)
    ensures Chained(recs + [r], start) <==>
      Chained(recs, start) && Admissible(if recs == [] then None else Some(recs[|recs| - 1]), r, start)
  {
    hide Admissible;
    var grown := recs + [r];
    assert forall i | 0 <= i < |recs| :: Previous(grown, i) == Previous(recs, i) && grown[i] == recs[i];
    assert grown[|recs|] == r;
    if Chained(grown, start) {
      forall i | 0 <= i < |recs| ensures Admissible(Previous(recs, i), recs[i], start) {
        assert Admissible(Previous(grown, i), grown[i], start);
      }
    }
  }

  predicate EndAgrees(recs: seq<Record>, end: Option<nat>) {
    recs != [] && recs[|recs| - 1].kind == K_END && end.Some?
    ==> recs[|recs| - 1].stamp % STATUS_STAMPS == end.value
  }

  /** The status counts 48 bits: it is below 2^48, and whole turns of it make up the stamp of an end record. */
  lemma EndAgreesMeans(recs: seq<Record>, end: Option<nat>)
    ensures EndAgrees(recs, end) <==>
      (recs == [] || recs[|recs| - 1].kind != K_END || end.None?
       || (end.value < 0x1_0000_0000_0000 && (recs[|recs| - 1].stamp - end.value) % 0x1_0000_0000_0000 == 0))
  {
    if recs != [] && end.Some? && end.value < STATUS_STAMPS {
      var stamp := recs[|recs| - 1].stamp;
      DivPlus(stamp - end.value, STATUS_STAMPS, 0);
    }
  }

  /** The record lists of the format, for a status with these start and end stamps. */
  ghost predicate WellFormed(recs: seq<Record>, start: nat, end: Option<nat>) {
    Chained(recs, start) && EndAgrees(recs, end)
  }

  /** The words of a record list. */
  ghost predicate Encodes(raw: seq<nat>, recs: seq<Record>) {
    |raw| == |recs| && forall i | 0 <= i < |recs| :: raw[i] % WORDS == Pack(recs[i])
  }

  /** One word after a known record is an admissible record in at most one way. */
  lemma AdmissibleIsUnique(prev: Option<Record>, r: Record, r': Record, start: nat)
    requires Admissible(prev, r, start) && Admissible(prev, r', start) && Pack(r) == Pack(r')
    ensures r == r'
  {
    UnpackPack(r);
    UnpackPack(r');
    hide Pack, Unpack;
    if prev.Some? {
      var p := prev.value.stamp;
      SameResidue(r.stamp, r'.stamp, p);
    }
  }

  lemma SameResidue(a: nat, b: nat, p: nat)
    requires p < a < p + STAMPS && p < b < p + STAMPS && a % STAMPS == b % STAMPS
    ensures a == b
  {
  }

  lemma {:induction false} DecodingIsUnique(recs: seq<Record>, recs': seq<Record>, start: nat)
    requires Chained(recs, start) && Chained(recs', start) && |recs| <= |recs'|
    requires forall i | 0 <= i < |recs| :: Pack(recs[i]) == Pack(recs'[i])
    ensures recs == recs'[..|recs|]
  {
    hide Pack, Admissible;
    if recs != [] {
      var n := |recs| - 1;
      assert forall i | 0 <= i < n :: Previous(recs[..n], i) == Previous(recs, i);
      DecodingIsUnique(recs[..n], recs', start);
      assert Previous(recs, n) == Previous(recs', n);
      AdmissibleIsUnique(Previous(recs, n), recs[n], recs'[n], start);
    }
  }

  // ------------------------------------------------------------ decoding

  /** The record of word i after a known record, or the first violation of the format. */
  method DecodeWord(i: nat, prev: Option<Record>, word: nat, start: nat) returns (res: Result<Record, ScopeError>)
    requires prev.None? <==> i == 0
    ensures res.Ok? ==> Admissible(prev, res.value, start) && Pack(res.value) == word % WORDS
    ensures res.Err? ==> forall r | Admissible(prev, r, start) :: Pack(r) != word % WORDS
  {
    hide Pack, Unpack;
    var (s22, kind, mask, values) := Unpack(word);
    forall r | Admissible(prev, r, start) && Pack(r) == word % WORDS
      ensures (r.stamp % STAMPS, r.kind, r.mask, r.values) == (s22, kind, mask, values)
    {
      UnpackPack(r);
      LowBits(word);
    }
    WordIsFields(word);
    var full: nat;
    if i == 0 {
      if kind != K_START { return Err(NoStart); }
      if s22 != start % STAMPS { return Err(StartStamp); }
      full := start;
    } else {
      var p := prev.value;
      if kind == K_START { return Err(SecondStart(i)); }
      if p.kind == K_END { return Err(AfterEnd(i)); }
      var delta := (s22 - p.stamp) % STAMPS;
      forall r | Admissible(prev, r, start) && r.stamp % STAMPS == s22 ensures r.stamp == p.stamp + delta {
        Unwrapped(r.stamp, p.stamp);
      }
      if delta == 0 { return Err(NoAdvance(i)); }
      full := p.stamp + delta;
      Advanced(p.stamp, s22);
      if kind == K_MARK && (mask != 0 || full % MARK_INTERVAL != 0) { return Err(Marker(i)); }
      if kind == K_CHANGE && mask == 0 { return Err(EmptyChange(i)); }
    }
    var r := Record(full, kind, mask, values);
    PackUnpack(word, r);
    return Ok(r);
  }

  lemma Advanced(prev: nat, s22: nat)
    requires s22 < STAMPS
    ensures (prev + (s22 - prev) % STAMPS) % STAMPS == s22
  {
  }

  lemma Unwrapped(stamp: nat, prev: nat)
    requires prev < stamp < prev + STAMPS
    ensures stamp == prev + (stamp % STAMPS - prev) % STAMPS
  {
  }

  /** The first |out| words decode to out. */
  ghost predicate DecodedSoFar(raw: seq<nat>, out: seq<Record>, start: nat) {
    |out| <= |raw| && Chained(out, start) && Encodes(raw[..|out|], out)
  }

  lemma DecodedOneMore(raw: seq<nat>, out: seq<Record>, r: Record, start: nat)
    requires DecodedSoFar(raw, out, start) && |out| < |raw|
    requires Admissible(Previous(out, |out|), r, start) && Pack(r) == raw[|out|] % WORDS
    ensures DecodedSoFar(raw, out + [r], start)
  {
    hide Admissible, Pack;
    var out' := out + [r];
    forall j | 0 <= j < |out'| ensures Admissible(Previous(out', j), out'[j], start) {
      if j < |out| { assert Previous(out', j) == Previous(out, j); }
    }
  }

  /** Whatever well-formed list packs to the words starts with what was decoded. */
  lemma DecodedIsPrefix(raw: seq<nat>, out: seq<Record>, recs: seq<Record>, start: nat)
    requires DecodedSoFar(raw, out, start) && Chained(recs, start) && Encodes(raw, recs)
    ensures |recs| == |raw| && recs[..|out|] == out
    ensures |out| < |recs| ==> Previous(recs, |out|) == Previous(out, |out|)
  {
    hide Admissible, Pack;
    DecodingIsUnique(out, recs, start);
  }

  /**
   decode accepts a word list exactly when some well-formed record list packs to it, and then
   returns that list, which is the only one.
   */
  method Decode(raw: seq<nat>, start: nat, end: Option<nat>) returns (res: Result<seq<Record>, ScopeError>)
    ensures res.Ok? ==> WellFormed(res.value, start, end) && Encodes(raw, res.value)
    ensures res.Err? ==> forall recs | WellFormed(recs, start, end) :: !Encodes(raw, recs)
  {
    hide Pack, Admissible, Encodes, Chained;
    var out: seq<Record> := [];
    NothingDecoded(raw, start);
    for i := 0 to |raw|
      invariant |out| == i && DecodedSoFar(raw, out, start)
    {
      var prev := if i == 0 then None else Some(out[i - 1]);
      var r := DecodeWord(i, prev, raw[i], start);
      if r.Err? {
        forall recs | WellFormed(recs, start, end) && Encodes(raw, recs) ensures false {
          DecodedIsPrefix(raw, out, recs, start);
          NextIsAdmissible(raw, recs, i, start);
        }
        return Err(r.error);
      }
      DecodedOneMore(raw, out, r.value, start);
      out := out + [r.value];
    }
    assert raw[..|raw|] == raw;
    if !EndAgrees(out, end) {
      forall recs | Chained(recs, start) && Encodes(raw, recs) ensures recs == out {
        DecodedIsPrefix(raw, out, recs, start);
        EncodesLength(raw, recs);
      }
      return Err(EndStamp);
    }
    return Ok(out);
  }

  lemma EncodesLength(raw: seq<nat>, recs: seq<Record>)
    requires Encodes(raw, recs)
    ensures |recs| == |raw|
  {
  }

  lemma NothingDecoded(raw: seq<nat>, start: nat)
    ensures DecodedSoFar(raw, [], start)
  {
  }

  lemma NextIsAdmissible(raw: seq<nat>, recs: seq<Record>, i: nat, start: nat)
    requires Chained(recs, start) && Encodes(raw, recs) && i < |recs|
    ensures Admissible(Previous(recs, i), recs[i], start) && raw[i] % WORDS == Pack(recs[i])
  {
  }

  // ------------------------------------------------------------ consistency of masks and levels

  const CHANNELS: nat := 24
  const SATURATED := 0xFFFF_FFFF

  /** The level of a channel just before record i. */
  ghost predicate LevelBefore(recs: seq<Record>, i: nat, ch: nat)
    requires i < |recs|
  {
    if i == 0 then Bit(recs[0].values, ch) != Bit(recs[0].mask, ch) else Bit(recs[i - 1].values, ch)
  }

  /** In record i, the mask marks exactly the enabled channels whose level changes. */
  ghost predicate MaskIsExact(recs: seq<Record>, enable: nat, i: nat)
    requires i < |recs|
  {
    forall ch: nat :: Bit(recs[i].mask, ch) <==>
      Bit(enable, ch) && LevelBefore(recs, i, ch) != Bit(recs[i].values, ch)
  }

  /** Every record's mask is exact. */
  ghost predicate Consistent(recs: seq<Record>, enable: nat) {
    forall i | 0 <= i < |recs| :: MaskIsExact(recs, enable, i)
  }

  /** The recorded edges of a channel: the stamp and the new level. */
  function Edges(recs: seq<Record>, ch: nat): seq<(nat, bool)> {
    if recs == [] then []
    else
      var last := recs[|recs| - 1];
      if Bit(last.mask, ch) then Edges(recs[..|recs| - 1], ch) + [(last.stamp, Bit(last.values, ch))]
      else Edges(recs[..|recs| - 1], ch)
  }

  /** The level of a channel before the capture. */
  function Initial(recs: seq<Record>, ch: nat): bool
    requires recs != []
  {
    Bit(Xor(recs[0].values, recs[0].mask), ch)
  }

  ghost predicate CountAgrees(recs: seq<Record>, activity: seq<nat>, ch: nat)
    requires ch < |activity|
  {
    activity[ch] == |Edges(recs, ch)| || activity[ch] == SATURATED
  }

  ghost predicate ActivityAgrees(recs: seq<Record>, enable: nat, activity: seq<nat>, channels: nat)
    requires activity == [] || channels <= |activity|
  {
    activity != [] ==> forall ch | 0 <= ch < channels && Bit(enable, ch) :: CountAgrees(recs, activity, ch)
  }

  /** The two mask tests of check, on whole vectors, say bit by bit that the mask is exact. */
  lemma MaskTests(recs: seq<Record>, enable: nat, i: nat, level: nat)
    requires i < |recs|
    requires forall ch: nat :: Bit(level, ch) <==> Bit(enable, ch) && LevelBefore(recs, i, ch)
    ensures AndNot(recs[i].mask, enable) == 0 && And(Xor(level, recs[i].values), enable) == recs[i].mask
      <==> MaskIsExact(recs, enable, i)
  {
    var outside, changed := AndNot(recs[i].mask, enable), And(Xor(level, recs[i].values), enable);
    forall ch: nat
      ensures Bit(outside, ch) <==> Bit(recs[i].mask, ch) && !Bit(enable, ch)
      ensures Bit(changed, ch) <==> Bit(enable, ch) && LevelBefore(recs, i, ch) != Bit(recs[i].values, ch)
    {
      BitOfAndNot(recs[i].mask, enable, ch);
      BitOfAnd(Xor(level, recs[i].values), enable, ch);
      BitOfXor(level, recs[i].values, ch);
    }
    if MaskIsExact(recs, enable, i) {
      forall ch: nat ensures Bit(outside, ch) == Bit(0, ch) { BitOfZero(ch); }
      SameBits(outside, 0);
      SameBits(changed, recs[i].mask);
    }
  }

  /** check passes exactly when every mask is exact and every activity counter agrees or is saturated. */
  method Check(recs: seq<Record>, enable: nat, activity: seq<nat>) returns (error: Option<ScopeError>)
    requires activity == [] || |activity| >= CHANNELS
    ensures error.None? <==> recs == [] || (Consistent(recs, enable) && ActivityAgrees(recs, enable, activity, CHANNELS))
  {
    if recs == [] { return None; }
    var level := And(Xor(recs[0].values, recs[0].mask), enable);
    forall ch: nat ensures Bit(level, ch) <==> Bit(enable, ch) && LevelBefore(recs, 0, ch) {
      BitOfAnd(Xor(recs[0].values, recs[0].mask), enable, ch);
      BitOfXor(recs[0].values, recs[0].mask, ch);
    }
    for i := 0 to |recs|
      invariant forall j | 0 <= j < i :: MaskIsExact(recs, enable, j)
      invariant i < |recs| ==> forall ch: nat :: Bit(level, ch) <==> Bit(enable, ch) && LevelBefore(recs, i, ch)
    {
      MaskTests(recs, enable, i, level);
      if AndNot(recs[i].mask, enable) != 0 { return Some(MaskOutside(i)); }
      if And(Xor(level, recs[i].values), enable) != recs[i].mask { return Some(SilentChange(i)); }
      level := And(recs[i].values, enable);
      forall ch: nat ensures Bit(level, ch) <==> Bit(enable, ch) && Bit(recs[i].values, ch) {
        BitOfAnd(recs[i].values, enable, ch);
      }
    }
    for ch := 0 to CHANNELS
      invariant ActivityAgrees(recs, enable, activity, ch)
    {
      if Bit(enable, ch) && activity != [] {
        var n := |Edges(recs, ch)|;
        if activity[ch] != n && activity[ch] != SATURATED {
          assert !CountAgrees(recs, activity, ch);
          return Some(ActivityCount(ch));
        }
      }
    }
    return None;
  }
}
