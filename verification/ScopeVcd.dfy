/**
 The VCD written for an on-board capture (fpga/host/pe_scope.py, Capture.write_vcd) and the reader
 that the analysis uses (demo/pe_capture.py: read_vcd, edges_of), on the tokens of section 18.2 of
 IEEE 1364-2005.
 */
module ScopeVcd {
  import opened Results
  import opened Bits
  import opened ScopeRecords

  /** A declared variable, the end of the header, a time, a scalar value (None for x or z), another keyword. */
  datatype Token =
    | Var(ident: char, name: nat)
    | EndDefinitions
    | Time(t: nat)
    | Scalar(level: Option<bool>, ident: char)
    | Keyword

  const WINDOW := '!'
  const WINDOW_NAME: nat := 24

  function Ident(k: nat): char
    requires k < CHANNELS
  {
    (37 + k) as char
  }

  lemma IdentsAre(j: nat, k: nat)
    requires j < k < CHANNELS
    ensures Ident(0) == '%' && Ident(CHANNELS - 1) == '<' && WINDOW < Ident(j) < Ident(k)
  {
  }

  // ------------------------------------------------------------ the writer

  function Level(b: bool, ident: char): Token { Scalar(Some(b), ident) }

  function Declarations(chans: seq<nat>, k: nat): seq<Token>
    requires k <= |chans| <= CHANNELS
  {
    if k == 0 then [Var(WINDOW, WINDOW_NAME)] else Declarations(chans, k - 1) + [Var(Ident(k - 1), chans[k - 1])]
  }

  function InitialLevels(recs: seq<Record>, chans: seq<nat>, k: nat): seq<Token>
    requires recs != [] && k <= |chans| <= CHANNELS
  {
    if k == 0 then [] else InitialLevels(recs, chans, k - 1) + [Level(Initial(recs, chans[k - 1]), Ident(k - 1))]
  }

  /** The value lines of one record: the channels in its mask. */
  function Lines(r: Record, chans: seq<nat>, k: nat): seq<Token>
    requires k <= |chans| <= CHANNELS
  {
    if k == 0 then []
    else if Bit(r.mask, chans[k - 1]) then
      Lines(r, chans, k - 1) + [Level(Bit(r.values, chans[k - 1]), Ident(k - 1))]
    else Lines(r, chans, k - 1)
  }

  function RecordLines(recs: seq<Record>, chans: seq<nat>, i: nat): seq<Token>
    requires i < |recs| && |chans| <= CHANNELS
  {
    (if i == 0 then [Level(true, WINDOW)] else []) + Lines(recs[i], chans, |chans|)
  }

  function RecordTokens(recs: seq<Record>, chans: seq<nat>, i: nat): seq<Token>
    requires i < |recs| && |chans| <= CHANNELS
  {
    var lines := RecordLines(recs, chans, i);
    if lines == [] then [] else [Time(recs[i].stamp)] + lines
  }

  function StartTime(recs: seq<Record>): nat
    requires recs != []
  {
    if recs[0].stamp == 0 then 0 else recs[0].stamp - 1
  }

  function Dump(recs: seq<Record>, chans: seq<nat>): seq<Token>
    requires recs != [] && |chans| <= CHANNELS
  {
    [Time(StartTime(recs)), Keyword, Level(false, WINDOW)] + InitialLevels(recs, chans, |chans|) + [Keyword]
  }

  /** The value section up to and including record i - 1. */
  function Body(recs: seq<Record>, chans: seq<nat>, i: nat): seq<Token>
    requires recs != [] && i <= |recs| && |chans| <= CHANNELS
  {
    if i == 0 then Dump(recs, chans) else Body(recs, chans, i - 1) + RecordTokens(recs, chans, i - 1)
  }

  function Closing(recs: seq<Record>): seq<Token>
    requires recs != []
  {
    [Time(recs[|recs| - 1].stamp + 1), Level(false, WINDOW)]
  }

  datatype VcdError = EmptyCapture

  /** chans are the channels to write, in increasing order. */
  method WriteVcd(recs: seq<Record>, chans: seq<nat>) returns (res: Result<seq<Token>, VcdError>)
    requires |chans| <= CHANNELS
    ensures recs == [] ==> res == Err(EmptyCapture)
    ensures recs != [] ==> res == Ok(Declarations(chans, |chans|) + [EndDefinitions]
                                     + Body(recs, chans, |recs|) + Closing(recs))
  {
    hide Initial, RecordLines;
    if recs == [] { return Err(EmptyCapture); }
    var head := [Var(WINDOW, WINDOW_NAME)];
    var init: seq<Token> := [];
    for k := 0 to |chans|
      invariant head == Declarations(chans, k) && init == InitialLevels(recs, chans, k)
    {
      head := head + [Var(Ident(k), chans[k])];
      init := init + [Level(Initial(recs, chans[k]), Ident(k))];
    }
    var body := [Time(StartTime(recs)), Keyword, Level(false, WINDOW)] + init + [Keyword];
    for i := 0 to |recs|
      invariant body == Body(recs, chans, i)
    {
      var lines := WriteLines(recs, chans, i);
      if lines != [] {
        body := body + ([Time(recs[i].stamp)] + lines);
      }
    }
    return Ok(head + [EndDefinitions] + body + Closing(recs));
  }

  method WriteLines(recs: seq<Record>, chans: seq<nat>, i: nat) returns (lines: seq<Token>)
    requires i < |recs| && |chans| <= CHANNELS
    ensures lines == RecordLines(recs, chans, i)
  {
    lines := if i == 0 then [Level(true, WINDOW)] else [];
    ghost var first := lines;
    for k := 0 to |chans|
      invariant lines == first + Lines(recs[i], chans, k)
    {
      if Bit(recs[i].mask, chans[k]) {
        lines := lines + [Level(Bit(recs[i].values, chans[k]), Ident(k))];
      }
    }
  }

  // ------------------------------------------------------------ the reader

  type Change = (nat, Option<bool>)

  /** The time in force after some tokens of the value section. */
  function Clock(tokens: seq<Token>): nat {
    if tokens == [] then 0
    else if tokens[|tokens| - 1].Time? then tokens[|tokens| - 1].t
    else Clock(tokens[..|tokens| - 1])
  }

  /** The changes that some tokens of the value section give an identifier: repeated values are dropped. */
  function Changes(tokens: seq<Token>, ident: char): seq<Change> {
    if tokens == [] then []
    else
      var front, last := tokens[..|tokens| - 1], tokens[|tokens| - 1];
      var before := Changes(front, ident);
      if last.Scalar? && last.ident == ident && (before == [] || before[|before| - 1].1 != last.level)
      then before + [(Clock(front), last.level)] else before
  }

  /** A declared signal with its changes. */
  datatype Signal = Signal(name: nat, ident: char, changes: seq<Change>)

  /** Where the value section starts. */
  function HeaderLength(tokens: seq<Token>): nat
    ensures HeaderLength(tokens) <= |tokens|
  {
    if tokens == [] then 0
    else if tokens[0].EndDefinitions? then 1
    else 1 + HeaderLength(tokens[1..])
  }

  function Declared(tokens: seq<Token>): (signals: seq<Signal>)
    ensures forall s | s in signals :: s.changes == []
  {
    if tokens == [] || tokens[0].EndDefinitions? then []
    else (if tokens[0].Var? then [Signal(tokens[0].name, tokens[0].ident, [])] else []) + Declared(tokens[1..])
  }

  /** The signals that a value section gives, each with the changes of its identifier. */
  ghost predicate Recorded(signals: seq<Signal>, declared: seq<Signal>, tokens: seq<Token>) {
    && |signals| == |declared|
    && forall s | 0 <= s < |signals| ::
         signals[s] == declared[s].(changes := Changes(tokens, declared[s].ident))
  }

  /** read_vcd: the header, then the value loop. */
  method ReadVcd(tokens: seq<Token>) returns (signals: seq<Signal>)
    ensures Recorded(signals, Declared(tokens), tokens[HeaderLength(tokens)..])
  {
    signals := [];
    var i := 0;
    var inHeader := true;
    while inHeader && i < |tokens|
      invariant 0 <= i <= |tokens|
      invariant inHeader ==> Declared(tokens) == signals + Declared(tokens[i..])
      invariant inHeader ==> HeaderLength(tokens) == i + HeaderLength(tokens[i..])
      invariant !inHeader ==> Declared(tokens) == signals && HeaderLength(tokens) == i
      decreases |tokens| - i
    {
      if tokens[i].EndDefinitions? {
        inHeader := false;
      } else if tokens[i].Var? {
        signals := signals + [Signal(tokens[i].name, tokens[i].ident, [])];
      }
      i := i + 1;
    }
    signals := ReadValues(signals, tokens[i..]);
  }

  /** The value loop, with its table of last values. */
  method ReadValues(declared: seq<Signal>, tokens: seq<Token>) returns (signals: seq<Signal>)
    requires forall s | s in declared :: s.changes == []
    ensures Recorded(signals, declared, tokens)
  {
    hide Clock, Changes, IsLastTable;
    signals := declared;
    NoValues(declared);
    var t := 0;
    var last: map<char, Option<bool>> := map[];
    for i := 0 to |tokens|
      invariant t == Clock(tokens[..i]) && IsLastTable(last, tokens[..i])
      invariant Recorded(signals, declared, tokens[..i])
    {
      var tok := tokens[i];
      assert tokens[..i + 1] == tokens[..i] + [tok];
      ClockStep(tokens[..i], tok);
      forall ident ensures Changes(tokens[..i + 1], ident) ==
        Changes(tokens[..i], ident) + if IsChange(last, tok, ident) then [(t, tok.level)] else []
      {
        ChangesStep(tokens[..i], tok, last, ident);
      }
      TableStep(tokens[..i], tok, last);
      match tok {
        case Time(time) =>
          t := time;
        case Scalar(level, ident) =>
          if !(ident in last && last[ident] == level) {
            last := last[ident := level];
            signals := seq(|signals|, s requires 0 <= s < |signals| =>
              if signals[s].ident == ident then signals[s].(changes := signals[s].changes + [(t, level)])
              else signals[s]);
          }
        case _ =>
      }
    }
    assert tokens[..|tokens|] == tokens;
  }

  /** The token gives an identifier a value that differs from its last one. */
  predicate IsChange(last: map<char, Option<bool>>, tok: Token, ident: char) {
    tok.Scalar? && tok.ident == ident && !(ident in last && last[ident] == tok.level)
  }

  /** The table entry of an identifier is the value of its last change. */
  ghost predicate HasLast(last: map<char, Option<bool>>, cs: seq<Change>, ident: char) {
    if cs == [] then ident !in last else ident in last && last[ident] == cs[|cs| - 1].1
  }

  ghost predicate IsLastTable(last: map<char, Option<bool>>, tokens: seq<Token>) {
    forall ident :: HasLast(last, Changes(tokens, ident), ident)
  }

  lemma ClockStep(tokens: seq<Token>, tok: Token)
    ensures Clock(tokens + [tok]) == if tok.Time? then tok.t else Clock(tokens)
  {
    assert (tokens + [tok])[..|tokens|] == tokens;
  }

  lemma ChangesStep(tokens: seq<Token>, tok: Token, last: map<char, Option<bool>>, ident: char)
    requires IsLastTable(last, tokens)
    ensures Changes(tokens + [tok], ident)
         == Changes(tokens, ident) + if IsChange(last, tok, ident) then [(Clock(tokens), tok.level)] else []
  {
    assert (tokens + [tok])[..|tokens|] == tokens;
    assert HasLast(last, Changes(tokens, ident), ident);
  }

  lemma TableStep(tokens: seq<Token>, tok: Token, last: map<char, Option<bool>>)
    requires IsLastTable(last, tokens)
    ensures IsLastTable(if tok.Scalar? && IsChange(last, tok, tok.ident) then last[tok.ident := tok.level] else last,
                        tokens + [tok])
  {
    hide Changes, IsLastTable;
    var last' := if tok.Scalar? && IsChange(last, tok, tok.ident) then last[tok.ident := tok.level] else last;
    forall ident ensures HasLast(last', Changes(tokens + [tok], ident), ident) {
      ChangesStep(tokens, tok, last, ident);
      EntryOf(tokens, last, ident);
    }
    TableFromEntries(tokens + [tok], last');
  }

  lemma EntryOf(tokens: seq<Token>, last: map<char, Option<bool>>, ident: char)
    requires IsLastTable(last, tokens)
    ensures HasLast(last, Changes(tokens, ident), ident)
  {
  }

  lemma TableFromEntries(tokens: seq<Token>, last: map<char, Option<bool>>)
    requires forall ident :: HasLast(last, Changes(tokens, ident), ident)
    ensures IsLastTable(last, tokens)
  {
  }

  lemma NoValues(declared: seq<Signal>)
    requires forall s | s in declared :: s.changes == []
    ensures Recorded(declared, declared, []) && IsLastTable(map[], []) && Clock([]) == 0
  {
  }

  predicate InWindow(tick: nat, start: Option<nat>, end: Option<nat>) {
    (start.Some? ==> start.value <= tick) && (end.Some? ==> tick <= end.value)
  }

  function Within(edges: seq<(nat, bool)>, start: Option<nat>, end: Option<nat>): (r: seq<(nat, bool)>)
    ensures start.None? && end.None? ==> r == edges
  {
    if edges == [] then []
    else
      var last := edges[|edges| - 1];
      Within(edges[..|edges| - 1], start, end) + if InWindow(last.0, start, end) then [last] else []
  }

  ghost predicate InTime(changes: seq<Change>) {
    forall i, j | 0 <= i < j < |changes| :: changes[i].0 <= changes[j].0
  }

  /** The first known level that precedes one of the first n changes inside the window. */
  function FirstLevel(changes: seq<Change>, start: Option<nat>, end: Option<nat>, n: nat): Option<bool>
    requires n <= |changes|
  {
    if n == 0 then None
    else
      var before := FirstLevel(changes, start, end, n - 1);
      if before.None? && InWindow(changes[n - 1].0, start, end) then LevelAfter(changes[..n - 1]) else before
  }

  /** The first change from index i on that lies past the end, where the scan stops. */
  function StopFrom(changes: seq<Change>, start: Option<nat>, end: Option<nat>, i: nat): (stop: nat)
    requires i <= |changes|
    ensures i <= stop <= |changes|
    decreases |changes| - i
  {
    if i == |changes| then i
    else if !(start.Some? && changes[i].0 < start.value) && end.Some? && changes[i].0 > end.value then i
    else StopFrom(changes, start, end, i + 1)
  }

  /**
   edges_of: the 0-to-1 and 1-to-0 transitions inside a window, and the first known level in it, up to
   the first change past the window.
   */
  method EdgesOf(changes: seq<Change>, start: Option<nat>, end: Option<nat>)
    returns (edges: seq<(nat, bool)>, initial: Option<bool>)
    ensures var stop := StopFrom(changes, start, end, 0);
      edges == Within(Transitions(changes[..stop]), start, end) && initial == FirstLevel(changes, start, end, stop)
  {
    hide Within, Transitions;
    edges, initial := [], None;
    var level: Option<bool> := None;
    NoTransitions(start, end);
    for i := 0 to |changes|
      invariant StopFrom(changes, start, end, i) == StopFrom(changes, start, end, 0)
      invariant level == LevelAfter(changes[..i])
      invariant edges == Within(Transitions(changes[..i]), start, end)
      invariant initial == FirstLevel(changes, start, end, i)
    {
      var (tick, v) := changes[i];
      TransitionsStep(changes, i, start, end);
      if start.Some? && tick < start.value {
        level := v;
        continue;
      }
      if end.Some? && tick > end.value {
        return;
      }
      if initial.None? { initial := level; }
      if v.Some? && level.Some? && v != level { edges := edges + [(tick, v.value)]; }
      level := v;
    }
  }

  /** Change i is to the level e.1 at e.0, from the other one. */
  ghost predicate EdgeAt(changes: seq<Change>, i: nat, e: (nat, bool)) {
    && 1 <= i < |changes| && changes[i].0 == e.0 && changes[i].1.Some? && changes[i].1.value == e.1
    && changes[i - 1].1.Some? && changes[i - 1].1.value != e.1
  }

  /** The edges of a window: its changes between two known levels that differ. */
  lemma {:induction false} EdgesAre(changes: seq<Change>, start: Option<nat>, end: Option<nat>, e: (nat, bool))
    ensures e in Within(Transitions(changes), start, end) <==>
      (start.Some? ==> start.value <= e.0) && (end.Some? ==> e.0 <= end.value) && exists i :: EdgeAt(changes, i, e)
  {
    hide Within, Transitions;
    NoTransitions(start, end);
    if changes != [] {
      var n := |changes| - 1;
      var front := changes[..n];
      EdgesAre(front, start, end, e);
      TransitionsStep(changes, n, start, end);
      assert changes[..n + 1] == changes;
      assert forall i: nat | i < n :: EdgeAt(front, i, e) <==> EdgeAt(changes, i, e);
      var v, level := changes[n].1, LevelAfter(front);
      assert EdgeAt(changes, n, e) <==>
        v.Some? && level.Some? && v.value != level.value && e == (changes[n].0, v.value);
    }
  }

  /** In time order nothing is lost by stopping there: the result is that of the whole list. */
  lemma StoppingIsHarmless(changes: seq<Change>, start: Option<nat>, end: Option<nat>)
    requires end.None? || InTime(changes)
    ensures var stop := StopFrom(changes, start, end, 0);
      && Within(Transitions(changes[..stop]), start, end) == Within(Transitions(changes), start, end)
      && FirstLevel(changes, start, end, stop) == FirstLevel(changes, start, end, |changes|)
  {
    hide Within, Transitions;
    var stop := StopFrom(changes, start, end, 0);
    StopIsPast(changes, start, end, 0);
    if stop < |changes| {
      NothingAfterEnd(changes, stop, start, end);
      NoLevelAfterEnd(changes, stop, |changes|, start, end);
    } else {
      assert changes[..stop] == changes;
    }
  }

  lemma {:induction false} StopIsPast(changes: seq<Change>, start: Option<nat>, end: Option<nat>, i: nat)
    requires i <= |changes|
    ensures var stop := StopFrom(changes, start, end, i);
      && (stop < |changes| ==>
            end.Some? && changes[stop].0 > end.value && (start.None? || start.value <= changes[stop].0))
      && forall j | i <= j < stop ::
           end.None? || changes[j].0 <= end.value || (start.Some? && changes[j].0 < start.value)
    decreases |changes| - i
  {
    if i < |changes| { StopIsPast(changes, start, end, i + 1); }
  }

  lemma NoTransitions(start: Option<nat>, end: Option<nat>)
    ensures Within(Transitions([]), start, end) == [] && LevelAfter([]) == None
  {
  }

  lemma {:induction false} NoLevelAfterEnd(changes: seq<Change>, i: nat, n: nat, start: Option<nat>, end: Option<nat>)
    requires InTime(changes) && i <= n <= |changes| && i < |changes| && end.Some? && changes[i].0 > end.value
    ensures FirstLevel(changes, start, end, n) == FirstLevel(changes, start, end, i)
  {
    if n > i {
      NoLevelAfterEnd(changes, i, n - 1, start, end);
      assert i == n - 1 || changes[i].0 <= changes[n - 1].0;
    }
  }

  /** The first of n changes that lies in the window and has a known level before it: that level is reported. */
  function FirstSeen(changes: seq<Change>, start: Option<nat>, end: Option<nat>, n: nat): (p: Option<nat>)
    requires n <= |changes|
    ensures p.Some? ==> 1 <= p.value < n && InWindow(changes[p.value].0, start, end) && changes[p.value - 1].1.Some?
    ensures FirstLevel(changes, start, end, n) == if p.Some? then changes[p.value - 1].1 else None
    ensures forall i | 1 <= i < n && InWindow(changes[i].0, start, end) && changes[i - 1].1.Some? ::
      p.Some? && p.value <= i
  {
    if n == 0 then None
    else
      var before := FirstSeen(changes, start, end, n - 1);
      if before.None? && InWindow(changes[n - 1].0, start, end) && LevelAfter(changes[..n - 1]).Some? then Some(n - 1)
      else before
  }

  /** Change i is a transition inside the window. */
  predicate IsTransition(changes: seq<Change>, start: Option<nat>, end: Option<nat>, i: nat) {
    && 1 <= i < |changes| && InWindow(changes[i].0, start, end)
    && changes[i].1.Some? && changes[i - 1].1.Some? && changes[i].1 != changes[i - 1].1
  }

  /** The first of n changes that is one. */
  function FirstTransition(changes: seq<Change>, start: Option<nat>, end: Option<nat>, n: nat): (t: Option<nat>)
    requires n <= |changes|
    ensures t.Some? ==> t.value < n && IsTransition(changes, start, end, t.value)
    ensures forall i: nat | i < (if t.Some? then t.value else n) :: !IsTransition(changes, start, end, i)
  {
    if n == 0 then None
    else
      var before := FirstTransition(changes, start, end, n - 1);
      if before.None? && IsTransition(changes, start, end, n - 1) then Some(n - 1) else before
  }

  lemma {:induction false} FirstEdgeIs(changes: seq<Change>, start: Option<nat>, end: Option<nat>, n: nat)
    requires n <= |changes|
    ensures var edges, t := Within(Transitions(changes[..n]), start, end), FirstTransition(changes, start, end, n);
      && (edges == [] <==> t.None?)
      && (edges != [] ==> edges[0] == (changes[t.value].0, changes[t.value].1.value))
  {
    hide Within, Transitions;
    if n == 0 {
      NoTransitions(start, end);
    } else {
      FirstEdgeIs(changes, start, end, n - 1);
      TransitionsStep(changes, n - 1, start, end);
    }
  }

  /**
   The reported level is the one before the first transition of the window if and only if the first known
   level that the window sees is that level; unknown levels in between can hide a change.
   */
  lemma LevelBeforeFirst(changes: seq<Change>, start: Option<nat>, end: Option<nat>, n: nat)
    requires n <= |changes| && Within(Transitions(changes[..n]), start, end) != []
    ensures var edges, level := Within(Transitions(changes[..n]), start, end), FirstLevel(changes, start, end, n);
      var p, t := FirstSeen(changes, start, end, n), FirstTransition(changes, start, end, n);
      && p.Some? && t.Some? && p.value <= t.value
      && (level == Some(!edges[0].1) <==> changes[p.value - 1].1 == changes[t.value - 1].1)
  {
    hide Within, Transitions, FirstLevel, FirstSeen, FirstTransition;
    FirstEdgeIs(changes, start, end, n);
    var t := FirstTransition(changes, start, end, n).value;
    assert IsTransition(changes, start, end, t);
    OtherLevel(changes[t].1, changes[t - 1].1);
  }

  lemma OtherLevel(v: Option<bool>, level: Option<bool>)
    requires v.Some? && level.Some? && v != level
    ensures level == Some(!v.value)
  {
    var x, y := v.value, level.value;
    assert v == Some(x) && level == Some(y) && x != y;
    assert y == !x;
  }

  /** In time order it is when no level between the two is unknown. */
  lemma KnownLevelBeforeFirst(changes: seq<Change>, start: Option<nat>, end: Option<nat>, n: nat)
    requires n <= |changes| && InTime(changes) && Within(Transitions(changes[..n]), start, end) != []
    requires var p, t := FirstSeen(changes, start, end, n), FirstTransition(changes, start, end, n);
      p.Some? && t.Some? ==> forall i | p.value <= i < t.value :: changes[i].1.Some?
    ensures FirstLevel(changes, start, end, n) == Some(!Within(Transitions(changes[..n]), start, end)[0].1)
  {
    hide Within, Transitions, FirstLevel, FirstSeen, FirstTransition, InTime, InWindow, IsTransition;
    LevelBeforeFirst(changes, start, end, n);
    var p, t := FirstSeen(changes, start, end, n).value, FirstTransition(changes, start, end, n).value;
    InsideWindow(changes, start, end, t);
    Between(changes, start, end, p, t);
    SteadyUpTo(changes, start, end, p, t);
  }

  lemma InsideWindow(changes: seq<Change>, start: Option<nat>, end: Option<nat>, t: nat)
    requires IsTransition(changes, start, end, t)
    ensures t < |changes| && InWindow(changes[t].0, start, end)
  {
  }

  lemma Between(changes: seq<Change>, start: Option<nat>, end: Option<nat>, p: nat, t: nat)
    requires InTime(changes) && p <= t < |changes| && InWindow(changes[p].0, start, end)
    requires InWindow(changes[t].0, start, end) || (end.Some? ==> changes[t].0 <= end.value)
    ensures forall i | p <= i <= t :: InWindow(changes[i].0, start, end)
  {
  }

  /** Without transitions and unknown levels the level stays. */
  lemma {:induction false} SteadyUpTo(changes: seq<Change>, start: Option<nat>, end: Option<nat>, p: nat, t: nat)
    requires 1 <= p <= t <= |changes| && changes[p - 1].1.Some? && forall i | p <= i < t :: changes[i].1.Some?
    requires forall i | p <= i < t :: InWindow(changes[i].0, start, end) && !IsTransition(changes, start, end, i)
    ensures changes[p - 1].1 == changes[t - 1].1
  {
    if t > p {
      SteadyUpTo(changes, start, end, p, t - 1);
      assert !IsTransition(changes, start, end, t - 1);
    }
  }

  /** In a window without transitions the reported level is the one at its end, when no level since is unknown. */
  lemma LevelOfQuietWindow(changes: seq<Change>, start: Option<nat>, end: Option<nat>, n: nat)
    requires n <= |changes| && InTime(changes) && Within(Transitions(changes[..n]), start, end) == []
    requires FirstLevel(changes, start, end, n).Some? && (end.Some? && n > 0 ==> changes[n - 1].0 <= end.value)
    requires var p := FirstSeen(changes, start, end, n);
      p.Some? ==> forall i | p.value <= i < n :: changes[i].1.Some?
    ensures FirstLevel(changes, start, end, n) == LevelAfter(changes[..n])
  {
    hide Within, Transitions, FirstLevel, FirstSeen, FirstTransition, InTime, InWindow, IsTransition;
    FirstEdgeIs(changes, start, end, n);
    var p := FirstSeen(changes, start, end, n).value;
    Between(changes, start, end, p, n - 1);
    SteadyUpTo(changes, start, end, p, n);
  }

  const HIDDEN: seq<Change> := [(0, Some(true)), (1, None), (2, Some(false)), (3, Some(true))]

  /** A change hidden by an unknown level: the level before the only transition is 0, and 1 is reported. */
  lemma UnknownHidesLevel()
    ensures InTime(HIDDEN) && Within(Transitions(HIDDEN), None, None) == [(3, true)]
    ensures FirstLevel(HIDDEN, None, None, 4) == Some(true)
  {
    hide Within, Transitions;
    NoTransitions(None, None);
    for i := 0 to 4
      invariant Within(Transitions(HIDDEN[..i]), None, None) == if i < 4 then [] else [(3, true)]
    {
      TransitionsStep(HIDDEN, i, None, None);
    }
    assert HIDDEN[..4] == HIDDEN;
    assert FirstLevel(HIDDEN, None, None, 1) == None && FirstLevel(HIDDEN, None, None, 2) == Some(true);
  }

  lemma TransitionsStep(changes: seq<Change>, i: nat, start: Option<nat>, end: Option<nat>)
    requires i < |changes|
    ensures var (tick, v) := changes[i]; var level := LevelAfter(changes[..i]);
      Within(Transitions(changes[..i + 1]), start, end) == Within(Transitions(changes[..i]), start, end)
        + if v.Some? && level.Some? && v != level && InWindow(tick, start, end) then [(tick, v.value)] else []
  {
    assert changes[..i + 1][..i] == changes[..i];
    var front := Transitions(changes[..i]);
    assert forall e :: (front + [e])[..|front|] == front;
  }

  lemma {:induction false} NothingAfterEnd(changes: seq<Change>, i: nat, start: Option<nat>, end: Option<nat>)
    requires InTime(changes) && i < |changes| && end.Some? && changes[i].0 > end.value
    ensures Within(Transitions(changes), start, end) == Within(Transitions(changes[..i]), start, end)
  {
    var n := |changes| - 1;
    TransitionsStep(changes, n, start, end);
    assert changes[..n + 1] == changes;
    assert changes[i].0 <= changes[n].0 || i == n;
    if i < n {
      NothingAfterEnd(changes[..n], i, start, end);
      assert changes[..n][..i] == changes[..i];
    }
  }

  function LevelAfter(changes: seq<Change>): Option<bool> {
    if changes == [] then None else changes[|changes| - 1].1
  }

  function Transitions(changes: seq<Change>): seq<(nat, bool)> {
    if changes == [] then []
    else
      var front := changes[..|changes| - 1];
      var (tick, v) := changes[|changes| - 1];
      if v.Some? && LevelAfter(front).Some? && v != LevelAfter(front) then Transitions(front) + [(tick, v.value)]
      else Transitions(front)
  }

  // ------------------------------------------------------------ reading back what was written

  lemma ChangesOfAppended(tokens: seq<Token>, tok: Token, ident: char)
    ensures var cs := Changes(tokens, ident);
      Changes(tokens + [tok], ident) == cs
        + if tok.Scalar? && tok.ident == ident && (cs == [] || cs[|cs| - 1].1 != tok.level)
          then [(Clock(tokens), tok.level)] else []
  {
    assert (tokens + [tok])[..|tokens|] == tokens;
  }

  /** The initial values give every channel one change, at the start time. */
  lemma {:induction false} InitialChanges(tokens: seq<Token>, recs: seq<Record>, chans: seq<nat>, m: nat, k: nat)
    requires recs != [] && m <= |chans| <= CHANNELS && k < |chans| && Changes(tokens, Ident(k)) == []
    ensures Clock(tokens + InitialLevels(recs, chans, m)) == Clock(tokens)
    ensures Changes(tokens + InitialLevels(recs, chans, m), Ident(k))
         == if m > k then [(Clock(tokens), Some(Initial(recs, chans[k])))] else []
  {
    hide Changes, Clock;
    if m == 0 {
      assert tokens + [] == tokens;
    } else {
      InitialChanges(tokens, recs, chans, m - 1, k);
      var before := tokens + InitialLevels(recs, chans, m - 1);
      var tok := Level(Initial(recs, chans[m - 1]), Ident(m - 1));
      assert tokens + InitialLevels(recs, chans, m) == before + [tok];
      ChangesOfAppended(before, tok, Ident(k));
      ClockStep(before, tok);
    }
  }

  lemma DumpChanges(recs: seq<Record>, chans: seq<nat>, k: nat)
    requires recs != [] && k < |chans| <= CHANNELS
    ensures Changes(Dump(recs, chans), Ident(k)) == [(StartTime(recs), Some(Initial(recs, chans[k])))]
  {
    var t0 := Time(StartTime(recs));
    ChangesOfAppended([], t0, Ident(k));
    ChangesOfAppended([t0], Keyword, Ident(k));
    ChangesOfAppended([t0, Keyword], Level(false, WINDOW), Ident(k));
    ClockStep([], t0);
    ClockStep([t0], Keyword);
    ClockStep([t0, Keyword], Level(false, WINDOW));
    var start := [t0, Keyword, Level(false, WINDOW)];
    assert [] + [t0] == [t0] && [t0] + [Keyword] == [t0, Keyword] && [t0, Keyword] + [Level(false, WINDOW)] == start;
    InitialChanges(start, recs, chans, |chans|, k);
    ChangesOfAppended(start + InitialLevels(recs, chans, |chans|), Keyword, Ident(k));
  }

  /** The lines of one record change a channel exactly when its mask bit is set, provided its level does. */
  lemma {:induction false} LineChanges(tokens: seq<Token>, r: Record, chans: seq<nat>, m: nat, k: nat)
    requires m <= |chans| <= CHANNELS && k < |chans| && Changes(tokens, Ident(k)) != []
    requires Bit(r.mask, chans[k]) ==> LevelAfter(Changes(tokens, Ident(k))) != Some(Bit(r.values, chans[k]))
    ensures Clock(tokens + Lines(r, chans, m)) == Clock(tokens)
    ensures Changes(tokens + Lines(r, chans, m), Ident(k)) == Changes(tokens, Ident(k))
      + if m > k && Bit(r.mask, chans[k]) then [(Clock(tokens), Some(Bit(r.values, chans[k])))] else []
  {
    hide Changes, Clock;
    if m == 0 {
      assert tokens + [] == tokens;
    } else {
      LineChanges(tokens, r, chans, m - 1, k);
      if Bit(r.mask, chans[m - 1]) {
        var before := tokens + Lines(r, chans, m - 1);
        var tok := Level(Bit(r.values, chans[m - 1]), Ident(m - 1));
        assert tokens + Lines(r, chans, m) == before + [tok];
        ChangesOfAppended(before, tok, Ident(k));
        ClockStep(before, tok);
      }
    }
  }

  lemma {:induction false} NoLines(r: Record, chans: seq<nat>, m: nat, k: nat)
    requires k < m <= |chans| <= CHANNELS && Lines(r, chans, m) == []
    ensures !Bit(r.mask, chans[k])
  {
    if k < m - 1 { NoLines(r, chans, m - 1, k); }
  }

  /** One record's tokens change a channel, at the record's stamp, exactly when its mask bit is set. */
  lemma RecordChanges(tokens: seq<Token>, recs: seq<Record>, chans: seq<nat>, i: nat, k: nat)
    requires i < |recs| && k < |chans| <= CHANNELS && Changes(tokens, Ident(k)) != []
    requires Bit(recs[i].mask, chans[k]) ==> LevelAfter(Changes(tokens, Ident(k))) != Some(Bit(recs[i].values, chans[k]))
    ensures Changes(tokens + RecordTokens(recs, chans, i), Ident(k)) == Changes(tokens, Ident(k))
      + if Bit(recs[i].mask, chans[k]) then [(recs[i].stamp, Some(Bit(recs[i].values, chans[k])))] else []
  {
    hide Changes, Clock, Lines, Bit, LevelAfter;
    var r, time := recs[i], Time(recs[i].stamp);
    if RecordLines(recs, chans, i) == [] {
      NoLines(r, chans, |chans|, k);
      assert tokens + [] == tokens;
    } else {
      ChangesOfAppended(tokens, time, Ident(k));
      ClockStep(tokens, time);
      var start := tokens + [time];
      if i == 0 {
        ChangesOfAppended(start, Level(true, WINDOW), Ident(k));
        ClockStep(start, Level(true, WINDOW));
        start := start + [Level(true, WINDOW)];
      }
      assert Changes(start, Ident(k)) == Changes(tokens, Ident(k)) && Clock(start) == r.stamp;
      LineChanges(start, r, chans, |chans|, k);
      assert tokens + RecordTokens(recs, chans, i) == start + Lines(r, chans, |chans|);
    }
  }

  /** What the reader should see of a channel after i records: its initial level, then its edges. */
  ghost function Expected(recs: seq<Record>, ch: nat, i: nat): seq<Change>
    requires recs != [] && i <= |recs|
  {
    if i == 0 then [(StartTime(recs), Some(Initial(recs, ch)))]
    else if Bit(recs[i - 1].mask, ch) then
      Expected(recs, ch, i - 1) + [(recs[i - 1].stamp, Some(Bit(recs[i - 1].values, ch)))]
    else Expected(recs, ch, i - 1)
  }

  ghost predicate LevelAt(recs: seq<Record>, ch: nat, i: nat)
    requires recs != [] && i <= |recs|
  {
    if i == 0 then Initial(recs, ch) else Bit(recs[i - 1].values, ch)
  }

  /** The mask marks the records in which an enabled channel's level changes. */
  lemma MaskMeansChange(recs: seq<Record>, enable: nat, ch: nat, i: nat)
    requires i < |recs| && Consistent(recs, enable) && Bit(enable, ch)
    ensures Bit(recs[i].mask, ch) <==> LevelAt(recs, ch, i) != Bit(recs[i].values, ch)
  {
    BitOfXor(recs[0].values, recs[0].mask, ch);
    assert MaskIsExact(recs, enable, i);
  }

  /** Exact masks make every expected change a real transition, and the transitions are the edges. */
  lemma {:induction false} ExpectedTransitions(recs: seq<Record>, enable: nat, ch: nat, i: nat)
    requires recs != [] && i <= |recs| && Consistent(recs, enable) && Bit(enable, ch)
    ensures LevelAfter(Expected(recs, ch, i)) == Some(LevelAt(recs, ch, i))
    ensures Transitions(Expected(recs, ch, i)) == Edges(recs[..i], ch)
  {
    hide Consistent, Bit, Initial;
    if i > 0 {
      ExpectedTransitions(recs, enable, ch, i - 1);
      MaskMeansChange(recs, enable, ch, i - 1);
      assert recs[..i][..i - 1] == recs[..i - 1];
      var before := Expected(recs, ch, i - 1);
      if Bit(recs[i - 1].mask, ch) {
        assert Expected(recs, ch, i)[..|before|] == before;
      }
    } else {
      var first := Expected(recs, ch, 0);
      assert first[..0] == [];
    }
  }

  lemma {:induction false} BodyChanges(recs: seq<Record>, enable: nat, chans: seq<nat>, i: nat, k: nat)
    requires recs != [] && i <= |recs| && k < |chans| <= CHANNELS
    requires Consistent(recs, enable) && Bit(enable, chans[k])
    ensures Changes(Body(recs, chans, i), Ident(k)) == Expected(recs, chans[k], i) != []
  {
    hide Consistent, Changes, RecordTokens, Transitions, Edges, LevelAt, Bit, Initial, Dump;
    if i == 0 {
      DumpChanges(recs, chans, k);
    } else {
      BodyChanges(recs, enable, chans, i - 1, k);
      ExpectedTransitions(recs, enable, chans[k], i - 1);
      MaskMeansChange(recs, enable, chans[k], i - 1);
      RecordChanges(Body(recs, chans, i - 1), recs, chans, i - 1, k);
    }
  }

  // ------------------------------------------------------------ the window signal

  lemma {:induction false} InitialKeepsWindow(tokens: seq<Token>, recs: seq<Record>, chans: seq<nat>, m: nat)
    requires recs != [] && m <= |chans| <= CHANNELS
    ensures Changes(tokens + InitialLevels(recs, chans, m), WINDOW) == Changes(tokens, WINDOW)
  {
    hide Changes, Clock;
    if m == 0 {
      assert tokens + [] == tokens;
    } else {
      InitialKeepsWindow(tokens, recs, chans, m - 1);
      var before := tokens + InitialLevels(recs, chans, m - 1);
      var tok := Level(Initial(recs, chans[m - 1]), Ident(m - 1));
      assert tokens + InitialLevels(recs, chans, m) == before + [tok];
      ChangesOfAppended(before, tok, WINDOW);
    }
  }

  lemma {:induction false} LinesKeepWindow(tokens: seq<Token>, r: Record, chans: seq<nat>, m: nat)
    requires m <= |chans| <= CHANNELS
    ensures Changes(tokens + Lines(r, chans, m), WINDOW) == Changes(tokens, WINDOW)
  {
    hide Changes, Clock;
    if m == 0 {
      assert tokens + [] == tokens;
    } else {
      LinesKeepWindow(tokens, r, chans, m - 1);
      if Bit(r.mask, chans[m - 1]) {
        var before := tokens + Lines(r, chans, m - 1);
        var tok := Level(Bit(r.values, chans[m - 1]), Ident(m - 1));
        assert tokens + Lines(r, chans, m) == before + [tok];
        ChangesOfAppended(before, tok, WINDOW);
      }
    }
  }

  lemma WindowInDump(recs: seq<Record>, chans: seq<nat>)
    requires recs != [] && |chans| <= CHANNELS
    ensures Changes(Dump(recs, chans), WINDOW) == [(StartTime(recs), Some(false))]
  {
    hide Changes, Clock;
    var t0, low := Time(StartTime(recs)), Level(false, WINDOW);
    NothingYet();
    ChangesOfAppended([], t0, WINDOW);
    ChangesOfAppended([t0], Keyword, WINDOW);
    ChangesOfAppended([t0, Keyword], low, WINDOW);
    ClockStep([], t0);
    ClockStep([t0], Keyword);
    assert [] + [t0] == [t0] && [t0] + [Keyword] == [t0, Keyword] && [t0, Keyword] + [low] == [t0, Keyword, low];
    InitialKeepsWindow([t0, Keyword, low], recs, chans, |chans|);
    ChangesOfAppended([t0, Keyword, low] + InitialLevels(recs, chans, |chans|), Keyword, WINDOW);
  }

  lemma NothingYet()
    ensures Changes([], WINDOW) == [] && Clock([]) == 0
  {
  }

  /** The window signal rises with the first record. */
  lemma {:induction false} WindowInBody(recs: seq<Record>, chans: seq<nat>, i: nat)
    requires recs != [] && i <= |recs| && |chans| <= CHANNELS
    ensures Changes(Body(recs, chans, i), WINDOW)
         == [(StartTime(recs), Some(false))] + if i > 0 then [(recs[0].stamp, Some(true))] else []
  {
    hide Changes, Clock, Dump, Lines;
    if i == 0 {
      WindowInDump(recs, chans);
    } else {
      WindowInBody(recs, chans, i - 1);
      var r, before := recs[i - 1], Body(recs, chans, i - 1);
      var time, high := Time(r.stamp), Level(true, WINDOW);
      if RecordLines(recs, chans, i - 1) == [] {
        assert before + [] == before;
      } else {
        ChangesOfAppended(before, time, WINDOW);
        ClockStep(before, time);
        var start := before + [time];
        if i == 1 {
          ChangesOfAppended(start, high, WINDOW);
          start := start + [high];
        }
        LinesKeepWindow(start, r, chans, |chans|);
        assert before + RecordTokens(recs, chans, i - 1) == start + Lines(r, chans, |chans|);
      }
    }
  }

  /** It is low from one tick before the first record, or 0, and again from one tick after the last. */
  lemma WindowSignal(recs: seq<Record>, chans: seq<nat>)
    requires recs != [] && |chans| <= CHANNELS
    ensures var first, last := recs[0].stamp, recs[|recs| - 1].stamp;
      Changes(Body(recs, chans, |recs|) + Closing(recs), WINDOW)
      == [(if first == 0 then 0 else first - 1, Some(false)), (first, Some(true)), (last + 1, Some(false))]
  {
    hide Changes, Clock, Body;
    WindowInBody(recs, chans, |recs|);
    var body, time, low := Body(recs, chans, |recs|), Time(recs[|recs| - 1].stamp + 1), Level(false, WINDOW);
    assert body + Closing(recs) == (body + [time]) + [low];
    ChangesOfAppended(body, time, WINDOW);
    ClockStep(body, time);
    ChangesOfAppended(body + [time], low, WINDOW);
  }

  lemma HeaderStep(tok: Token, rest: seq<Token>)
    requires tok.Var?
    ensures HeaderLength([tok] + rest) == 1 + HeaderLength(rest)
    ensures Declared([tok] + rest) == [Signal(tok.name, tok.ident, [])] + Declared(rest)
  {
    assert ([tok] + rest)[1..] == rest;
  }

  function DeclaredAs(chans: seq<nat>, k: nat): seq<Signal>
    requires k <= |chans| <= CHANNELS
  {
    if k == 0 then [Signal(WINDOW_NAME, WINDOW, [])]
    else DeclaredAs(chans, k - 1) + [Signal(chans[k - 1], Ident(k - 1), [])]
  }

  lemma {:induction false} DeclaredAt(chans: seq<nat>, k: nat)
    requires k <= |chans| <= CHANNELS
    ensures |DeclaredAs(chans, k)| == |Declarations(chans, k)| == k + 1
    ensures DeclaredAs(chans, k)[0] == Signal(WINDOW_NAME, WINDOW, [])
    ensures forall j | 0 <= j < k :: DeclaredAs(chans, k)[j + 1] == Signal(chans[j], Ident(j), [])
  {
    if k > 0 { DeclaredAt(chans, k - 1); }
  }

  lemma {:induction false} HeaderOf(chans: seq<nat>, k: nat, rest: seq<Token>)
    requires k <= |chans| <= CHANNELS
    ensures HeaderLength(Declarations(chans, k) + rest) == k + 1 + HeaderLength(rest)
    ensures Declared(Declarations(chans, k) + rest) == DeclaredAs(chans, k) + Declared(rest)
  {
    hide HeaderLength, Declared;
    if k == 0 {
      HeaderStep(Var(WINDOW, WINDOW_NAME), rest);
    } else {
      var tok, signal := Var(Ident(k - 1), chans[k - 1]), Signal(chans[k - 1], Ident(k - 1), []);
      HeaderOf(chans, k - 1, [tok] + rest);
      HeaderStep(tok, rest);
      assert Declarations(chans, k) + rest == Declarations(chans, k - 1) + ([tok] + rest);
      assert DeclaredAs(chans, k) + Declared(rest) == DeclaredAs(chans, k - 1) + ([signal] + Declared(rest));
    }
  }

  /** What the reader takes from the header, and where it starts to read values. */
  lemma HeaderOfFile(chans: seq<nat>, body: seq<Token>)
    requires |chans| <= CHANNELS
    ensures var tokens := Declarations(chans, |chans|) + [EndDefinitions] + body;
      && tokens[HeaderLength(tokens)..] == body && |Declared(tokens)| == |chans| + 1
      && Declared(tokens)[0] == Signal(WINDOW_NAME, WINDOW, [])
      && forall k | 0 <= k < |chans| :: Declared(tokens)[k + 1] == Signal(chans[k], Ident(k), [])
  {
    hide Declarations, DeclaredAs;
    var rest := [EndDefinitions] + body;
    HeaderOf(chans, |chans|, rest);
    DeclaredAt(chans, |chans|);
    assert Declarations(chans, |chans|) + [EndDefinitions] + body == Declarations(chans, |chans|) + rest;
    assert HeaderLength(rest) == 1 && Declared(rest) == [];
  }

  /**
   Round trip. For every capture whose masks are exact, write the enabled channels chans as a VCD
   and read it back: the reader declares the window signal and then them in order. The transitions of each
   are exactly the capture's edges, also when the window starts at stamp 0, and the window signal is high
   from the first to the last record.
   */
  lemma VcdRoundTrip(recs: seq<Record>, enable: nat, chans: seq<nat>, tokens: seq<Token>, signals: seq<Signal>)
    requires recs != [] && Consistent(recs, enable) && |chans| <= CHANNELS
    requires forall ch | ch in chans :: Bit(enable, ch)
    requires tokens == Declarations(chans, |chans|) + [EndDefinitions] + Body(recs, chans, |recs|) + Closing(recs)
    requires Recorded(signals, Declared(tokens), tokens[HeaderLength(tokens)..])
    ensures |signals| == |chans| + 1
    ensures forall k | 0 <= k < |chans| ::
      signals[k + 1].name == chans[k] && Transitions(signals[k + 1].changes) == Edges(recs, chans[k])
      && signals[k + 1].changes == Expected(recs, chans[k], |recs|)
    ensures var first, last := recs[0].stamp, recs[|recs| - 1].stamp;
      signals[0] == Signal(WINDOW_NAME, WINDOW, [
        (if first == 0 then 0 else first - 1, Some(false)), (first, Some(true)), (last + 1, Some(false))])
  {
    hide Consistent, Changes, Transitions, Edges, Closing, Body, Declarations, Bit, HeaderLength, Declared, Expected;
    var body := Body(recs, chans, |recs|) + Closing(recs);
    assert tokens == Declarations(chans, |chans|) + [EndDefinitions] + body;
    HeaderOfFile(chans, body);
    WindowSignal(recs, chans);
    forall k | 0 <= k < |chans|
      ensures Transitions(Changes(body, Ident(k))) == Edges(recs, chans[k])
      ensures Changes(body, Ident(k)) == Expected(recs, chans[k], |recs|)
    {
      ChannelRoundTrip(recs, enable, chans, k);
    }
  }

  lemma ChannelRoundTrip(recs: seq<Record>, enable: nat, chans: seq<nat>, k: nat)
    requires recs != [] && Consistent(recs, enable) && k < |chans| <= CHANNELS && Bit(enable, chans[k])
    ensures var changes := Changes(Body(recs, chans, |recs|) + Closing(recs), Ident(k));
      changes == Expected(recs, chans[k], |recs|) && Transitions(changes) == Edges(recs, chans[k])
  {
    hide Consistent, Changes, Transitions, Edges, Body, Closing, Expected, Bit;
    BodyChanges(recs, enable, chans, |recs|, k);
    ClosingChanges(recs, chans, k);
    ExpectedTransitions(recs, enable, chans[k], |recs|);
    assert recs[..|recs|] == recs;
  }

  lemma ClosingChanges(recs: seq<Record>, chans: seq<nat>, k: nat)
    requires recs != [] && k < |chans| <= CHANNELS
    ensures Changes(Body(recs, chans, |recs|) + Closing(recs), Ident(k)) == Changes(Body(recs, chans, |recs|), Ident(k))
  {
    var body, time, low := Body(recs, chans, |recs|), Closing(recs)[0], Closing(recs)[1];
    assert body + Closing(recs) == (body + [time]) + [low];
    ChangesOfAppended(body, time, Ident(k));
    ChangesOfAppended(body + [time], low, Ident(k));
  }

  datatype ExportError = Rejected(error: ScopeError) | NotWritten(reason: VcdError)

  /** The level before the first edge of a channel, as the reader reports it: none without an edge. */
  lemma {:induction false} ExpectedLevel(recs: seq<Record>, ch: nat, i: nat)
    requires recs != [] && i <= |recs|
    ensures var changes := Expected(recs, ch, i);
      && changes != [] && changes[0].1 == Some(Initial(recs, ch)) && |changes| == 1 + |Edges(recs[..i], ch)|
      && FirstLevel(changes, None, None, |changes|) == if |changes| > 1 then Some(Initial(recs, ch)) else None
  {
    hide Initial, Bit, FirstLevel;
    var changes := Expected(recs, ch, i);
    if i > 0 {
      ExpectedLevel(recs, ch, i - 1);
      assert recs[..i][..i - 1] == recs[..i - 1];
    }
    LevelOfFirst(changes, |changes|);
  }

  /** Without bounds the reported level is that of the first change, if another one follows. */
  lemma {:induction false} LevelOfFirst(changes: seq<Change>, n: nat)
    requires 1 <= n <= |changes| && changes[0].1.Some?
    ensures FirstLevel(changes, None, None, n) == if n > 1 then changes[0].1 else None
  {
    if n > 1 { LevelOfFirst(changes, n - 1); }
  }

  /**
   Check a capture, write it, read the file and take the transitions of its channels: for every capture
   that is accepted they are exactly its edges, each with the level before the first.
   */
  method WriteAndRead(recs: seq<Record>, enable: nat, activity: seq<nat>, chans: seq<nat>)
    returns (res: Result<seq<(seq<(nat, bool)>, Option<bool>)>, ExportError>)
    requires |chans| <= CHANNELS && forall ch | ch in chans :: Bit(enable, ch)
    requires activity == [] || |activity| >= CHANNELS
    ensures res.Ok? <==> recs != [] && Consistent(recs, enable) && ActivityAgrees(recs, enable, activity, CHANNELS)
    ensures recs == [] ==> res == Err(NotWritten(EmptyCapture))
    ensures res.Ok? ==> |res.value| == |chans| && forall k | 0 <= k < |chans| ::
      var edges := Edges(recs, chans[k]);
      res.value[k] == (edges, if edges == [] then None else Some(Initial(recs, chans[k])))
  {
    hide Consistent, ActivityAgrees, Transitions, Edges, Expected, Body, Closing, Declarations, Declared, HeaderLength;
    hide FirstLevel, Within, Bit, Initial;
    var error := Check(recs, enable, activity);
    if error.Some? { return Err(Rejected(error.value)); }
    var tokens := WriteVcd(recs, chans);
    if tokens.Err? { return Err(NotWritten(tokens.error)); }
    var signals := ReadVcd(tokens.value);
    VcdRoundTrip(recs, enable, chans, tokens.value, signals);
    var channels := [];
    for k := 0 to |chans|
      invariant |channels| == k && forall j | 0 <= j < k ::
        var edges := Edges(recs, chans[j]);
        channels[j] == (edges, if edges == [] then None else Some(Initial(recs, chans[j])))
    {
      var changes := signals[k + 1].changes;
      var edges, level := EdgesOf(changes, None, None);
      StoppingIsHarmless(changes, None, None);
      ExpectedLevel(recs, chans[k], |recs|);
      assert recs[..|recs|] == recs;
      channels := channels + [(edges, level)];
    }
    return Ok(channels);
  }
}
