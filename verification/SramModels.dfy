/**
 Abstractions of the 64 x 16 SRAM macro in the mutation campaigns, as clocked machines:
 the macro itself (models/RM_IHPSG13_1P_core_behavioral.v), the registered read of equiv_inv.py
 (transform), and the registered read and the two-copy tracking of mk_miter.py (main).
 Each step function is one rising clock edge.
 */
module SramModels {

  type Addr = a: nat | a < 64 witness 0
  type Word = w: nat | w < 0x1_0000 witness 0
  type Memory = m: seq<Word> | |m| == 64 witness seq(64, _ => 0)

  /** The macro's inputs at a clock edge. */
  datatype Access = Access(men: bool, wen: bool, ren: bool, addr: Addr, din: Word)

  predicate Writes(a: Access) { a.men && a.wen }

  predicate Reads(a: Access) { a.men && a.ren }

  /** A write with the read enable on: the macro also loads the written word into its output. */
  predicate WriteThrough(a: Access) { Writes(a) && Reads(a) }

  // ------------------------------------------------------------ the macro

  datatype Ram = Ram(mem: Memory, dout: Word)

  function RamStep(r: Ram, a: Access): Ram {
    if Writes(a) then Ram(r.mem[a.addr := a.din], if a.ren then a.din else r.dout)
    else if Reads(a) then Ram(r.mem, r.mem[a.addr])
    else r
  }

  /** The macro after the first t accesses. */
  function RamAfter(r: Ram, accesses: seq<Access>, t: nat): Ram
    requires t <= |accesses|
  {
    if t == 0 then r else RamStep(RamAfter(r, accesses, t - 1), accesses[t - 1])
  }

  /** The word last written to an address in the first t accesses, or what it held before. */
  function LastWritten(r: Ram, accesses: seq<Access>, t: nat, addr: Addr): Word
    requires t <= |accesses|
  {
    if t == 0 then r.mem[addr]
    else
      var a := accesses[t - 1];
      if a.men && a.wen && a.addr == addr then a.din else LastWritten(r, accesses, t - 1, addr)
  }

  /** The macro is a memory: every address holds the word last written to it, and a read delivers that word. */
  lemma {:induction false} RamIsMemory(r: Ram, accesses: seq<Access>, t: nat, addr: Addr)
    requires t <= |accesses|
    ensures RamAfter(r, accesses, t).mem[addr] == LastWritten(r, accesses, t, addr)
  {
    if t > 0 { RamIsMemory(r, accesses, t - 1, addr); }
  }

  lemma ReadDelivers(r: Ram, accesses: seq<Access>, t: nat)
    requires t < |accesses|
    ensures var a, out := accesses[t], RamAfter(r, accesses, t + 1).dout;
      && (a.men && a.ren ==> out == LastWritten(r, accesses, t + 1, a.addr))
      && (!(a.men && a.ren) ==> out == RamAfter(r, accesses, t).dout)
  {
    RamIsMemory(r, accesses, t, accesses[t].addr);
  }

  // ------------------------------------------------------------ registered reads over free words

  /** The output register gd, the address read last la, and lv: no write since. */
  datatype Model = Model(gd: Word, la: Addr, lv: bool)

  function ReadStep(m: Model, addr: Addr, free: Word): Model {
    Model(if m.lv && m.la == addr then m.gd else free, addr, true)
  }

  /** equiv_inv.py: a read excludes the write enable. */
  function InvStep(m: Model, a: Access, free: Word): Model {
    if Reads(a) && !a.wen then ReadStep(m, a.addr, free)
    else if Writes(a) then m.(lv := false)
    else m
  }

  /** mk_miter.py with REG: a read does not look at the write enable. */
  function RegStep(m: Model, a: Access, free: Word): Model {
    if Reads(a) then ReadStep(m, a.addr, free)
    else if Writes(a) then m.(lv := false)
    else m
  }

  /** What the registers remember: reading an address again without a write in between gives the same word ... */
  lemma RereadKeeps(m: Model, a: Access, b: Access, free: Word, free': Word)
    requires a.men && a.ren && b.men && b.ren && a.addr == b.addr
    ensures !a.wen && !b.wen ==> InvStep(InvStep(m, a, free), b, free').gd == InvStep(m, a, free).gd
    ensures RegStep(RegStep(m, a, free), b, free').gd == RegStep(m, a, free).gd
  {
  }

  /** ... and after a write, or at another address, any word can be read. */
  lemma ReadIsFree(m: Model, a: Access, b: Access, free: Word, free': Word)
    requires a.men && b.men && b.ren && !b.wen && ((a.wen && !a.ren) || (a.ren && !a.wen && a.addr != b.addr))
    ensures InvStep(InvStep(m, a, free), b, free').gd == free' && RegStep(RegStep(m, a, free), b, free').gd == free'
  {
  }

  /** Without the memory enable nothing changes. */
  lemma DisabledKeeps(m: Model, a: Access, free: Word)
    requires !a.men
    ensures InvStep(m, a, free) == m == RegStep(m, a, free)
  {
  }

  function InvAfter(m: Model, accesses: seq<Access>, free: seq<Word>, t: nat): Model
    requires t <= |accesses| == |free|
  {
    if t == 0 then m else InvStep(InvAfter(m, accesses, free, t - 1), accesses[t - 1], free[t - 1])
  }

  function RegAfter(m: Model, accesses: seq<Access>, free: seq<Word>, t: nat): Model
    requires t <= |accesses| == |free|
  {
    if t == 0 then m else RegStep(RegAfter(m, accesses, free, t - 1), accesses[t - 1], free[t - 1])
  }

  /** The invariant of both models: the register is the macro's output, and when lv holds, the word at la. */
  ghost predicate Tracks(m: Model, r: Ram) {
    m.gd == r.dout && (m.lv ==> m.gd == r.mem[m.la])
  }

  /** The word that a free input has to take to follow the macro. */
  function NextWord(r: Ram, a: Access): Word { RamStep(r, a).dout }

  /** Where equiv_inv's register departs from the macro: a write-through of another word. */
  predicate InvMisses(r: Ram, a: Access) { WriteThrough(a) && a.din != r.dout }

  lemma InvTracks(m: Model, r: Ram, a: Access, free: Word)
    requires Tracks(m, r)
    ensures !InvMisses(r, a) && free == NextWord(r, a) ==> InvStep(m, a, free).gd == RamStep(r, a).dout
    ensures InvMisses(r, a) ==> InvStep(m, a, free).gd != RamStep(r, a).dout
    ensures InvStep(m, a, free).gd == RamStep(r, a).dout ==> Tracks(InvStep(m, a, free), RamStep(r, a))
  {
  }

  /** Where mk_miter's register departs: the same, but only at the address it remembers. */
  predicate RegMisses(m: Model, r: Ram, a: Access) {
    WriteThrough(a) && m.lv && m.la == a.addr && a.din != r.dout
  }

  lemma RegTracks(m: Model, r: Ram, a: Access, free: Word)
    requires Tracks(m, r)
    ensures !RegMisses(m, r, a) && free == NextWord(r, a) ==> RegStep(m, a, free).gd == RamStep(r, a).dout
    ensures RegMisses(m, r, a) ==> RegStep(m, a, free).gd != RamStep(r, a).dout
    ensures RegStep(m, a, free).gd == RamStep(r, a).dout ==> Tracks(RegStep(m, a, free), RamStep(r, a))
  {
  }

  /** The free words that follow the macro over a run. */
  function Following(r: Ram, accesses: seq<Access>): (free: seq<Word>)
    ensures |free| == |accesses|
  {
    seq(|accesses|, t requires 0 <= t < |accesses| => NextWord(RamAfter(r, accesses, t), accesses[t]))
  }

  ghost predicate InvMatches(m: Model, r: Ram, accesses: seq<Access>, free: seq<Word>, t: nat)
    requires t <= |accesses| == |free|
  {
    InvAfter(m, accesses, free, t).gd == RamAfter(r, accesses, t).dout
  }

  lemma {:induction false} InvFollows(m: Model, r: Ram, accesses: seq<Access>, t: nat)
    requires Tracks(m, r) && t <= |accesses|
    requires forall u | 0 <= u < t :: !InvMisses(RamAfter(r, accesses, u), accesses[u])
    ensures Tracks(InvAfter(m, accesses, Following(r, accesses), t), RamAfter(r, accesses, t))
  {
    hide InvStep, RamStep, Tracks, InvMisses;
    if t > 0 {
      InvFollows(m, r, accesses, t - 1);
      var free := Following(r, accesses);
      InvTracks(InvAfter(m, accesses, free, t - 1), RamAfter(r, accesses, t - 1), accesses[t - 1], free[t - 1]);
    }
  }

  lemma {:induction false} InvMatchTracks(m: Model, r: Ram, accesses: seq<Access>, free: seq<Word>, t: nat)
    requires Tracks(m, r) && t <= |accesses| == |free|
    requires forall u | 0 <= u <= t :: InvMatches(m, r, accesses, free, u)
    ensures Tracks(InvAfter(m, accesses, free, t), RamAfter(r, accesses, t))
  {
    hide InvStep, RamStep, Tracks;
    if t > 0 {
      InvMatchTracks(m, r, accesses, free, t - 1);
      InvTracks(InvAfter(m, accesses, free, t - 1), RamAfter(r, accesses, t - 1), accesses[t - 1], free[t - 1]);
      assert InvMatches(m, r, accesses, free, t);
    }
  }

  /**
   equiv_inv's register simulates the macro: from any contents, free words exist for which it shows
   the macro's output in every cycle, if and only if every write-through of the run writes the
   word already on the output.
   */
  lemma InvSimulatesMacro(m: Model, r: Ram, accesses: seq<Access>)
    requires Tracks(m, r)
    ensures (exists free: seq<Word> | |free| == |accesses| ::
               forall t | 0 <= t <= |accesses| :: InvMatches(m, r, accesses, free, t))
      <==> (forall t | 0 <= t < |accesses| :: !InvMisses(RamAfter(r, accesses, t), accesses[t]))
  {
    if forall t | 0 <= t < |accesses| :: !InvMisses(RamAfter(r, accesses, t), accesses[t]) {
      var free := Following(r, accesses);
      forall t | 0 <= t <= |accesses| ensures InvMatches(m, r, accesses, free, t) {
        InvFollows(m, r, accesses, t);
      }
    }
    forall free: seq<Word>, t | |free| == |accesses| && 0 <= t < |accesses|
      && InvMisses(RamAfter(r, accesses, t), accesses[t])
      ensures exists u | 0 <= u <= |accesses| :: !InvMatches(m, r, accesses, free, u)
    {
      FirstInvMiss(m, r, accesses, free, t);
    }
  }

  lemma {:induction false} FirstInvMiss(m: Model, r: Ram, accesses: seq<Access>, free: seq<Word>, t: nat)
    requires Tracks(m, r) && t < |accesses| == |free| && InvMisses(RamAfter(r, accesses, t), accesses[t])
    ensures exists u | 0 <= u <= t + 1 :: !InvMatches(m, r, accesses, free, u)
  {
    if u: nat :| u < t && InvMisses(RamAfter(r, accesses, u), accesses[u]) {
      FirstInvMiss(m, r, accesses, free, u);
    } else if forall u | 0 <= u <= t :: InvMatches(m, r, accesses, free, u) {
      InvMatchTracks(m, r, accesses, free, t);
      InvTracks(InvAfter(m, accesses, free, t), RamAfter(r, accesses, t), accesses[t], free[t]);
      assert !InvMatches(m, r, accesses, free, t + 1);
    }
  }

  /** The condition is needed: one write-through of a new word, and no free word helps. */
  lemma WriteThroughIsMissed(mem: Memory, free: seq<Word>)
    requires |free| == 1
    ensures var write := Access(true, true, true, 3, 5);
      !InvMatches(Model(0, 0, false), Ram(mem, 0), [write], free, 1)
  {
    var write := Access(true, true, true, 3, 5);
    assert RamAfter(Ram(mem, 0), [write], 1) == RamStep(RamAfter(Ram(mem, 0), [write], 0), write);
    assert InvAfter(Model(0, 0, false), [write], free, 1)
        == InvStep(InvAfter(Model(0, 0, false), [write], free, 0), write, free[0]);
  }

  // ------------------------------------------------------------ a macro without write-through

  /** A synchronous RAM whose writes leave the output alone, whatever the read enable. */
  function PlainStep(r: Ram, a: Access): Ram {
    if Writes(a) then Ram(r.mem[a.addr := a.din], r.dout)
    else if Reads(a) then Ram(r.mem, r.mem[a.addr])
    else r
  }

  function PlainAfter(r: Ram, accesses: seq<Access>, t: nat): Ram
    requires t <= |accesses|
  {
    if t == 0 then r else PlainStep(PlainAfter(r, accesses, t - 1), accesses[t - 1])
  }

  ghost predicate PlainTracked(m: Model, r: Ram, accesses: seq<Access>, free: seq<Word>) {
    |free| == |accesses| &&
    forall t | 0 <= t <= |accesses| :: Tracks(InvAfter(m, accesses, free, t), PlainAfter(r, accesses, t))
  }

  /** For such a RAM the register is exact: for any contents and any run, free words follow it in every cycle. */
  lemma InvSimulatesPlain(m: Model, r: Ram, accesses: seq<Access>)
    requires Tracks(m, r)
    ensures exists free: seq<Word> :: PlainTracked(m, r, accesses, free)
  {
    var free: seq<Word> := seq(|accesses|, t requires 0 <= t < |accesses| => PlainAfter(r, accesses, t + 1).dout);
    forall t | 0 <= t <= |accesses| ensures Tracks(InvAfter(m, accesses, free, t), PlainAfter(r, accesses, t)) {
      InvFollowsPlain(m, r, accesses, free, t);
    }
    assert PlainTracked(m, r, accesses, free);
  }

  lemma {:induction false} InvFollowsPlain(m: Model, r: Ram, accesses: seq<Access>, free: seq<Word>, t: nat)
    requires Tracks(m, r) && t <= |accesses| == |free|
    requires forall u | 0 <= u < |accesses| :: free[u] == PlainAfter(r, accesses, u + 1).dout
    ensures Tracks(InvAfter(m, accesses, free, t), PlainAfter(r, accesses, t))
  {
    if t > 0 {
      InvFollowsPlain(m, r, accesses, free, t - 1);
      assert free[t - 1] == PlainAfter(r, accesses, t).dout;
    }
  }

  // ------------------------------------------------------------ mk_miter's register

  ghost predicate RegMatches(m: Model, r: Ram, accesses: seq<Access>, free: seq<Word>, t: nat)
    requires t <= |accesses| == |free|
  {
    RegAfter(m, accesses, free, t).gd == RamAfter(r, accesses, t).dout
  }

  /** The remembered address does not depend on the free words. */
  lemma {:induction false} TagsAgree(m: Model, accesses: seq<Access>, free: seq<Word>, free': seq<Word>, t: nat)
    requires t <= |accesses| == |free| == |free'|
    ensures var x, y := RegAfter(m, accesses, free, t), RegAfter(m, accesses, free', t); x.la == y.la && x.lv == y.lv
  {
    if t > 0 { TagsAgree(m, accesses, free, free', t - 1); }
  }

  /** The run at cycle t, with the macro and the words that follow it. */
  ghost predicate RegMissesAt(m: Model, r: Ram, accesses: seq<Access>, t: nat)
    requires t < |accesses|
  {
    RegMisses(RegAfter(m, accesses, Following(r, accesses), t), RamAfter(r, accesses, t), accesses[t])
  }

  lemma {:induction false} RegFollows(m: Model, r: Ram, accesses: seq<Access>, t: nat)
    requires Tracks(m, r) && t <= |accesses|
    requires forall u | 0 <= u < t :: !RegMissesAt(m, r, accesses, u)
    ensures Tracks(RegAfter(m, accesses, Following(r, accesses), t), RamAfter(r, accesses, t))
  {
    hide RegStep, RamStep, Tracks, RegMisses;
    if t > 0 {
      RegFollows(m, r, accesses, t - 1);
      var free := Following(r, accesses);
      assert !RegMissesAt(m, r, accesses, t - 1);
      RegTracks(RegAfter(m, accesses, free, t - 1), RamAfter(r, accesses, t - 1), accesses[t - 1], free[t - 1]);
    }
  }

  lemma {:induction false} RegMatchTracks(m: Model, r: Ram, accesses: seq<Access>, free: seq<Word>, t: nat)
    requires Tracks(m, r) && t <= |accesses| == |free|
    requires forall u | 0 <= u <= t :: RegMatches(m, r, accesses, free, u)
    ensures Tracks(RegAfter(m, accesses, free, t), RamAfter(r, accesses, t))
  {
    hide RegStep, RamStep, Tracks;
    if t > 0 {
      RegMatchTracks(m, r, accesses, free, t - 1);
      RegTracks(RegAfter(m, accesses, free, t - 1), RamAfter(r, accesses, t - 1), accesses[t - 1], free[t - 1]);
      assert RegMatches(m, r, accesses, free, t);
    }
  }

  /**
   mk_miter's register simulates the macro if and only if no write-through changes the output at
   the address of the last read or write-through with no plain write in between.
   */
  lemma RegSimulatesMacro(m: Model, r: Ram, accesses: seq<Access>)
    requires Tracks(m, r)
    ensures (exists free: seq<Word> | |free| == |accesses| ::
               forall t | 0 <= t <= |accesses| :: RegMatches(m, r, accesses, free, t))
      <==> (forall t | 0 <= t < |accesses| :: !RegMissesAt(m, r, accesses, t))
  {
    if forall t | 0 <= t < |accesses| :: !RegMissesAt(m, r, accesses, t) {
      var free := Following(r, accesses);
      forall t | 0 <= t <= |accesses| ensures RegMatches(m, r, accesses, free, t) {
        RegFollows(m, r, accesses, t);
      }
    }
    forall free: seq<Word>, t | |free| == |accesses| && 0 <= t < |accesses| && RegMissesAt(m, r, accesses, t)
      ensures exists u | 0 <= u <= |accesses| :: !RegMatches(m, r, accesses, free, u)
    {
      FirstRegMiss(m, r, accesses, free, t);
    }
  }

  lemma {:induction false} FirstRegMiss(m: Model, r: Ram, accesses: seq<Access>, free: seq<Word>, t: nat)
    requires Tracks(m, r) && t < |accesses| == |free| && RegMissesAt(m, r, accesses, t)
    ensures exists u | 0 <= u <= t + 1 :: !RegMatches(m, r, accesses, free, u)
  {
    if u: nat :| u < t && RegMissesAt(m, r, accesses, u) {
      FirstRegMiss(m, r, accesses, free, u);
    } else if forall u | 0 <= u <= t :: RegMatches(m, r, accesses, free, u) {
      RegMatchTracks(m, r, accesses, free, t);
      TagsAgree(m, accesses, free, Following(r, accesses), t);
      RegTracks(RegAfter(m, accesses, free, t), RamAfter(r, accesses, t), accesses[t], free[t]);
      assert !RegMatches(m, r, accesses, free, t + 1);
    }
  }

  // ------------------------------------------------------------ the emitted registers

  /** The registers that equiv_inv.py emits for one macro, and their clocked block. */
  class ReadRegister {
    var gd: Word
    var la: Addr
    var lv: bool

    constructor ()
      ensures Now() == Model(0, 0, false)
    {
      gd, la, lv := 0, 0, false;
    }

    function Now(): Model
      reads this
    {
      Model(gd, la, lv)
    }

    /** One rising edge, beside the macro: if the register tracks it, they part only on a missed write-through. */
    method Edge(a: Access, free: Word, ghost r: Ram)
      modifies this
      ensures Now() == InvStep(old(Now()), a, free)
      ensures old(Tracks(Now(), r)) && !InvMisses(r, a) && free == NextWord(r, a) ==> Tracks(Now(), RamStep(r, a))
      ensures old(Tracks(Now(), r)) && InvMisses(r, a) ==> gd != RamStep(r, a).dout
    {
      ghost var before := Now();
      if a.men && a.ren && !a.wen {
        if !(lv && la == a.addr) { gd := free; }
        la := a.addr;
        lv := true;
      } else if a.men && a.wen {
        lv := false;
      }
      if Tracks(before, r) { InvTracks(before, r, a, free); }
    }
  }
}
