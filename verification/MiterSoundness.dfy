/**
 The gold-against-mutant miter of campaigns/mutation/mk_miter.py: both cores run without their
 SRAM macros, over free words; the miter asserts equal pins and compatible SRAM traffic. A proof
 of the miter is about free words; this module shows what it says about the real macros.
 */
module MiterSoundness {
  import opened SramModels

  const MACROS: nat := 8

  // ------------------------------------------------------------ two copies of one macro

  /** Both copies write the same word to the same address, or neither writes. */
  predicate WritesAgree(g: Access, m: Access) {
    Writes(g) == Writes(m) && (Writes(g) ==> g.addr == m.addr && g.din == m.din)
  }

  /** Both copies read the same address, or neither reads. */
  predicate ReadsAgree(g: Access, m: Access) {
    Reads(g) == Reads(m) && (Reads(g) ==> g.addr == m.addr)
  }

  /** The register that says whether the two read outputs are still known to be equal. */
  function SameStep(same: bool, g: Access, m: Access): bool {
    if Reads(g) || Reads(m) then ReadsAgree(g, m) else same
  }

  /** Two copies of the macro and the tracking register. */
  datatype Copies = Copies(gold: Ram, mut: Ram, same: bool)

  ghost predicate InStep(c: Copies) {
    c.gold.mem == c.mut.mem && (c.same ==> c.gold.dout == c.mut.dout)
  }

  function CopiesStep(c: Copies, g: Access, m: Access): Copies {
    Copies(RamStep(c.gold, g), RamStep(c.mut, m), SameStep(c.same, g, m))
  }

  lemma CopiesStayInStep(c: Copies, g: Access, m: Access)
    requires InStep(c) && WritesAgree(g, m)
    ensures InStep(CopiesStep(c, g, m))
  {
  }

  function CopiesAfter(c: Copies, gs: seq<Access>, ms: seq<Access>, t: nat): Copies
    requires t <= |gs| == |ms|
  {
    if t == 0 then c else CopiesStep(CopiesAfter(c, gs, ms, t - 1), gs[t - 1], ms[t - 1])
  }

  /**
   From equal contents and outputs, in every run whose writes agree in each cycle, the contents stay
   equal, and the read outputs are equal whenever the tracking register is set, also after the
   copies have read different addresses.
   */
  lemma {:induction false} TwoCopySafety(c: Copies, gs: seq<Access>, ms: seq<Access>, t: nat)
    requires InStep(c) && t <= |gs| == |ms|
    requires forall u | 0 <= u < t :: WritesAgree(gs[u], ms[u])
    ensures InStep(CopiesAfter(c, gs, ms, t))
  {
    hide InStep, WritesAgree, CopiesStep;
    if t > 0 {
      TwoCopySafety(c, gs, ms, t - 1);
      CopiesStayInStep(CopiesAfter(c, gs, ms, t - 1), gs[t - 1], ms[t - 1]);
    }
  }

  /** The last cycle before t in which a copy reads; t when there is none. */
  function LastRead(gs: seq<Access>, ms: seq<Access>, t: nat, u: nat): (last: nat)
    requires u <= t <= |gs| == |ms|
    ensures last < u || last == t
    ensures last < u ==> (Reads(gs[last]) || Reads(ms[last]))
    ensures forall v | (if last < u then last + 1 else 0) <= v < u :: !Reads(gs[v]) && !Reads(ms[v])
  {
    if u == 0 then t else if Reads(gs[u - 1]) || Reads(ms[u - 1]) then u - 1 else LastRead(gs, ms, t, u - 1)
  }

  /** Each copy is a macro under its own accesses; the tracking register judges the last read alone. */
  lemma {:induction false} CopiesAre(c: Copies, gs: seq<Access>, ms: seq<Access>, t: nat)
    requires t <= |gs| == |ms|
    ensures var now, last := CopiesAfter(c, gs, ms, t), LastRead(gs, ms, t, t);
      && now.gold == RamAfter(c.gold, gs, t) && now.mut == RamAfter(c.mut, ms, t)
      && (now.same <==> if last < t then ReadsAgree(gs[last], ms[last]) else c.same)
  {
    hide ReadsAgree, RamStep;
    if t > 0 {
      CopiesAre(c, gs, ms, t - 1);
      LastReadIs(gs, ms, t);
    }
  }

  lemma LastReadIs(gs: seq<Access>, ms: seq<Access>, t: nat)
    requires 0 < t <= |gs| == |ms|
    ensures LastRead(gs, ms, t, t) == if Reads(gs[t - 1]) || Reads(ms[t - 1]) then t - 1
      else if LastRead(gs, ms, t - 1, t - 1) == t - 1 then t else LastRead(gs, ms, t - 1, t - 1)
  {
    var now, before := LastRead(gs, ms, t, t), LastRead(gs, ms, t - 1, t - 1);
    if !Reads(gs[t - 1]) && !Reads(ms[t - 1]) && before < t - 1 {
      assert now >= before;
    }
  }

  /** The tracking register as emitted: one clocked assignment. */
  class Tracker {
    var same: bool

    constructor ()
      ensures same
    {
      same := true;
    }

    method Edge(g: Access, m: Access, ghost gold: Ram, ghost mut: Ram)
      modifies this
      ensures same == SameStep(old(same), g, m)
      ensures old(InStep(Copies(gold, mut, same))) && WritesAgree(g, m)
        ==> InStep(Copies(RamStep(gold, g), RamStep(mut, m), same))
    {
      var rSame := (g.men && g.ren) == (m.men && m.ren) && (!(g.men && g.ren) || g.addr == m.addr);
      same := if (g.men && g.ren) || (m.men && m.ren) then rSame else same;
    }
  }

  // ------------------------------------------------------------ cores and real systems

  type Words = w: seq<Word> | |w| == MACROS witness seq(MACROS, _ => 0)
  type Accesses = a: seq<Access> | |a| == MACROS witness seq(MACROS, _ => Access(false, false, false, 0, 0))
  type Rams = r: seq<Ram> | |r| == MACROS witness seq(MACROS, _ => Ram(seq(64, _ => 0), 0))

  /** A core with its macros cut out: accesses, pins and next state from state, inputs and read words. */
  datatype Core<!S, !I, !O> = Core(access: (S, I, Words) -> Accesses, pins: (S, I, Words) -> O, next: (S, I, Words) -> S)

  function Douts(rams: Rams): Words { seq(MACROS, k requires 0 <= k < MACROS => rams[k].dout) }

  function RamsStep(rams: Rams, a: Accesses): Rams { seq(MACROS, k requires 0 <= k < MACROS => RamStep(rams[k], a[k])) }

  /** A core with real macros. */
  datatype System<S> = System(s: S, rams: Rams)

  function SystemAfter<S, I, O>(core: Core<S, I, O>, sys: System<S>, inputs: seq<I>, t: nat): System<S>
    requires t <= |inputs|
  {
    if t == 0 then sys
    else
      var before, i := SystemAfter(core, sys, inputs, t - 1), inputs[t - 1];
      System(core.next(before.s, i, Douts(before.rams)),
             RamsStep(before.rams, core.access(before.s, i, Douts(before.rams))))
  }

  function SystemAccess<S, I, O>(core: Core<S, I, O>, sys: System<S>, inputs: seq<I>, t: nat): Accesses
    requires t < |inputs|
  {
    var now := SystemAfter(core, sys, inputs, t);
    core.access(now.s, inputs[t], Douts(now.rams))
  }

  function SystemPins<S, I, O>(core: Core<S, I, O>, sys: System<S>, inputs: seq<I>, t: nat): O
    requires t < |inputs|
  {
    var now := SystemAfter(core, sys, inputs, t);
    core.pins(now.s, inputs[t], Douts(now.rams))
  }

  // ------------------------------------------------------------ the miter

  /** v1: all SRAM inputs compared. v2: SHARED. v3: SHARED,REG. */
  datatype Mode = Separate | Shared | Registered

  type Flags = f: seq<bool> | |f| == MACROS witness seq(MACROS, _ => true)
  type Models = m: seq<Model> | |m| == MACROS witness seq(MACROS, _ => Model(0, 0, false))

  /** One cycle's inputs: the pins, and the free words sram_dout and sram_dout_m. */
  datatype Stim<I> = Stim(input: I, gold: Words, mut: Words)

  /** The miter's registers: both cores' states, the tracking registers, the registered reads. */
  datatype Miter<S> = Miter(gs: S, ms: S, same: Flags, regs: Models)

  function GoldDouts<S, I>(mode: Mode, st: Miter<S>, x: Stim<I>): Words {
    if mode.Registered? then seq(MACROS, k requires 0 <= k < MACROS => st.regs[k].gd) else x.gold
  }

  function MutDouts<S, I>(mode: Mode, st: Miter<S>, x: Stim<I>): Words {
    if mode.Separate? then x.gold
    else
      var gold := GoldDouts(mode, st, x);
      seq(MACROS, k requires 0 <= k < MACROS => if st.same[k] then gold[k] else x.mut[k])
  }

  /** What the copies read: the same words while same holds, and throughout when all SRAM inputs are compared. */
  lemma ReadWords<S, I>(mode: Mode, st: Miter<S>, x: Stim<I>, k: nat)
    requires k < MACROS
    ensures mode.Separate? || st.same[k] ==> MutDouts(mode, st, x)[k] == GoldDouts(mode, st, x)[k]
    ensures !mode.Separate? && !st.same[k] ==> MutDouts(mode, st, x)[k] == x.mut[k]
    ensures GoldDouts(mode, st, x)[k] == if mode.Registered? then st.regs[k].gd else x.gold[k]
  {
  }

  function GoldAccess<S, I, O>(mode: Mode, gold: Core<S, I, O>, st: Miter<S>, x: Stim<I>): Accesses {
    gold.access(st.gs, x.input, GoldDouts(mode, st, x))
  }

  function MutAccess<S, I, O>(mode: Mode, mut: Core<S, I, O>, st: Miter<S>, x: Stim<I>): Accesses {
    mut.access(st.ms, x.input, MutDouts(mode, st, x))
  }

  function MiterStep<S, I, O>(mode: Mode, gold: Core<S, I, O>, mut: Core<S, I, O>, st: Miter<S>, x: Stim<I>): Miter<S> {
    var ga, ma := GoldAccess(mode, gold, st, x), MutAccess(mode, mut, st, x);
    Miter(gold.next(st.gs, x.input, GoldDouts(mode, st, x)),
          mut.next(st.ms, x.input, MutDouts(mode, st, x)),
          seq(MACROS, k requires 0 <= k < MACROS => SameStep(st.same[k], ga[k], ma[k])),
          seq(MACROS, k requires 0 <= k < MACROS => RegStep(st.regs[k], ga[k], x.gold[k])))
  }

  function MiterAfter<S, I, O>(mode: Mode, gold: Core<S, I, O>, mut: Core<S, I, O>, st: Miter<S>, xs: seq<Stim<I>>,
                               t: nat): Miter<S>
    requires t <= |xs|
  {
    if t == 0 then st else MiterStep(mode, gold, mut, MiterAfter(mode, gold, mut, st, xs, t - 1), xs[t - 1])
  }

  /** The SRAM part of the assertion. */
  ghost predicate TrafficOk(mode: Mode, ga: Accesses, ma: Accesses) {
    forall k | 0 <= k < MACROS :: WritesAgree(ga[k], ma[k]) && (mode.Separate? ==> ReadsAgree(ga[k], ma[k]))
  }

  /** The assertion in one cycle; agree is the comparison of the pins (strict or contract). */
  ghost predicate Asserted<S, I, O>(mode: Mode, agree: (O, O) -> bool, gold: Core<S, I, O>, mut: Core<S, I, O>,
                                    st: Miter<S>, x: Stim<I>)
  {
    && agree(gold.pins(st.gs, x.input, GoldDouts(mode, st, x)), mut.pins(st.ms, x.input, MutDouts(mode, st, x)))
    && TrafficOk(mode, GoldAccess(mode, gold, st, x), MutAccess(mode, mut, st, x))
  }

  /** A proof of the miter: the assertion holds in every cycle from a first one on, whatever the inputs. */
  ghost predicate Proven<S, I(!new), O>(mode: Mode, agree: (O, O) -> bool, gold: Core<S, I, O>, mut: Core<S, I, O>,
                                        st: Miter<S>, first: nat)
  {
    forall xs: seq<Stim<I>>, t: nat | first <= t < |xs| ::
      Asserted(mode, agree, gold, mut, MiterAfter(mode, gold, mut, st, xs, t), xs[t])
  }

  // ------------------------------------------------------------ replaying real systems

  /** The free words that make the miter see what the real macros deliver. */
  function ReplayAt<S, I, O>(mode: Mode, gold: Core<S, I, O>, mut: Core<S, I, O>, g: System<S>, m: System<S>,
                             inputs: seq<I>, t: nat): Stim<I>
    requires t < |inputs|
  {
    var now, access := SystemAfter(gold, g, inputs, t), SystemAccess(gold, g, inputs, t);
    Stim(inputs[t],
         if mode.Registered? then seq(MACROS, k requires 0 <= k < MACROS => NextWord(now.rams[k], access[k]))
         else Douts(now.rams),
         Douts(SystemAfter(mut, m, inputs, t).rams))
  }

  function Replay<S, I, O>(mode: Mode, gold: Core<S, I, O>, mut: Core<S, I, O>, g: System<S>, m: System<S>,
                           inputs: seq<I>): (xs: seq<Stim<I>>)
    ensures |xs| == |inputs|
    ensures forall t | 0 <= t < |inputs| :: xs[t] == ReplayAt(mode, gold, mut, g, m, inputs, t)
  {
    seq(|inputs|, t requires 0 <= t < |inputs| => ReplayAt(mode, gold, mut, g, m, inputs, t))
  }

  /** Contents equal, and outputs equal where the miter takes them to be. */
  ghost predicate CopiesAgree<S>(mode: Mode, g: System<S>, m: System<S>, same: Flags) {
    forall k | 0 <= k < MACROS ::
      InStep(Copies(g.rams[k], m.rams[k], same[k])) && (mode.Separate? ==> g.rams[k].dout == m.rams[k].dout)
  }

  /** Miter and real systems at the same point of a run. */
  ghost predicate Mirrors<S>(mode: Mode, st: Miter<S>, g: System<S>, m: System<S>) {
    && st.gs == g.s && st.ms == m.s && CopiesAgree(mode, g, m, st.same)
    && (mode.Registered? ==> forall k | 0 <= k < MACROS :: Tracks(st.regs[k], g.rams[k]))
  }

  /** The macros as they start: equal contents and outputs, cleared registers. */
  ghost predicate Starts<S>(mode: Mode, st: Miter<S>, g: System<S>, m: System<S>) {
    && st.gs == g.s && st.ms == m.s && g.rams == m.rams
    && (forall k | 0 <= k < MACROS :: st.same[k])
    && (mode.Registered? ==> forall k | 0 <= k < MACROS :: st.regs[k].gd == g.rams[k].dout && !st.regs[k].lv)
  }

  lemma MirroredDouts<S, I>(mode: Mode, st: Miter<S>, g: System<S>, m: System<S>, x: Stim<I>)
    requires Mirrors(mode, st, g, m) && x.mut == Douts(m.rams) && (!mode.Registered? ==> x.gold == Douts(g.rams))
    ensures GoldDouts(mode, st, x) == Douts(g.rams) && MutDouts(mode, st, x) == Douts(m.rams)
    ensures st.gs == g.s && st.ms == m.s
  {
    var gold, mutant := GoldDouts(mode, st, x), MutDouts(mode, st, x);
    forall k | 0 <= k < MACROS ensures gold[k] == g.rams[k].dout && mutant[k] == m.rams[k].dout {
      assert InStep(Copies(g.rams[k], m.rams[k], st.same[k]));
    }
  }

  /** One cycle: the cores stay together, and the registers stay on the gold macros unless one is missed. */
  lemma CoresStep<S, I, O>(mode: Mode, gold: Core<S, I, O>, mut: Core<S, I, O>, st: Miter<S>, g: System<S>,
                           m: System<S>, x: Stim<I>)
    requires Mirrors(mode, st, g, m) && x.mut == Douts(m.rams) && (!mode.Registered? ==> x.gold == Douts(g.rams))
    requires var ga := gold.access(g.s, x.input, Douts(g.rams));
      mode.Registered? ==> forall k | 0 <= k < MACROS ::
        x.gold[k] == NextWord(g.rams[k], ga[k]) && !RegMisses(st.regs[k], g.rams[k], ga[k])
    ensures var ga, ma := gold.access(g.s, x.input, Douts(g.rams)), mut.access(m.s, x.input, Douts(m.rams));
      var after := MiterStep(mode, gold, mut, st, x);
      && after.gs == gold.next(g.s, x.input, Douts(g.rams)) && after.ms == mut.next(m.s, x.input, Douts(m.rams))
      && (forall k | 0 <= k < MACROS :: after.same[k] == SameStep(st.same[k], ga[k], ma[k]))
      && (forall k | 0 <= k < MACROS :: after.regs[k] == RegStep(st.regs[k], ga[k], x.gold[k]))
      && (mode.Registered? ==> forall k | 0 <= k < MACROS :: Tracks(after.regs[k], RamStep(g.rams[k], ga[k])))
  {
    hide CopiesAgree, RegMisses, NextWord, Tracks, RegStep, RamStep;
    MirroredDouts(mode, st, g, m, x);
    var ga := gold.access(g.s, x.input, Douts(g.rams));
    if mode.Registered? {
      forall k | 0 <= k < MACROS ensures Tracks(RegStep(st.regs[k], ga[k], x.gold[k]), RamStep(g.rams[k], ga[k])) {
        TracksStep(st.regs[k], g.rams[k], ga[k], x.gold[k]);
      }
    }
  }

  lemma TracksStep(m: Model, r: Ram, a: Access, free: Word)
    requires Tracks(m, r) && !RegMisses(m, r, a) && free == NextWord(r, a)
    ensures Tracks(RegStep(m, a, free), RamStep(r, a))
  {
    hide RamStep;
    RegTracks(m, r, a, free);
  }

  /** Agreeing traffic keeps the copies in agreement. */
  lemma AgreementKept<S>(mode: Mode, g: System<S>, m: System<S>, same: Flags, ga: Accesses, ma: Accesses, same': Flags,
                         s: S, s': S)
    requires CopiesAgree(mode, g, m, same) && TrafficOk(mode, ga, ma)
    requires forall k | 0 <= k < MACROS :: same'[k] == SameStep(same[k], ga[k], ma[k])
    ensures CopiesAgree(mode, System(s, RamsStep(g.rams, ga)), System(s', RamsStep(m.rams, ma)), same')
  {
    forall k | 0 <= k < MACROS
      ensures InStep(Copies(RamStep(g.rams[k], ga[k]), RamStep(m.rams[k], ma[k]), same'[k]))
      ensures mode.Separate? ==> RamStep(g.rams[k], ga[k]).dout == RamStep(m.rams[k], ma[k]).dout
    {
      assert InStep(Copies(g.rams[k], m.rams[k], same[k])) && WritesAgree(ga[k], ma[k]);
      CopiesStayInStep(Copies(g.rams[k], m.rams[k], same[k]), ga[k], ma[k]);
    }
  }

  /** The SRAM traffic of both real systems in one cycle. */
  ghost predicate RealTrafficOk<S, I, O>(mode: Mode, gold: Core<S, I, O>, mut: Core<S, I, O>, g: System<S>,
                                         m: System<S>, inputs: seq<I>, t: nat)
    requires t < |inputs|
  {
    TrafficOk(mode, SystemAccess(gold, g, inputs, t), SystemAccess(mut, m, inputs, t))
  }

  /** The tracking registers as the real traffic sets them. */
  ghost function RealSame<S, I, O>(gold: Core<S, I, O>, mut: Core<S, I, O>, g: System<S>, m: System<S>, inputs: seq<I>,
                                   t: nat): Flags
    requires t <= |inputs|
  {
    if t == 0 then seq(MACROS, _ => true)
    else
      var before := RealSame(gold, mut, g, m, inputs, t - 1);
      var ga, ma := SystemAccess(gold, g, inputs, t - 1), SystemAccess(mut, m, inputs, t - 1);
      seq(MACROS, k requires 0 <= k < MACROS => SameStep(before[k], ga[k], ma[k]))
  }

  /** The real macros of both systems agree before cycle t. */
  ghost predicate AgreeAt<S, I, O>(mode: Mode, gold: Core<S, I, O>, mut: Core<S, I, O>, g: System<S>, m: System<S>,
                                   inputs: seq<I>, t: nat)
    requires t <= |inputs|
  {
    CopiesAgree(mode, SystemAfter(gold, g, inputs, t), SystemAfter(mut, m, inputs, t),
                RealSame(gold, mut, g, m, inputs, t))
  }

  /** The accesses of the gold system to macro k. */
  ghost function GoldAccesses<S, I, O>(gold: Core<S, I, O>, g: System<S>, inputs: seq<I>, k: nat): (accesses: seq<Access>)
    requires k < MACROS
    ensures |accesses| == |inputs|
    ensures forall t | 0 <= t < |inputs| :: accesses[t] == SystemAccess(gold, g, inputs, t)[k]
  {
    seq(|inputs|, t requires 0 <= t < |inputs| => SystemAccess(gold, g, inputs, t)[k])
  }

  lemma {:induction false} RamsOfSystem<S, I, O>(gold: Core<S, I, O>, g: System<S>, inputs: seq<I>, k: nat, t: nat)
    requires k < MACROS && t <= |inputs|
    ensures SystemAfter(gold, g, inputs, t).rams[k] == RamAfter(g.rams[k], GoldAccesses(gold, g, inputs, k), t)
  {
    hide RamStep;
    if t > 0 { RamsOfSystem(gold, g, inputs, k, t - 1); }
  }

  /** In v3, the gold system makes no access that mk_miter's register misses. */
  ghost predicate NothingMissed<S, I, O>(mode: Mode, gold: Core<S, I, O>, st: Miter<S>, g: System<S>, inputs: seq<I>) {
    mode.Registered? ==> forall t, k | 0 <= t < |inputs| && 0 <= k < MACROS ::
      !RegMissesAt(st.regs[k], g.rams[k], GoldAccesses(gold, g, inputs, k), t)
  }

  lemma StartMirrors<S, I, O>(mode: Mode, gold: Core<S, I, O>, mut: Core<S, I, O>, st: Miter<S>, g: System<S>,
                              m: System<S>, inputs: seq<I>)
    requires Starts(mode, st, g, m)
    ensures Mirrors(mode, st, g, m) && st.same == RealSame(gold, mut, g, m, inputs, 0)
    ensures AgreeAt(mode, gold, mut, g, m, inputs, 0)
  {
  }

  /** The real traffic agrees in a cycle in which the miter's assertion holds on the replayed words. */
  lemma AssertedIsReal<S, I, O>(mode: Mode, agree: (O, O) -> bool, gold: Core<S, I, O>, mut: Core<S, I, O>,
                                now: Miter<S>, g: System<S>, m: System<S>, x: Stim<I>)
    requires Mirrors(mode, now, g, m) && x.mut == Douts(m.rams) && (!mode.Registered? ==> x.gold == Douts(g.rams))
    requires Asserted(mode, agree, gold, mut, now, x)
    ensures TrafficOk(mode, gold.access(g.s, x.input, Douts(g.rams)), mut.access(m.s, x.input, Douts(m.rams)))
    ensures agree(gold.pins(g.s, x.input, Douts(g.rams)), mut.pins(m.s, x.input, Douts(m.rams)))
  {
    hide TrafficOk, Mirrors, GoldDouts, MutDouts;
    MirroredDouts(mode, now, g, m, x);
  }

  /** The miter's registers follow the real run. */
  ghost predicate Replayed<S, I, O>(mode: Mode, gold: Core<S, I, O>, mut: Core<S, I, O>, st: Miter<S>, g: System<S>,
                                    m: System<S>, inputs: seq<I>, now: Miter<S>, t: nat)
    requires t <= |inputs|
  {
    && Mirrors(mode, now, SystemAfter(gold, g, inputs, t), SystemAfter(mut, m, inputs, t))
    && now.same == RealSame(gold, mut, g, m, inputs, t)
    && (mode.Registered? ==> forall k | 0 <= k < MACROS ::
          var accesses := GoldAccesses(gold, g, inputs, k);
          now.regs[k] == RegAfter(st.regs[k], accesses, Following(g.rams[k], accesses), t))
  }

  /** From a replayed cycle, and copies that agree after it, the next cycle is replayed. */
  lemma ReplayedStep<S, I, O>(mode: Mode, gold: Core<S, I, O>, mut: Core<S, I, O>, st: Miter<S>, g: System<S>,
                              m: System<S>, inputs: seq<I>, now: Miter<S>, u: nat)
    requires u < |inputs| && Replayed(mode, gold, mut, st, g, m, inputs, now, u)
    requires NothingMissed(mode, gold, st, g, inputs) && AgreeAt(mode, gold, mut, g, m, inputs, u + 1)
    ensures Replayed(mode, gold, mut, st, g, m, inputs,
                     MiterStep(mode, gold, mut, now, ReplayAt(mode, gold, mut, g, m, inputs, u)), u + 1)
  {
    hide CopiesAgree, RegStep, RegMisses, NextWord, Tracks, MiterStep, SameStep;
    var x := ReplayAt(mode, gold, mut, g, m, inputs, u);
    var gu, mu := SystemAfter(gold, g, inputs, u), SystemAfter(mut, m, inputs, u);
    var ga := SystemAccess(gold, g, inputs, u);
    if mode.Registered? {
      forall k | 0 <= k < MACROS
        ensures x.gold[k] == NextWord(gu.rams[k], ga[k]) && !RegMisses(now.regs[k], gu.rams[k], ga[k])
      {
        RamsOfSystem(gold, g, inputs, k, u);
        assert !RegMissesAt(st.regs[k], g.rams[k], GoldAccesses(gold, g, inputs, k), u);
      }
    }
    CoresStep(mode, gold, mut, now, gu, mu, x);
    var after := MiterStep(mode, gold, mut, now, x);
    assert after.same == RealSame(gold, mut, g, m, inputs, u + 1);
    if mode.Registered? {
      forall k | 0 <= k < MACROS
        ensures var accesses := GoldAccesses(gold, g, inputs, k);
          after.regs[k] == RegAfter(st.regs[k], accesses, Following(g.rams[k], accesses), u + 1)
      {
        RamsOfSystem(gold, g, inputs, k, u);
      }
    }
  }

  /**
   The replay. If the copies agree up to cycle first, the free inputs can be chosen so that the miter
   follows both real systems through the whole run, and the copies agree throughout.
   */
  lemma {:induction false} ReplayMirrors<S, I(!new), O>(mode: Mode, agree: (O, O) -> bool, gold: Core<S, I, O>,
      mut: Core<S, I, O>, st: Miter<S>, g: System<S>, m: System<S>, inputs: seq<I>, first: nat, t: nat)
    requires Proven(mode, agree, gold, mut, st, first) && Starts(mode, st, g, m) && t <= |inputs|
    requires NothingMissed(mode, gold, st, g, inputs)
    requires forall u | 0 <= u <= first && u <= |inputs| :: AgreeAt(mode, gold, mut, g, m, inputs, u)
    ensures Replayed(mode, gold, mut, st, g, m, inputs,
                     MiterAfter(mode, gold, mut, st, Replay(mode, gold, mut, g, m, inputs), t), t)
    ensures AgreeAt(mode, gold, mut, g, m, inputs, t)
  {
    hide Mirrors, MiterStep, MiterAfter, Starts, Asserted, AgreeAt, NothingMissed, Replayed, Proven, ReplayAt;
    MiterRuns(mode, gold, mut, st, Replay(mode, gold, mut, g, m, inputs), t);
    if t == 0 {
      StartMirrors(mode, gold, mut, st, g, m, inputs);
      NothingReplayed(mode, gold, mut, st, g, m, inputs);
    } else {
      var xs, u := Replay(mode, gold, mut, g, m, inputs), t - 1;
      ReplayMirrors(mode, agree, gold, mut, st, g, m, inputs, first, u);
      var now := MiterAfter(mode, gold, mut, st, xs, u);
      if u >= first {
        ProvenAt(mode, agree, gold, mut, st, first, xs, u);
        AssertedKeepsAgreement(mode, agree, gold, mut, st, g, m, inputs, now, u);
      }
      ReplayedStep(mode, gold, mut, st, g, m, inputs, now, u);
    }
  }

  lemma ProvenAt<S, I(!new), O>(mode: Mode, agree: (O, O) -> bool, gold: Core<S, I, O>, mut: Core<S, I, O>,
                                st: Miter<S>, first: nat, xs: seq<Stim<I>>, t: nat)
    requires Proven(mode, agree, gold, mut, st, first) && first <= t < |xs|
    ensures Asserted(mode, agree, gold, mut, MiterAfter(mode, gold, mut, st, xs, t), xs[t])
  {
    hide Asserted, MiterAfter;
  }

  lemma MiterRuns<S, I, O>(mode: Mode, gold: Core<S, I, O>, mut: Core<S, I, O>, st: Miter<S>, xs: seq<Stim<I>>, t: nat)
    requires t <= |xs|
    ensures MiterAfter(mode, gold, mut, st, xs, t) ==
      if t == 0 then st else MiterStep(mode, gold, mut, MiterAfter(mode, gold, mut, st, xs, t - 1), xs[t - 1])
  {
    hide MiterStep;
  }

  /** In a replayed cycle an asserted miter keeps the real macros in agreement. */
  lemma AssertedKeepsAgreement<S, I, O>(mode: Mode, agree: (O, O) -> bool, gold: Core<S, I, O>, mut: Core<S, I, O>,
      st: Miter<S>, g: System<S>, m: System<S>, inputs: seq<I>, now: Miter<S>, u: nat)
    requires u < |inputs| && Replayed(mode, gold, mut, st, g, m, inputs, now, u)
    requires AgreeAt(mode, gold, mut, g, m, inputs, u)
    requires Asserted(mode, agree, gold, mut, now, ReplayAt(mode, gold, mut, g, m, inputs, u))
    ensures AgreeAt(mode, gold, mut, g, m, inputs, u + 1)
  {
    hide Mirrors, TrafficOk, Asserted, Douts, CopiesAgree, AgreeAt, RegAfter;
    var gu, mu := SystemAfter(gold, g, inputs, u), SystemAfter(mut, m, inputs, u);
    AssertedIsReal(mode, agree, gold, mut, now, gu, mu, ReplayAt(mode, gold, mut, g, m, inputs, u));
    TrafficKeepsAgreement(mode, gold, mut, g, m, inputs, u);
  }

  lemma NothingReplayed<S, I, O>(mode: Mode, gold: Core<S, I, O>, mut: Core<S, I, O>, st: Miter<S>, g: System<S>,
                                 m: System<S>, inputs: seq<I>)
    requires Mirrors(mode, st, g, m) && st.same == RealSame(gold, mut, g, m, inputs, 0)
    ensures Replayed(mode, gold, mut, st, g, m, inputs, st, 0)
  {
  }

  /** A cycle with agreeing real traffic keeps the real macros in agreement. */
  lemma TrafficKeepsAgreement<S, I, O>(mode: Mode, gold: Core<S, I, O>, mut: Core<S, I, O>, g: System<S>,
                                       m: System<S>, inputs: seq<I>, u: nat)
    requires u < |inputs| && AgreeAt(mode, gold, mut, g, m, inputs, u)
    requires RealTrafficOk(mode, gold, mut, g, m, inputs, u)
    ensures AgreeAt(mode, gold, mut, g, m, inputs, u + 1)
  {
    hide CopiesAgree, TrafficOk, SameStep, RamsStep;
    var gu, mu := SystemAfter(gold, g, inputs, u), SystemAfter(mut, m, inputs, u);
    var gv, mv := SystemAfter(gold, g, inputs, u + 1), SystemAfter(mut, m, inputs, u + 1);
    AgreementKept(mode, gu, mu, RealSame(gold, mut, g, m, inputs, u), SystemAccess(gold, g, inputs, u),
      SystemAccess(mut, m, inputs, u), RealSame(gold, mut, g, m, inputs, u + 1), gv.s, mv.s);
  }

  /**
   Soundness of the miter. If the assertion is proved for all free words from cycle first on, and
   the real macros of both systems agree up to there, then for any common contents and any inputs
   the pins and the traffic agree in every cycle from first on.
   */
  lemma MiterIsSound<S, I(!new), O>(mode: Mode, agree: (O, O) -> bool, gold: Core<S, I, O>, mut: Core<S, I, O>,
      st: Miter<S>, g: System<S>, m: System<S>, inputs: seq<I>, first: nat, t: nat)
    requires Proven(mode, agree, gold, mut, st, first) && Starts(mode, st, g, m) && first <= t < |inputs|
    requires NothingMissed(mode, gold, st, g, inputs)
    requires forall u | 0 <= u <= first :: AgreeAt(mode, gold, mut, g, m, inputs, u)
    ensures agree(SystemPins(gold, g, inputs, t), SystemPins(mut, m, inputs, t))
    ensures RealTrafficOk(mode, gold, mut, g, m, inputs, t)
  {
    hide Mirrors, TrafficOk, MiterStep, Asserted, Douts, Starts, NothingMissed, AgreeAt, RegAfter;
    ReplayMirrors(mode, agree, gold, mut, st, g, m, inputs, first, t);
    var xs := Replay(mode, gold, mut, g, m, inputs);
    var now := MiterAfter(mode, gold, mut, st, xs, t);
    assert xs[t] == ReplayAt(mode, gold, mut, g, m, inputs, t);
    assert Asserted(mode, agree, gold, mut, now, xs[t]);
    AssertedIsReal(mode, agree, gold, mut, now, SystemAfter(gold, g, inputs, t), SystemAfter(mut, m, inputs, t), xs[t]);
  }

  /** With the assertion proved in every cycle (k-induction), nothing has to be known about the first ones. */
  lemma ProvenThroughout<S, I(!new), O>(mode: Mode, agree: (O, O) -> bool, gold: Core<S, I, O>, mut: Core<S, I, O>,
      st: Miter<S>, g: System<S>, m: System<S>, inputs: seq<I>, t: nat)
    requires Proven(mode, agree, gold, mut, st, 0) && Starts(mode, st, g, m) && t < |inputs|
    requires NothingMissed(mode, gold, st, g, inputs)
    ensures agree(SystemPins(gold, g, inputs, t), SystemPins(mut, m, inputs, t))
  {
    hide Proven, Starts, NothingMissed, AgreeAt, SystemPins;
    StartMirrors(mode, gold, mut, st, g, m, inputs);
    MiterIsSound(mode, agree, gold, mut, st, g, m, inputs, 0, t);
  }

  /**
   With the assertion skipped in the first cycle, its clock edge decides: the macros agree in every
   later cycle if and only if they agree after it.
   */
  lemma FirstEdgeDecides<S, I(!new), O>(mode: Mode, agree: (O, O) -> bool, gold: Core<S, I, O>, mut: Core<S, I, O>,
      st: Miter<S>, g: System<S>, m: System<S>, inputs: seq<I>)
    requires Proven(mode, agree, gold, mut, st, 1) && Starts(mode, st, g, m) && inputs != []
    requires NothingMissed(mode, gold, st, g, inputs)
    ensures AgreeAt(mode, gold, mut, g, m, inputs, 1)
      <==> forall t | 1 <= t <= |inputs| :: AgreeAt(mode, gold, mut, g, m, inputs, t)
  {
    hide Proven, Starts, NothingMissed, AgreeAt;
    StartMirrors(mode, gold, mut, st, g, m, inputs);
    if AgreeAt(mode, gold, mut, g, m, inputs, 1) {
      forall t | 1 <= t <= |inputs| ensures AgreeAt(mode, gold, mut, g, m, inputs, t) {
        ReplayMirrors(mode, agree, gold, mut, st, g, m, inputs, 1, t);
      }
    }
  }

  // ------------------------------------------------------------ the unasserted first cycle

  function Everywhere(a: Access): (all: Accesses)
    ensures forall k | 0 <= k < MACROS :: all[k] == a
  {
    seq(MACROS, _ => a)
  }

  const READ_ZERO := Access(true, false, true, 0, 0)
  const IDLE := Access(false, false, false, 0, 0)
  const WRITE_ONE := Access(true, true, false, 0, 1)

  /** A core that makes one access in its first cycle, then reads address 0; its pins show the first macro's output. */
  function Starting(first: Access): (core: Core<bool, bool, Word>)
    ensures forall s, i, d :: core.access(s, i, d) == Everywhere(if s then READ_ZERO else first)
    ensures forall s, i, d :: core.pins(s, i, d) == d[0] && core.next(s, i, d)
  {
    Core((started: bool, _: bool, _: Words) => Everywhere(if started then READ_ZERO else first),
         (_: bool, _: bool, douts: Words) => douts[0],
         (_: bool, _: bool, _: Words) => true)
  }

  function Same(x: Word, y: Word): bool { x == y }

  function Blank(): (mem: Memory)
    ensures forall a | 0 <= a < 64 :: mem[a] == 0
  {
    seq(64, _ => 0)
  }

  function ColdMiter(): (st: Miter<bool>)
    ensures !st.gs && !st.ms && forall k | 0 <= k < MACROS :: st.same[k]
  {
    Miter(false, false, seq(MACROS, _ => true), seq(MACROS, _ => Model(0, 0, false)))
  }

  function ColdSystem(): (sys: System<bool>)
    ensures !sys.s && forall k | 0 <= k < MACROS :: sys.rams[k] == Ram(Blank(), 0)
  {
    System(false, seq(MACROS, _ => Ram(Blank(), 0)))
  }

  lemma {:induction false} EarlyWriteIsUnseen(xs: seq<Stim<bool>>, t: nat)
    requires t <= |xs|
    ensures var now := MiterAfter(Shared, Starting(IDLE), Starting(WRITE_ONE), ColdMiter(), xs, t);
      now.gs == now.ms == (t > 0) && forall k | 0 <= k < MACROS :: now.same[k]
  {
    hide Starting, ColdMiter, Everywhere;
    if t > 0 { EarlyWriteIsUnseen(xs, t - 1); }
  }

  /** With real macros, the third cycle shows what the first one wrote. */
  lemma ThirdCycle(first: Access, inputs: seq<bool>)
    requires |inputs| == 3 && (first == IDLE || first == WRITE_ONE)
    ensures SystemPins(Starting(first), ColdSystem(), inputs, 2) == if first == WRITE_ONE then 1 else 0
  {
    hide Starting, ColdSystem, Everywhere;
    var core := Starting(first);
    var s0, s1, s2 := SystemAfter(core, ColdSystem(), inputs, 0), SystemAfter(core, ColdSystem(), inputs, 1),
                      SystemAfter(core, ColdSystem(), inputs, 2);
    assert s0 == ColdSystem();
    assert s1.s && s1.rams[0] == RamStep(s0.rams[0], first);
    assert s2.rams[0] == RamStep(s1.rams[0], READ_ZERO);
  }

  /**
   Outside k-induction the assertion is skipped in the first cycle. Without the premise about that
   cycle soundness fails: a mutant that writes then is proved equal, and differs with real macros.
   */
  lemma FirstCycleMatters()
    ensures Proven(Shared, Same, Starting(IDLE), Starting(WRITE_ONE), ColdMiter(), 1)
    ensures Starts(Shared, ColdMiter(), ColdSystem(), ColdSystem())
    ensures var inputs := [false, false, false];
      SystemPins(Starting(IDLE), ColdSystem(), inputs, 2) != SystemPins(Starting(WRITE_ONE), ColdSystem(), inputs, 2)
  {
    hide Starting, ColdMiter, ColdSystem, Everywhere;
    forall xs: seq<Stim<bool>>, t: nat | 1 <= t < |xs|
      ensures Asserted(Shared, Same, Starting(IDLE), Starting(WRITE_ONE),
                       MiterAfter(Shared, Starting(IDLE), Starting(WRITE_ONE), ColdMiter(), xs, t), xs[t])
    {
      EarlyWriteIsUnseen(xs, t);
    }
    ThirdCycle(IDLE, [false, false, false]);
    ThirdCycle(WRITE_ONE, [false, false, false]);
  }
}
