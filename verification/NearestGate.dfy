/**
 The control mutation nearest to an output (formal_eq/eq_check.py: mutate_near_output_nand).

 A breadth-first search runs backwards from the output bits, through assigns and through every
 library cell except the SRAM macros, and stops at the first level that meets a gate of the wanted
 cell; that level's gate with the least name gets another cell.
 */
module NearestGate {
  import opened Results
  import opened ClockTree
  import opened Names

  // ------------------------------------------------------------ what drives a bit

  /** The output bits of the first k instances, in file order; macros and unknown cells drive nothing here. */
  function GateFacts(ctx: Context, nl: Netlist, order: seq<string>, k: nat): seq<Fact>
    requires k <= |order| && forall n | n in order :: n in nl.insts
  {
    if k == 0 then []
    else
      var inst := nl.insts[order[k - 1]];
      GateFacts(ctx, nl, order, k - 1)
      + if IsGate(ctx, inst) then InstFacts(ctx, order[k - 1], inst, |inst.pins|) else []
  }

  predicate IsGate(ctx: Context, inst: Inst) { inst.cell != SRAM_CELL && inst.cell in ctx.lib }

  /** The two look-up tables of the search; where a bit has several drivers, the last one counts. */
  datatype Tables = Tables(assigns: map<Bit, Driver>, gates: map<Bit, Driver>)

  ghost predicate TablesOf(ctx: Context, nl: Netlist, order: seq<string>, t: Tables)
    requires forall n | n in order :: n in nl.insts
  {
    t.assigns == Table(AssignFacts(nl)) && t.gates == Table(GateFacts(ctx, nl, order, |order|))
  }

  ghost predicate Usable(ctx: Context, nl: Netlist, t: Tables) {
    && (forall b | b in t.assigns :: t.assigns[b].FromAssign?)
    && forall b | b in t.gates ::
         t.gates[b].FromInst? && t.gates[b].inst in nl.insts && IsGate(ctx, nl.insts[t.gates[b].inst])
  }

  /** The gate that drives a bit, unless an assign does. */
  function GateOf(ctx: Context, nl: Netlist, t: Tables, b: Bit): Option<string>
    requires Usable(ctx, nl, t)
  {
    if b !in t.assigns && b in t.gates then Some(t.gates[b].inst) else None
  }

  /** The nets on the input pins of a gate. */
  function GateInputs(ctx: Context, inst: Inst): set<Bit>
    requires IsGate(ctx, inst)
  {
    set p, b | p in inst.pins && PinNamed(ctx.lib[inst.cell].pins, p.0) == Some(In) && b in p.1 && b.Net? :: b
  }

  /** One step backwards from a bit. */
  function Feeds(ctx: Context, nl: Netlist, t: Tables, b: Bit): set<Bit>
    requires Usable(ctx, nl, t)
  {
    if b in t.assigns then {t.assigns[b].src}
    else if b in t.gates then GateInputs(ctx, nl.insts[t.gates[b].inst])
    else {}
  }

  /** b is exactly k steps back from an output bit along some route. */
  ghost predicate At(ctx: Context, nl: Netlist, t: Tables, outputs: set<Bit>, k: nat, b: Bit)
    requires Usable(ctx, nl, t)
  {
    if k == 0 then b in outputs
    else exists a :: At(ctx, nl, t, outputs, k - 1, a) && b in Feeds(ctx, nl, t, a)
  }

  /** A gate of the cell src drives b. */
  predicate Wanted(ctx: Context, nl: Netlist, t: Tables, src: string, b: Bit)
    requires Usable(ctx, nl, t)
  {
    GateOf(ctx, nl, t, b).Some? && nl.insts[GateOf(ctx, nl, t, b).value].cell == src
  }

  // ------------------------------------------------------------ what the tables say about the netlist

  lemma {:induction false} TableOrigin(facts: seq<Fact>, b: Bit)
    requires b in Table(facts)
    ensures (b, Table(facts)[b]) in facts
  {
    var front, last := facts[..|facts| - 1], facts[|facts| - 1];
    assert facts == front + [last];
    if b != last.0 { TableOrigin(front, b); }
  }

  lemma {:induction false} GateFactOrigin(ctx: Context, nl: Netlist, order: seq<string>, k: nat, f: Fact)
    requires k <= |order| && (forall n | n in order :: n in nl.insts) && f in GateFacts(ctx, nl, order, k)
    ensures f.1.FromInst? && f.1.inst in order && IsGate(ctx, nl.insts[f.1.inst])
    ensures Drives(ctx, nl.insts[f.1.inst], f.0)
  {
    hide InstFacts, DirectionOf;
    if f in GateFacts(ctx, nl, order, k - 1) { GateFactOrigin(ctx, nl, order, k - 1, f); }
  }

  lemma TablesAreUsable(ctx: Context, nl: Netlist, order: seq<string>, t: Tables)
    requires (forall n | n in order :: n in nl.insts) && TablesOf(ctx, nl, order, t)
    ensures Usable(ctx, nl, t)
  {
    hide Table, GateFacts;
    forall b | b in t.assigns ensures t.assigns[b].FromAssign? { TableOrigin(AssignFacts(nl), b); }
    forall b | b in t.gates
      ensures t.gates[b].FromInst? && t.gates[b].inst in nl.insts && IsGate(ctx, nl.insts[t.gates[b].inst])
    {
      TableOrigin(GateFacts(ctx, nl, order, |order|), b);
      GateFactOrigin(ctx, nl, order, |order|, (b, t.gates[b]));
    }
  }

  /** b is on an output pin of the instance. */
  predicate Drives(ctx: Context, inst: Inst, b: Bit) {
    exists p | p in inst.pins :: DirectionOf(ctx, inst.cell, p.0) == Some(Out) && b in p.1
  }

  /** Every output bit of a gate has a fact that names the gate. */
  lemma {:induction false} GateFactFor(ctx: Context, nl: Netlist, order: seq<string>, k: nat, i: nat, b: Bit)
    returns (f: Fact)
    requires (forall n | n in order :: n in nl.insts) && i < k <= |order|
    requires IsGate(ctx, nl.insts[order[i]]) && Drives(ctx, nl.insts[order[i]], b)
    ensures f in GateFacts(ctx, nl, order, k) && f.0 == b && f.1.FromInst? && f.1.inst == order[i]
  {
    hide InstFacts, DirectionOf;
    if i < k - 1 {
      f := GateFactFor(ctx, nl, order, k - 1, i, b);
    } else {
      var inst := nl.insts[order[i]];
      var p :| p in inst.pins && DirectionOf(ctx, inst.cell, p.0) == Some(Out) && b in p.1;
      var j :| 0 <= j < |inst.pins| && inst.pins[j] == p;
      var n :| 0 <= n < |p.1| && p.1[n] == b;
      InstFactFor(ctx, order[i], inst, |inst.pins|, j, n);
      f := (b, FromInst(order[i], p.0, n));
    }
  }

  // ------------------------------------------------------------ the search in terms of the netlist

  /** An instance of a library cell other than the macro has the bit on a pin of this direction. */
  ghost predicate OnPin(ctx: Context, nl: Netlist, n: string, d: Direction, b: Bit) {
    && n in nl.insts && nl.insts[n].cell != SRAM_CELL
    && exists p | p in nl.insts[n].pins :: LibPin(ctx.lib, nl.insts[n].cell, p.0, d) && b in p.1
  }

  /** No bit is assigned or driven twice. */
  ghost predicate SingleDrivers(ctx: Context, nl: Netlist, order: seq<string>)
    requires forall n | n in order :: n in nl.insts
  {
    DistinctPins(ctx.lib) && OneDriverEach(AssignFacts(nl) + GateFacts(ctx, nl, order, |order|))
  }

  /** x is one step back from b: through an assign, or from an output pin to a net on an input pin of one gate. */
  ghost predicate StepBack(ctx: Context, nl: Netlist, order: seq<string>, b: Bit, x: Bit) {
    (b, x) in nl.assigns || exists n | n in order :: OnPin(ctx, nl, n, Out, b) && OnPin(ctx, nl, n, In, x) && x.Net?
  }

  /** b is k steps back from an output. */
  ghost predicate Behind(ctx: Context, nl: Netlist, order: seq<string>, outputs: seq<Bit>, k: nat, b: Bit) {
    if k == 0 then b in outputs
    else exists a :: Behind(ctx, nl, order, outputs, k - 1, a) && StepBack(ctx, nl, order, a, b)
  }

  /** An instance of the cell drives a bit k steps back from an output. */
  ghost predicate DrivesBehind(ctx: Context, nl: Netlist, order: seq<string>, outputs: seq<Bit>, src: string, k: nat,
                               name: string)
  {
    && name in order && name in nl.insts && nl.insts[name].cell == src
    && exists b :: Behind(ctx, nl, order, outputs, k, b) && OnPin(ctx, nl, name, Out, b)
  }

  lemma GatePins(ctx: Context, nl: Netlist, n: string, b: Bit)
    requires DistinctPins(ctx.lib) && n in nl.insts
    ensures OnPin(ctx, nl, n, Out, b) <==> IsGate(ctx, nl.insts[n]) && Drives(ctx, nl.insts[n], b)
    ensures IsGate(ctx, nl.insts[n]) ==>
      (b in GateInputs(ctx, nl.insts[n]) <==> OnPin(ctx, nl, n, In, b) && b.Net?)
  {
    hide PinNamed;
    var inst := nl.insts[n];
    if IsGate(ctx, inst) {
      forall pin, d ensures PinNamed(ctx.lib[inst.cell].pins, pin) == Some(d) <==> LibPin(ctx.lib, inst.cell, pin, d) {
        PinNamedIs(ctx.lib[inst.cell].pins, pin, d);
      }
    }
  }

  /**
   When no net has two drivers, a step backwards is what the netlist shows: the source of an assign to
   the bit, or a net on an input pin of a gate with the bit on an output pin.
   */
  lemma FeedsMeaning(ctx: Context, nl: Netlist, order: seq<string>, t: Tables, b: Bit, x: Bit)
    requires (forall n | n in order :: n in nl.insts) && TablesOf(ctx, nl, order, t) && Usable(ctx, nl, t)
    requires SingleDrivers(ctx, nl, order)
    ensures x in Feeds(ctx, nl, t, b) <==> StepBack(ctx, nl, order, b, x)
  {
    hide GateFacts, Drives, GateInputs, IsGate, Table, OnPin, OneDriverEach, DistinctPins, TablesOf;
    DriversAreFound(ctx, nl, order, t, b);
    forall n | n in order
      ensures OnPin(ctx, nl, n, Out, b) <==> IsGate(ctx, nl.insts[n]) && Drives(ctx, nl.insts[n], b)
      ensures IsGate(ctx, nl.insts[n]) ==>
        (x in GateInputs(ctx, nl.insts[n]) <==> OnPin(ctx, nl, n, In, x) && x.Net?)
    {
      GatePins(ctx, nl, n, b);
      GatePins(ctx, nl, n, x);
    }
  }

  /** The tables find the driver of every bit. */
  lemma DriversAreFound(ctx: Context, nl: Netlist, order: seq<string>, t: Tables, b: Bit)
    requires (forall n | n in order :: n in nl.insts) && TablesOf(ctx, nl, order, t) && Usable(ctx, nl, t)
    requires SingleDrivers(ctx, nl, order)
    ensures forall x :: (b, x) in nl.assigns <==> b in t.assigns && t.assigns[b].src == x
    ensures forall n | n in order ::
      (IsGate(ctx, nl.insts[n]) && Drives(ctx, nl.insts[n], b)
       <==> b !in t.assigns && b in t.gates && t.gates[b].inst == n)
    ensures b in t.gates ==> t.gates[b].inst in order
  {
    hide GateFacts, Drives, IsGate, Table;
    var assigns, gates := AssignFacts(nl), GateFacts(ctx, nl, order, |order|);
    TwoParts(assigns, gates);
    TableHolds(assigns);
    TableHolds(gates);
    if b in t.gates { GateFactOrigin(ctx, nl, order, |order|, (b, t.gates[b])); }
    if b in t.assigns {
      assert (b, t.assigns[b]) in assigns;
      var i :| 0 <= i < |nl.assigns| && (b, t.assigns[b]) == (nl.assigns[i].0, FromAssign(nl.assigns[i].1));
      assert (b, t.assigns[b].src) in nl.assigns;
    }
    forall x | (b, x) in nl.assigns ensures b in t.assigns && t.assigns[b].src == x {
      var i :| 0 <= i < |nl.assigns| && nl.assigns[i] == (b, x);
      assert assigns[i] == (b, FromAssign(x)) && assigns[i] in assigns;
    }
    forall n | n in order && IsGate(ctx, nl.insts[n]) && Drives(ctx, nl.insts[n], b)
      ensures b in t.gates && b !in t.assigns && t.gates[b].inst == n
    {
      var i :| 0 <= i < |order| && order[i] == n;
      var f := GateFactFor(ctx, nl, order, |order|, i, b);
    }
  }

  lemma {:induction false} AtIsBehind(ctx: Context, nl: Netlist, order: seq<string>, t: Tables, outputs: seq<Bit>,
                                      k: nat, b: Bit)
    requires (forall n | n in order :: n in nl.insts) && TablesOf(ctx, nl, order, t) && Usable(ctx, nl, t)
    requires SingleDrivers(ctx, nl, order)
    ensures At(ctx, nl, t, BitSet(outputs), k, b) <==> Behind(ctx, nl, order, outputs, k, b)
  {
    hide Feeds, StepBack, TablesOf, SingleDrivers, Usable;
    if k > 0 {
      forall a ensures At(ctx, nl, t, BitSet(outputs), k - 1, a) <==> Behind(ctx, nl, order, outputs, k - 1, a)
        ensures b in Feeds(ctx, nl, t, a) <==> StepBack(ctx, nl, order, a, b)
      {
        AtIsBehind(ctx, nl, order, t, outputs, k - 1, a);
        FeedsMeaning(ctx, nl, order, t, a, b);
      }
    }
  }

  lemma WantedMeaning(ctx: Context, nl: Netlist, order: seq<string>, t: Tables, src: string, b: Bit, name: string)
    requires (forall n | n in order :: n in nl.insts) && TablesOf(ctx, nl, order, t) && Usable(ctx, nl, t)
    requires SingleDrivers(ctx, nl, order)
    ensures Wanted(ctx, nl, t, src, b) && GateOf(ctx, nl, t, b) == Some(name)
      <==> name in order && nl.insts[name].cell == src && OnPin(ctx, nl, name, Out, b)
  {
    hide TablesOf, SingleDrivers, OnPin, Drives, IsGate;
    DriversAreFound(ctx, nl, order, t, b);
    if name in nl.insts { SinglePins(ctx, nl, order, name, b); }
  }

  lemma SinglePins(ctx: Context, nl: Netlist, order: seq<string>, n: string, b: Bit)
    requires (forall n | n in order :: n in nl.insts) && SingleDrivers(ctx, nl, order) && n in nl.insts
    ensures OnPin(ctx, nl, n, Out, b) <==> IsGate(ctx, nl.insts[n]) && Drives(ctx, nl.insts[n], b)
  {
    hide OnPin, Drives, IsGate;
    GatePins(ctx, nl, n, b);
  }

  /** An instance wanted at a level of the search is one that drives a bit that many steps back. */
  lemma WantedIsBehind(ctx: Context, nl: Netlist, order: seq<string>, t: Tables, outputs: seq<Bit>, src: string, k: nat,
                       name: string)
    requires (forall n | n in order :: n in nl.insts) && TablesOf(ctx, nl, order, t) && Usable(ctx, nl, t)
    requires SingleDrivers(ctx, nl, order)
    ensures DrivesBehind(ctx, nl, order, outputs, src, k, name) <==>
      exists b ::
        At(ctx, nl, t, BitSet(outputs), k, b) && Wanted(ctx, nl, t, src, b) && GateOf(ctx, nl, t, b) == Some(name)
  {
    hide TablesOf, SingleDrivers, OnPin, At, Behind, Wanted, GateOf, BitSet;
    forall b ensures At(ctx, nl, t, BitSet(outputs), k, b) <==> Behind(ctx, nl, order, outputs, k, b)
      ensures Wanted(ctx, nl, t, src, b) && GateOf(ctx, nl, t, b) == Some(name)
        <==> name in order && nl.insts[name].cell == src && OnPin(ctx, nl, name, Out, b)
    {
      AtIsBehind(ctx, nl, order, t, outputs, k, b);
      WantedMeaning(ctx, nl, order, t, src, b, name);
    }
  }

  /**
   What the search finds, in terms of the netlist alone: nothing exactly when no instance of the cell drives
   a bit behind the outputs; otherwise one at the least distance, and of those the first by name.
   */
  lemma NearestMeaning(ctx: Context, nl: Netlist, order: seq<string>, t: Tables, outputs: seq<Bit>, src: string)
    requires (forall n | n in order :: n in nl.insts) && TablesOf(ctx, nl, order, t) && Usable(ctx, nl, t)
    requires SingleDrivers(ctx, nl, order)
    ensures Reachable(ctx, nl, t, BitSet(outputs), src) <==>
      exists k: nat, n :: DrivesBehind(ctx, nl, order, outputs, src, k, n)
    ensures forall name, level: nat :: Nearest(ctx, nl, t, BitSet(outputs), src, name, level) ==>
      && DrivesBehind(ctx, nl, order, outputs, src, level, name)
      && (forall k: nat, n | DrivesBehind(ctx, nl, order, outputs, src, k, n) ::
            level < k || (level == k && Leq(name, n)))
  {
    hide TablesOf, SingleDrivers, At, DrivesBehind, GateOf, BitSet, Leq;
    forall k: nat, n ensures DrivesBehind(ctx, nl, order, outputs, src, k, n) <==>
      exists b :: At(ctx, nl, t, BitSet(outputs), k, b) && Wanted(ctx, nl, t, src, b) && GateOf(ctx, nl, t, b) == Some(n)
    {
      WantedIsBehind(ctx, nl, order, t, outputs, src, k, n);
    }
    if Reachable(ctx, nl, t, BitSet(outputs), src) {
      var k: nat, b :| At(ctx, nl, t, BitSet(outputs), k, b) && Wanted(ctx, nl, t, src, b);
      assert DrivesBehind(ctx, nl, order, outputs, src, k, GateOf(ctx, nl, t, b).value);
    }
  }

  lemma TwoParts(front: seq<Fact>, back: seq<Fact>)
    requires OneDriverEach(front + back)
    ensures OneDriverEach(front) && OneDriverEach(back)
    ensures forall b :: !(b in Table(front) && b in Table(back))
  {
    hide Table;
    FewerFacts(front, back);
    forall f | f in back ensures f.0.Net? { assert f in front + back; }
    forall i, j | 0 <= i < j < |back| ensures back[i].0 != back[j].0 {
      assert (front + back)[|front| + i] == back[i] && (front + back)[|front| + j] == back[j];
    }
    forall f, g | f in front && g in back ensures f.0 != g.0 {
      var i :| 0 <= i < |front| && front[i] == f;
      var j :| 0 <= j < |back| && back[j] == g;
      assert (front + back)[i] == f && (front + back)[|front| + j] == g;
    }
  }

  // ------------------------------------------------------------ the tables

  /** The bits of one output pin. */
  method AddPin(gates: map<Bit, Driver>, name: string, pin: string, bits: seq<Bit>, ghost before: seq<Fact>)
    returns (gates': map<Bit, Driver>)
    requires gates == Table(before)
    ensures gates' == Table(before + PinFacts(name, pin, bits, |bits|))
  {
    hide Table;
    gates' := gates;
    assert before + [] == before;
    for i := 0 to |bits|
      invariant gates' == Table(before + PinFacts(name, pin, bits, i))
    {
      var fact := (bits[i], FromInst(name, pin, i));
      TableGrows(before + PinFacts(name, pin, bits, i), fact);
      assert before + PinFacts(name, pin, bits, i + 1) == before + PinFacts(name, pin, bits, i) + [fact];
      gates' := gates'[fact.0 := fact.1];
    }
  }

  /** The output pins of one gate. */
  method AddGate(ctx: Context, gates: map<Bit, Driver>, name: string, inst: Inst, ghost before: seq<Fact>)
    returns (gates': map<Bit, Driver>)
    requires IsGate(ctx, inst) && gates == Table(before)
    ensures gates' == Table(before + InstFacts(ctx, name, inst, |inst.pins|))
  {
    hide Table, PinNamed, PinFacts;
    gates' := gates;
    assert before + [] == before;
    for j := 0 to |inst.pins|
      invariant gates' == Table(before + InstFacts(ctx, name, inst, j))
    {
      var (pin, bits) := inst.pins[j];
      ghost var sofar := before + InstFacts(ctx, name, inst, j);
      if PinNamed(ctx.lib[inst.cell].pins, pin) == Some(Out) {
        gates' := AddPin(gates', name, pin, bits, sofar);
        assert before + InstFacts(ctx, name, inst, j + 1) == sofar + PinFacts(name, pin, bits, |bits|);
      } else {
        assert before + InstFacts(ctx, name, inst, j + 1) == sofar;
      }
    }
  }

  method GateTable(ctx: Context, nl: Netlist, order: seq<string>) returns (gates: map<Bit, Driver>)
    requires forall n | n in order :: n in nl.insts
    ensures gates == Table(GateFacts(ctx, nl, order, |order|))
  {
    hide Table, InstFacts;
    gates := map[];
    TableOfNothing();
    for k := 0 to |order|
      invariant gates == Table(GateFacts(ctx, nl, order, k))
    {
      ghost var before := GateFacts(ctx, nl, order, k);
      var inst := nl.insts[order[k]];
      if inst.cell == SRAM_CELL || inst.cell !in ctx.lib {
        assert GateFacts(ctx, nl, order, k + 1) == before;
        continue;
      }
      gates := AddGate(ctx, gates, order[k], inst, before);
    }
  }

  lemma TableOfNothing()
    ensures Table([]) == map[]
  {
  }

  method AssignTable(nl: Netlist) returns (assigns: map<Bit, Driver>)
    ensures assigns == Table(AssignFacts(nl))
  {
    hide Table;
    var facts := AssignFacts(nl);
    assigns := map[];
    TableOfNothing();
    for k := 0 to |nl.assigns|
      invariant assigns == Table(facts[..k])
    {
      assert facts[..k + 1] == facts[..k] + [(nl.assigns[k].0, FromAssign(nl.assigns[k].1))];
      TableGrows(facts[..k], (nl.assigns[k].0, FromAssign(nl.assigns[k].1)));
      assigns := assigns[nl.assigns[k].0 := FromAssign(nl.assigns[k].1)];
    }
    assert facts[..|facts|] == facts;
  }

  // ------------------------------------------------------------ the search

  /** Some gate of the cell src is reached at all. */
  ghost predicate Reachable(ctx: Context, nl: Netlist, t: Tables, outputs: set<Bit>, src: string)
    requires Usable(ctx, nl, t)
  {
    exists k: nat, b :: At(ctx, nl, t, outputs, k, b) && Wanted(ctx, nl, t, src, b)
  }

  /** name is a nearest gate of the cell src, level steps back, and the first of those by name. */
  ghost predicate Nearest(ctx: Context, nl: Netlist, t: Tables, outputs: set<Bit>, src: string, name: string,
                          level: nat)
    requires Usable(ctx, nl, t)
  {
    && (exists b :: At(ctx, nl, t, outputs, level, b) && Wanted(ctx, nl, t, src, b)
          && GateOf(ctx, nl, t, b) == Some(name))
    && (forall k: nat, b | k < level && At(ctx, nl, t, outputs, k, b) :: !Wanted(ctx, nl, t, src, b))
    && forall b | At(ctx, nl, t, outputs, level, b) && Wanted(ctx, nl, t, src, b) ::
         Leq(name, GateOf(ctx, nl, t, b).value)
  }

  /** The nearest gate and its level are determined. */
  lemma NearestIsUnique(ctx: Context, nl: Netlist, t: Tables, outputs: set<Bit>, src: string,
                        name: string, level: nat, name': string, level': nat)
    requires Usable(ctx, nl, t)
    requires Nearest(ctx, nl, t, outputs, src, name, level) && Nearest(ctx, nl, t, outputs, src, name', level')
    ensures name == name' && level == level'
  {
    hide At, Wanted, GateOf, Leq;
    LeqTotal(name, name');
  }

  /** Every bit that a step can lead to, with the outputs. */
  ghost function AllBits(nl: Netlist, t: Tables, outputs: set<Bit>): set<Bit> {
    outputs + (set b | b in t.assigns && t.assigns[b].FromAssign? :: t.assigns[b].src)
    + set n, p, b | n in nl.insts && p in nl.insts[n].pins && b in p.1 :: b
  }

  lemma FeedsStayInside(ctx: Context, nl: Netlist, t: Tables, outputs: set<Bit>, b: Bit)
    requires Usable(ctx, nl, t)
    ensures Feeds(ctx, nl, t, b) <= AllBits(nl, t, outputs)
  {
  }

  /** The state of the search before a level: seen is what is nearer, frontier covers what is next. */
  ghost predicate Searched(ctx: Context, nl: Netlist, t: Tables, outputs: set<Bit>, src: string,
                           seen: set<Bit>, frontier: set<Bit>, level: nat)
    requires Usable(ctx, nl, t)
  {
    && (forall b | b in seen :: !Wanted(ctx, nl, t, src, b))
    && (forall b | b in seen :: exists k: nat :: k < level && At(ctx, nl, t, outputs, k, b))
    && (forall k: nat, b | k < level && At(ctx, nl, t, outputs, k, b) :: b in seen)
    && (forall b | b in frontier :: At(ctx, nl, t, outputs, level, b))
    && forall b | At(ctx, nl, t, outputs, level, b) :: b in frontier || b in seen
  }

  lemma AtNext(ctx: Context, nl: Netlist, t: Tables, outputs: set<Bit>, k: nat, a: Bit, b: Bit)
    requires Usable(ctx, nl, t) && At(ctx, nl, t, outputs, k, a) && b in Feeds(ctx, nl, t, a)
    ensures At(ctx, nl, t, outputs, k + 1, b)
  {
    hide Feeds;
  }

  lemma AtBefore(ctx: Context, nl: Netlist, t: Tables, outputs: set<Bit>, k: nat, b: Bit) returns (a: Bit)
    requires Usable(ctx, nl, t) && At(ctx, nl, t, outputs, k + 1, b)
    ensures At(ctx, nl, t, outputs, k, a) && b in Feeds(ctx, nl, t, a)
  {
    hide Feeds;
    a :| At(ctx, nl, t, outputs, k, a) && b in Feeds(ctx, nl, t, a);
  }

  lemma NextLevel(ctx: Context, nl: Netlist, t: Tables, outputs: set<Bit>, src: string, seen: set<Bit>,
                  frontier: set<Bit>, next: set<Bit>, level: nat)
    requires Usable(ctx, nl, t) && Searched(ctx, nl, t, outputs, src, seen, frontier, level)
    requires forall b | b in frontier - seen :: !Wanted(ctx, nl, t, src, b)
    requires forall b | b in frontier - seen :: Feeds(ctx, nl, t, b) <= next
    requires forall x | x in next :: exists b | b in frontier - seen :: x in Feeds(ctx, nl, t, b)
    ensures Searched(ctx, nl, t, outputs, src, seen + frontier, next, level + 1)
  {
    hide Wanted, Feeds, At, Usable;
    forall x | At(ctx, nl, t, outputs, level + 1, x) ensures x in next || x in seen + frontier {
      var a := AtBefore(ctx, nl, t, outputs, level, x);
      if a in seen {
        var k: nat :| k < level && At(ctx, nl, t, outputs, k, a);
        AtNext(ctx, nl, t, outputs, k, a, x);
      }
    }
    forall x | x in next ensures At(ctx, nl, t, outputs, level + 1, x) {
      var b :| b in frontier - seen && x in Feeds(ctx, nl, t, b);
      AtNext(ctx, nl, t, outputs, level, b, x);
    }
  }

  /** When the frontier is empty, everything reachable has been seen. */
  lemma {:induction false} SearchedAll(ctx: Context, nl: Netlist, t: Tables, outputs: set<Bit>, src: string,
                                       seen: set<Bit>, level: nat, k: nat, b: Bit)
    requires Usable(ctx, nl, t) && Searched(ctx, nl, t, outputs, src, seen, {}, level)
    requires At(ctx, nl, t, outputs, k, b)
    ensures b in seen
    decreases k
  {
    hide Wanted, Feeds;
    if k > level {
      var a :| At(ctx, nl, t, outputs, k - 1, a) && b in Feeds(ctx, nl, t, a);
      SearchedAll(ctx, nl, t, outputs, src, seen, level, k - 1, a);
      var j: nat :| j < level && At(ctx, nl, t, outputs, j, a);
      assert At(ctx, nl, t, outputs, j + 1, b);
    }
  }

  /** One level: what it finds, and where it leads. */
  method SearchLevel(ctx: Context, nl: Netlist, t: Tables, src: string, seen: set<Bit>, frontier: set<Bit>)
    returns (found: seq<string>, next: set<Bit>)
    requires Usable(ctx, nl, t)
    ensures forall n | n in found :: exists b | b in frontier - seen ::
      Wanted(ctx, nl, t, src, b) && GateOf(ctx, nl, t, b) == Some(n)
    ensures forall b | b in frontier - seen && Wanted(ctx, nl, t, src, b) :: GateOf(ctx, nl, t, b).value in found
    ensures forall b | b in frontier - seen && !Wanted(ctx, nl, t, src, b) :: Feeds(ctx, nl, t, b) <= next
    ensures forall x | x in next :: exists b | b in frontier - seen :: x in Feeds(ctx, nl, t, b)
  {
    found, next := [], {};
    var rest := frontier;
    while rest != {}
      invariant rest <= frontier
      invariant forall n | n in found :: exists b | b in frontier - seen ::
        Wanted(ctx, nl, t, src, b) && GateOf(ctx, nl, t, b) == Some(n)
      invariant forall b | b in frontier - rest - seen && Wanted(ctx, nl, t, src, b) ::
        GateOf(ctx, nl, t, b).value in found
      invariant forall b | b in frontier - rest - seen && !Wanted(ctx, nl, t, src, b) :: Feeds(ctx, nl, t, b) <= next
      invariant forall x | x in next :: exists b | b in frontier - seen :: x in Feeds(ctx, nl, t, b)
    {
      var b :| b in rest;
      rest := rest - {b};
      if b in seen {
        continue;
      }
      assert b in frontier - seen;
      if b in t.assigns {
        next := next + {t.assigns[b].src};
      } else if b in t.gates {
        if nl.insts[t.gates[b].inst].cell == src {
          assert Wanted(ctx, nl, t, src, b) && GateOf(ctx, nl, t, b) == Some(t.gates[b].inst);
          found := found + [t.gates[b].inst];
        } else {
          next := next + GateInputs(ctx, nl.insts[t.gates[b].inst]);
        }
      }
    }
  }

  lemma SearchStarts(ctx: Context, nl: Netlist, t: Tables, outputs: set<Bit>, src: string)
    requires Usable(ctx, nl, t)
    ensures Searched(ctx, nl, t, outputs, src, {}, outputs, 0) && outputs <= AllBits(nl, t, outputs)
  {
  }

  /** The least of the names found at a level is the nearest gate ... */
  lemma FoundIsNearest(ctx: Context, nl: Netlist, t: Tables, outputs: set<Bit>, src: string, seen: set<Bit>,
                       frontier: set<Bit>, level: nat, found: seq<string>, target: string)
    requires Usable(ctx, nl, t) && Searched(ctx, nl, t, outputs, src, seen, frontier, level)
    requires exists b | b in frontier - seen :: Wanted(ctx, nl, t, src, b) && GateOf(ctx, nl, t, b) == Some(target)
    requires forall b | b in frontier - seen && Wanted(ctx, nl, t, src, b) :: GateOf(ctx, nl, t, b).value in found
    requires forall n | n in found :: Leq(target, n)
    ensures Nearest(ctx, nl, t, outputs, src, target, level)
  {
    hide At, Feeds, Leq;
  }

  /** ... and a search that runs out has shown that there is none. */
  lemma NothingFound(ctx: Context, nl: Netlist, t: Tables, outputs: set<Bit>, src: string, seen: set<Bit>, level: nat)
    requires Usable(ctx, nl, t) && Searched(ctx, nl, t, outputs, src, seen, {}, level)
    ensures !Reachable(ctx, nl, t, outputs, src)
  {
    hide At, Feeds;
    forall k: nat, b | At(ctx, nl, t, outputs, k, b) ensures !Wanted(ctx, nl, t, src, b) {
      SearchedAll(ctx, nl, t, outputs, src, seen, level, k, b);
    }
  }

  method Search(ctx: Context, nl: Netlist, t: Tables, outputs: set<Bit>, src: string)
    returns (result: Option<(string, nat)>)
    requires Usable(ctx, nl, t)
    ensures result.None? <==> !Reachable(ctx, nl, t, outputs, src)
    ensures result.Some? ==> Nearest(ctx, nl, t, outputs, src, result.value.0, result.value.1)
  {
    hide Usable, Wanted, Feeds, GateOf, AllBits, Leq, Searched, At;
    var frontier, seen: set<Bit>, level: nat := outputs, {}, 0;
    ghost var all := AllBits(nl, t, outputs);
    SearchStarts(ctx, nl, t, outputs, src);
    while frontier != {}
      invariant Searched(ctx, nl, t, outputs, src, seen, frontier, level)
      invariant frontier <= all && seen <= all
      decreases all - seen, frontier != {}
    {
      var found, next := SearchLevel(ctx, nl, t, src, seen, frontier);
      if found != [] {
        var target := LeastName(found);
        FoundIsNearest(ctx, nl, t, outputs, src, seen, frontier, level, found, target);
        return Some((target, level));
      }
      forall b | b in frontier - seen ensures Feeds(ctx, nl, t, b) <= all { FeedsStayInside(ctx, nl, t, outputs, b); }
      NextLevel(ctx, nl, t, outputs, src, seen, frontier, next, level);
      assert frontier - seen == {} ==> next == {};
      seen, frontier, level := seen + frontier, next, level + 1;
    }
    NothingFound(ctx, nl, t, outputs, src, seen, level);
    result := None;
  }

  // ------------------------------------------------------------ the mutation

  datatype Outcome = Mutated(netlist: Netlist, instance: string, level: nat) | UnknownCell(cell: string) | PinsDiffer
    | NotReached

  function PinNames(cell: LibCell): set<string> { set p | p in cell.pins :: p.name }

  /** The netlist with another cell at one instance. */
  function Recelled(nl: Netlist, name: string, dst: string): Netlist
    requires name in nl.insts
  {
    nl.(insts := nl.insts[name := nl.insts[name].(cell := dst)])
  }

  /** The netlists differ in the cell of one instance, and that cell is dst. */
  ghost predicate OnlyRecelled(nl: Netlist, nl': Netlist, name: string, dst: string) {
    && nl'.(insts := nl.insts) == nl && nl'.insts.Keys == nl.insts.Keys
    && (forall n | n in nl.insts && n != name :: nl'.insts[n] == nl.insts[n])
    && name in nl.insts && nl'.insts[name].cell == dst && nl'.insts[name].pins == nl.insts[name].pins
  }

  function BitSet(bits: seq<Bit>): set<Bit> { set b | b in bits }

  lemma NearestIsInstance(ctx: Context, nl: Netlist, t: Tables, outputs: set<Bit>, src: string, name: string,
                          level: nat)
    requires Usable(ctx, nl, t) && Nearest(ctx, nl, t, outputs, src, name, level)
    ensures name in nl.insts && nl.insts[name].cell == src
  {
    hide At;
  }

  method MutateNearOutput(ctx: Context, nl: Netlist, order: seq<string>, outputs: seq<Bit>, src: string, dst: string)
    returns (outcome: Outcome, ghost t: Tables)
    requires forall n | n in order :: n in nl.insts
    ensures TablesOf(ctx, nl, order, t) && Usable(ctx, nl, t)
    ensures outcome.UnknownCell? <==> src !in ctx.lib || dst !in ctx.lib
    ensures outcome.PinsDiffer? <==>
      src in ctx.lib && dst in ctx.lib && PinNames(ctx.lib[src]) != PinNames(ctx.lib[dst])
    ensures outcome.NotReached? ==> !Reachable(ctx, nl, t, BitSet(outputs), src)
    ensures outcome.Mutated? ==>
      && Nearest(ctx, nl, t, BitSet(outputs), src, outcome.instance, outcome.level)
      && outcome.instance in nl.insts && nl.insts[outcome.instance].cell == src
      && OnlyRecelled(nl, outcome.netlist, outcome.instance, dst)
    ensures SingleDrivers(ctx, nl, order) ==>
      && (outcome.NotReached? ==> forall k: nat, n :: !DrivesBehind(ctx, nl, order, outputs, src, k, n))
      && (outcome.Mutated? ==>
            && DrivesBehind(ctx, nl, order, outputs, src, outcome.level, outcome.instance)
            && forall k: nat, n | DrivesBehind(ctx, nl, order, outputs, src, k, n) ::
                 outcome.level < k || (outcome.level == k && Leq(outcome.instance, n)))
  {
    hide SingleDrivers, DrivesBehind, Reachable, Nearest, Leq, Usable, BitSet;
    hide Table, GateFacts, AssignFacts;
    var gates := GateTable(ctx, nl, order);
    var assigns := AssignTable(nl);
    t := Tables(assigns, gates);
    TablesAreUsable(ctx, nl, order, t);
    if SingleDrivers(ctx, nl, order) { NearestMeaning(ctx, nl, order, t, outputs, src); }
    if src !in ctx.lib { return UnknownCell(src), t; }
    if dst !in ctx.lib { return UnknownCell(dst), t; }
    if PinNames(ctx.lib[src]) != PinNames(ctx.lib[dst]) { return PinsDiffer, t; }
    var result := Search(ctx, nl, Tables(assigns, gates), BitSet(outputs), src);
    match result {
      case None => outcome := NotReached;
      case Some((name, level)) =>
        NearestIsInstance(ctx, nl, t, BitSet(outputs), src, name, level);
        outcome := Mutated(Recelled(nl, name, dst), name, level);
    }
  }
}
