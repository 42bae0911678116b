/**
 Structural preconditions of the equivalence proofs (formal_eq/eq_check.py: _norm_func, cell_role,
 analyze_structure with add_driver and clock_depth), on a parsed netlist and cell library.

 The proofs treat the design as having one clock. The analysis checks that every net has one driver
 and that every clock pin is the clk port seen through assigns and buffers only.
 */
module ClockTree {
  import opened Results

  datatype Bit = Const(text: string) | Net(name: string)

  const CLOCK := Net("clk")

  // ------------------------------------------------------------ the cell library

  datatype Direction = In | Out | Other

  /** A pin; function and threeState are "" when the library does not give them. */
  datatype Pin = Pin(name: string, direction: Direction, function_: string, threeState: string)

  datatype LibCell = LibCell(pins: seq<Pin>, clockedOn: seq<string>, latch: bool, stateTable: bool, bus: bool)

  type Library = map<string, LibCell>

  datatype Role = Physical | Identity | Flop | Comb | Sram | Unsupported

  /** White space, as the class \s of regular expressions takes it. */
  const WHITE_SPACE := "\t\n\U{0B}\U{0C}\r\U{1C}\U{1D}\U{1E}\U{1F} \U{85}\U{A0}\U{1680}"
    + "\U{2000}\U{2001}\U{2002}\U{2003}\U{2004}\U{2005}\U{2006}\U{2007}\U{2008}\U{2009}\U{200A}"
    + "\U{2028}\U{2029}\U{202F}\U{205F}\U{3000}"

  predicate Dropped(c: char) {
    || c == '(' || c == ')'
    || '\t' <= c <= '\r' || '\U{1C}' <= c <= ' ' || c == '\U{85}' || c == '\U{A0}' || c == '\U{1680}'
    || '\U{2000}' <= c <= '\U{200A}' || '\U{2028}' <= c <= '\U{2029}'
    || c == '\U{202F}' || c == '\U{205F}' || c == '\U{3000}'
  }

  /** Drop white space and parentheses. */
  function NormFunc(expr: string): (r: string) {
    if expr == "" then ""
    else if Dropped(expr[0]) then NormFunc(expr[1..])
    else [expr[0]] + NormFunc(expr[1..])
  }

  /** Character by character: the others stay, in order. */
  lemma NormFuncOfChar(c: char)
    ensures NormFunc("") == "" && NormFunc([c]) == if c in WHITE_SPACE + "()" then "" else [c]
  {
    assert [c][1..] == "";
  }

  lemma {:induction false} NormFuncOfParts(a: string, b: string)
    ensures NormFunc(a + b) == NormFunc(a) + NormFunc(b)
  {
    hide Dropped;
    if a == "" {
      assert a + b == b;
    } else {
      NormFuncOfParts(a[1..], b);
      assert (a + b)[1..] == a[1..] + b && (a + b)[0] == a[0];
    }
  }

  function Pins(cell: LibCell, d: Direction, k: nat): (pins: seq<Pin>)
    requires k <= |cell.pins|
    ensures forall p | p in pins :: p in cell.pins && p.direction == d
    ensures forall p | p in cell.pins[..k] && p.direction == d :: p in pins
  {
    if k == 0 then []
    else
      assert cell.pins[..k] == cell.pins[..k - 1] + [cell.pins[k - 1]];
      Pins(cell, d, k - 1) + if cell.pins[k - 1].direction == d then [cell.pins[k - 1]] else []
  }

  function Inputs(cell: LibCell): seq<Pin> { Pins(cell, In, |cell.pins|) }

  function Outputs(cell: LibCell): seq<Pin> { Pins(cell, Out, |cell.pins|) }

  function CellRole(cell: LibCell): (role: Role)
    ensures role != Sram
  {
    var ins, outs := Inputs(cell), Outputs(cell);
    if cell.bus || Pins(cell, Other, |cell.pins|) != [] || cell.latch || cell.stateTable then Unsupported
    else if exists p | p in outs :: p.threeState != "" then Unsupported
    else if outs == [] then Physical
    else if exists p | p in outs :: p.function_ == "" then Unsupported
    else if cell.clockedOn != [] then
      if |cell.clockedOn| != 1 then Unsupported
      else if exists p | p in ins :: p.name == NormFunc(cell.clockedOn[0]) then Flop else Unsupported
    else if |ins| == 1 && |outs| == 1 && NormFunc(outs[0].function_) == ins[0].name then Identity
    else Comb
  }

  /** What every cell must satisfy to be usable: plain pins, no latch, and functions on all outputs. */
  ghost predicate Plain(cell: LibCell) {
    && !cell.bus && !cell.latch && !cell.stateTable
    && forall p | p in cell.pins ::
         p.direction == In || (p.direction == Out && p.threeState == "")
  }

  ghost predicate OnlyRisingEdge(cell: LibCell) {
    |cell.clockedOn| == 1 && exists p | p in cell.pins :: p.direction == In && p.name == NormFunc(cell.clockedOn[0])
  }

  /** One input and one output pin, whose function is the input. */
  ghost predicate IsWire(cell: LibCell) {
    && |cell.pins| == 2
    && exists i, o | {i, o} == {0, 1} :: WiredTo(cell.pins[i], cell.pins[o])
  }

  predicate WiredTo(i: Pin, o: Pin) {
    i.direction == In && o.direction == Out && NormFunc(o.function_) == i.name
  }

  /**
   The classes, pin by pin. A cell is usable exactly when its pins are plain and, if it has outputs,
   each has a function and its flip-flop group, if any, is a single one clocked by an input pin. Of the
   usable cells with outputs those with a group are flip-flops, and the others with one input and one
   output that is the input are identity cells.
   */
  lemma RolesAre(cell: LibCell)
    ensures var outputs := exists p | p in cell.pins :: p.direction == Out;
      var functions := forall p | p in cell.pins && p.direction == Out :: p.function_ != "";
      var clocked := cell.clockedOn == [] || OnlyRisingEdge(cell);
      var usable := Plain(cell) && (outputs ==> functions && clocked);
      && (CellRole(cell) == Unsupported <==> !usable)
      && (CellRole(cell) == Physical <==> usable && !outputs)
      && (CellRole(cell) == Flop <==> usable && outputs && cell.clockedOn != [])
      && (CellRole(cell) == Identity <==> usable && outputs && cell.clockedOn == [] && IsWire(cell))
      && (CellRole(cell) == Comb <==> usable && outputs && cell.clockedOn == [] && !IsWire(cell))
  {
    hide NormFunc, Pins, IsWire;
    PinsOf(cell, In);
    PinsOf(cell, Out);
    PinsOf(cell, Other);
    if Pins(cell, Other, |cell.pins|) == [] { WireByCount(cell); }
  }

  lemma PinsStep(cell: LibCell, d: Direction, k: nat)
    requires k <= |cell.pins|
    ensures Pins(cell, d, 0) == []
    ensures k < |cell.pins| ==>
      Pins(cell, d, k + 1) == Pins(cell, d, k) + if cell.pins[k].direction == d then [cell.pins[k]] else []
  {
  }

  /** How many pins there are of either direction. */
  lemma {:induction false} PinCounts(cell: LibCell, k: nat)
    requires k <= |cell.pins| && forall p | p in cell.pins :: p.direction != Other
    ensures |Pins(cell, In, k)| + |Pins(cell, Out, k)| == k
  {
    hide Pins;
    PinsStep(cell, In, if k > 0 then k - 1 else 0);
    PinsStep(cell, Out, if k > 0 then k - 1 else 0);
    if k > 0 {
      PinCounts(cell, k - 1);
      assert cell.pins[k - 1] in cell.pins;
    }
  }

  lemma WireByCount(cell: LibCell)
    requires forall p | p in cell.pins :: p.direction != Other
    ensures IsWire(cell) <==>
      |Inputs(cell)| == 1 && |Outputs(cell)| == 1 && WiredTo(Inputs(cell)[0], Outputs(cell)[0])
  {
    hide NormFunc, Pins;
    PinsOf(cell, In);
    PinsOf(cell, Out);
    PinCounts(cell, |cell.pins|);
    var ins, outs := Inputs(cell), Outputs(cell);
    if |ins| == 1 && |outs| == 1 {
      assert ins[0] in ins && outs[0] in outs;
      var i, o := if cell.pins[0] == ins[0] then 0 else 1, if cell.pins[0] == ins[0] then 1 else 0;
      assert cell.pins[0] in cell.pins && cell.pins[1] in cell.pins;
      assert cell.pins[i] == ins[0] && cell.pins[o] == outs[0];
    }
    if IsWire(cell) {
      var i, o :| {i, o} == {0, 1} && WiredTo(cell.pins[i], cell.pins[o]);
      assert cell.pins[i] in ins && cell.pins[o] in outs;
    }
  }

  lemma PinsOf(cell: LibCell, d: Direction)
    ensures forall p :: p in Pins(cell, d, |cell.pins|) <==> p in cell.pins && p.direction == d
    ensures Pins(cell, d, |cell.pins|) == [] <==> forall p | p in cell.pins :: p.direction != d
  {
    hide Pins;
    var pins := Pins(cell, d, |cell.pins|);
    assert cell.pins[..|cell.pins|] == cell.pins;
    if pins != [] { assert pins[0] in pins; }
  }

  // ------------------------------------------------------------ the netlist

  /** An instance: its cell, and its pins in order with the bits connected to them. */
  datatype Inst = Inst(cell: string, pins: seq<(string, seq<Bit>)>)

  /**
   The module's name and its ports' directions and widths; inputs are the input ports with their
   bits, assigns are bit pairs, names the instances in sorted order.
   */
  datatype Netlist = Netlist(design: string, ports: map<string, (Direction, nat)>, inputs: seq<(string, seq<Bit>)>,
                             assigns: seq<(Bit, Bit)>, names: seq<string>, insts: map<string, Inst>)

  const SRAM_CELL := "RM_IHPSG13_1P_64x16_c2"

  /** What the checks are made against: the library, the SRAM macro's ports, the expected module and ports. */
  datatype Context = Context(lib: Library, sram: seq<Pin>, design: string, ports: seq<(string, Direction, nat)>)

  ghost predicate WellFormed(nl: Netlist) {
    forall n | n in nl.names :: n in nl.insts
  }

  function RoleOf(ctx: Context, cell: string): Role {
    if cell == SRAM_CELL then Sram
    else if cell !in ctx.lib then Unsupported
    else CellRole(ctx.lib[cell])
  }

  function PinNamed(pins: seq<Pin>, name: string): Option<Direction> {
    if pins == [] then None
    else if pins[0].name == name then Some(pins[0].direction)
    else PinNamed(pins[1..], name)
  }

  /** The direction of an instance's pin, if its cell has that pin. */
  function DirectionOf(ctx: Context, cell: string, pin: string): Option<Direction> {
    if cell == SRAM_CELL then PinNamed(ctx.sram, pin)
    else if cell in ctx.lib then PinNamed(ctx.lib[cell].pins, pin)
    else None
  }

  /** The bits connected to a pin; none when it is not connected. */
  function PinBits(pins: seq<(string, seq<Bit>)>, pin: string): (bits: seq<Bit>)
    ensures bits != [] ==> (pin, bits) in pins
  {
    if pins == [] then []
    else if pins[0].0 == pin then pins[0].1
    else PinBits(pins[1..], pin)
  }

  // ------------------------------------------------------------ drivers

  datatype Driver = FromPort(port: string) | FromAssign(src: Bit) | FromInst(inst: string, pin: string, index: nat)

  type Fact = (Bit, Driver)

  function PinFacts(name: string, pin: string, bits: seq<Bit>, k: nat): (fs: seq<Fact>)
    requires k <= |bits|
    ensures forall f | f in fs :: f.1.FromInst? && f.1.inst == name && f.1.pin == pin && f.0 in bits
  {
    if k == 0 then [] else PinFacts(name, pin, bits, k - 1) + [(bits[k - 1], FromInst(name, pin, k - 1))]
  }

  /** What the first k pins of an instance drive. */
  function InstFacts(ctx: Context, name: string, inst: Inst, k: nat): (fs: seq<Fact>)
    requires k <= |inst.pins|
    ensures forall f | f in fs :: f.1.FromInst? && f.1.inst == name
    ensures forall f | f in fs :: exists p | p in inst.pins :: p.0 == f.1.pin && f.0 in p.1
    ensures forall f | f in fs :: DirectionOf(ctx, inst.cell, f.1.pin) == Some(Out)
  {
    if k == 0 then []
    else
      var (pin, bits) := inst.pins[k - 1];
      assert inst.pins[k - 1] in inst.pins;
      InstFacts(ctx, name, inst, k - 1)
      + if DirectionOf(ctx, inst.cell, pin) == Some(Out) then PinFacts(name, pin, bits, |bits|) else []
  }

  function NameFacts(ctx: Context, nl: Netlist, k: nat): (fs: seq<Fact>)
    requires WellFormed(nl) && k <= |nl.names|
  {
    if k == 0 then []
    else
      var name := nl.names[k - 1];
      assert name in nl.names;
      var inst := nl.insts[name];
      NameFacts(ctx, nl, k - 1)
      + if RoleOf(ctx, inst.cell) == Unsupported then [] else InstFacts(ctx, name, inst, |inst.pins|)
  }

  function PortFacts(inputs: seq<(string, seq<Bit>)>, k: nat): seq<Fact>
    requires k <= |inputs|
  {
    if k == 0 then []
    else
      var (port, bits) := inputs[k - 1];
      PortFacts(inputs, k - 1) + seq(|bits|, i requires 0 <= i < |bits| => (bits[i], FromPort(port)))
  }

  function AssignFacts(nl: Netlist): seq<Fact> {
    seq(|nl.assigns|, i requires 0 <= i < |nl.assigns| => (nl.assigns[i].0, FromAssign(nl.assigns[i].1)))
  }

  /** Everything that drives a net: input ports, assigns, output pins of supported cells. */
  function AllFacts(ctx: Context, nl: Netlist): seq<Fact>
    requires WellFormed(nl)
  {
    PortFacts(nl.inputs, |nl.inputs|) + AssignFacts(nl) + NameFacts(ctx, nl, |nl.names|)
  }

  /** No constant is driven, and every net has at most one driver. */
  ghost predicate OneDriverEach(facts: seq<Fact>) {
    && (forall f | f in facts :: f.0.Net?)
    && forall i, j | 0 <= i < j < |facts| :: facts[i].0 != facts[j].0
  }

  function Table(facts: seq<Fact>): (d: map<Bit, Driver>)
    ensures forall b :: b in d <==> exists f | f in facts :: f.0 == b
  {
    if facts == [] then map[]
    else
      var last := facts[|facts| - 1];
      assert facts == facts[..|facts| - 1] + [last];
      Table(facts[..|facts| - 1])[last.0 := last.1]
  }

  lemma {:induction false} TableHolds(facts: seq<Fact>)
    requires OneDriverEach(facts)
    ensures forall f | f in facts :: f.0 in Table(facts) && Table(facts)[f.0] == f.1
    ensures forall b | b in Table(facts) :: (b, Table(facts)[b]) in facts
  {
    if facts != [] {
      var front, last := facts[..|facts| - 1], facts[|facts| - 1];
      assert facts == front + [last];
      TableHolds(front);
    }
  }

  // ------------------------------------------------------------ clock paths

  /** The input bit of a buffer, if it is connected. */
  function BufferInput(ctx: Context, nl: Netlist, name: string): Option<Bit> {
    if name in nl.insts && nl.insts[name].cell in ctx.lib && Inputs(ctx.lib[nl.insts[name].cell]) != [] then
      var bits := PinBits(nl.insts[name].pins, Inputs(ctx.lib[nl.insts[name].cell])[0].name);
      if bits == [] then None else Some(bits[0])
    else None
  }

  predicate IsBuffer(ctx: Context, nl: Netlist, name: string) {
    name in nl.insts && RoleOf(ctx, nl.insts[name].cell) == Identity
  }

  /** One step back along a clock path: through an assign, or through a buffer (true). */
  function Back(ctx: Context, nl: Netlist, d: map<Bit, Driver>, b: Bit): Option<(Bit, bool)> {
    if b !in d then None
    else
      match d[b]
      case FromPort(_) => None
      case FromAssign(src) => Some((src, false))
      case FromInst(name, _, _) =>
        if IsBuffer(ctx, nl, name) && BufferInput(ctx, nl, name).Some?
        then Some((BufferInput(ctx, nl, name).value, true)) else None
  }

  function Stages(buffer: bool): nat { if buffer then 1 else 0 }

  /** b is the clock seen through len steps, depth of them buffers. */
  ghost predicate FromClock(ctx: Context, nl: Netlist, d: map<Bit, Driver>, b: Bit, len: nat, depth: nat)
    decreases len
  {
    if b == CLOCK then len == 0 && depth == 0
    else
      var back := Back(ctx, nl, d, b);
      len > 0 && back.Some? && depth >= Stages(back.value.1)
      && FromClock(ctx, nl, d, back.value.0, len - 1, depth - Stages(back.value.1))
  }

  /** Paths are determined by the drivers. */
  lemma {:induction false} PathIsUnique(ctx: Context, nl: Netlist, d: map<Bit, Driver>, b: Bit, len: nat, depth: nat,
                                        len': nat, depth': nat)
    requires FromClock(ctx, nl, d, b, len, depth) && FromClock(ctx, nl, d, b, len', depth')
    ensures len == len' && depth == depth'
    decreases len
  {
    hide Back;
    if b != CLOCK {
      var back := Back(ctx, nl, d, b).value;
      PathIsUnique(ctx, nl, d, back.0, len - 1, depth - Stages(back.1), len' - 1, depth' - Stages(back.1));
    }
  }

  ghost predicate IsClock(ctx: Context, nl: Netlist, d: map<Bit, Driver>, b: Bit) {
    exists len: nat, depth: nat :: FromClock(ctx, nl, d, b, len, depth)
  }

  /** The number of buffers between the clk port and a bit. */
  ghost function ClockDepthOf(ctx: Context, nl: Netlist, d: map<Bit, Driver>, b: Bit): (depth: nat)
    requires IsClock(ctx, nl, d, b)
    ensures exists len: nat :: FromClock(ctx, nl, d, b, len, depth)
  {
    var len: nat, depth: nat :| FromClock(ctx, nl, d, b, len, depth); depth
  }

  lemma DepthIs(ctx: Context, nl: Netlist, d: map<Bit, Driver>, b: Bit, len: nat, depth: nat)
    requires FromClock(ctx, nl, d, b, len, depth)
    ensures IsClock(ctx, nl, d, b) && ClockDepthOf(ctx, nl, d, b) == depth
  {
    hide FromClock;
    var len': nat :| FromClock(ctx, nl, d, b, len', ClockDepthOf(ctx, nl, d, b));
    PathIsUnique(ctx, nl, d, b, len, depth, len', ClockDepthOf(ctx, nl, d, b));
  }

  // ------------------------------------------------------------ what a clock path means

  /** A valuation of the nets that respects the assigns and the buffers. */
  ghost predicate Satisfies(ctx: Context, nl: Netlist, v: Bit -> bool) {
    && (forall a | a in nl.assigns :: v(a.0) == v(a.1))
    && forall name, p, b | IsBuffer(ctx, nl, name) && BufferInput(ctx, nl, name).Some?
         && p in nl.insts[name].pins && DirectionOf(ctx, nl.insts[name].cell, p.0) == Some(Out) && b in p.1 ::
         v(b) == v(BufferInput(ctx, nl, name).value)
  }

  lemma {:induction false} NameFactOrigin(ctx: Context, nl: Netlist, k: nat, f: Fact)
    requires WellFormed(nl) && k <= |nl.names| && f in NameFacts(ctx, nl, k)
    ensures f.1.FromInst? && f.1.inst in nl.insts && exists p | p in nl.insts[f.1.inst].pins ::
      p.0 == f.1.pin && f.0 in p.1 && DirectionOf(ctx, nl.insts[f.1.inst].cell, p.0) == Some(Out)
  {
    hide InstFacts, DirectionOf, RoleOf;
    if f in NameFacts(ctx, nl, k - 1) {
      NameFactOrigin(ctx, nl, k - 1, f);
    } else {
      var name := nl.names[k - 1];
      assert name in nl.names;
      assert f in InstFacts(ctx, name, nl.insts[name], |nl.insts[name].pins|);
    }
  }

  lemma {:induction false} PortFactOrigin(inputs: seq<(string, seq<Bit>)>, k: nat, f: Fact)
    requires k <= |inputs| && f in PortFacts(inputs, k)
    ensures f.1.FromPort?
  {
    if f in PortFacts(inputs, k - 1) { PortFactOrigin(inputs, k - 1, f); }
  }

  /** Every step back along a path keeps the value. */
  lemma BackKeepsValue(ctx: Context, nl: Netlist, v: Bit -> bool, b: Bit)
    requires WellFormed(nl) && OneDriverEach(AllFacts(ctx, nl)) && Satisfies(ctx, nl, v)
    requires Back(ctx, nl, Table(AllFacts(ctx, nl)), b).Some?
    ensures v(Back(ctx, nl, Table(AllFacts(ctx, nl)), b).value.0) == v(b)
  {
    hide BufferInput, IsBuffer, OneDriverEach, Table, PortFacts, NameFacts;
    var facts := AllFacts(ctx, nl);
    TableHolds(facts);
    var f: Fact := (b, Table(facts)[b]);
    assert f in facts;
    if f in PortFacts(nl.inputs, |nl.inputs|) {
      PortFactOrigin(nl.inputs, |nl.inputs|, f);
    } else if f in AssignFacts(nl) {
      var i :| 0 <= i < |nl.assigns| && f == (nl.assigns[i].0, FromAssign(nl.assigns[i].1));
      assert nl.assigns[i] in nl.assigns;
    } else {
      NameFactOrigin(ctx, nl, |nl.names|, f);
    }
  }

  /** A bit with a clock path has the value of clk under every valuation that respects assigns and buffers. */
  lemma {:induction false} ClockValue(ctx: Context, nl: Netlist, v: Bit -> bool, b: Bit, len: nat, depth: nat)
    requires WellFormed(nl) && OneDriverEach(AllFacts(ctx, nl)) && Satisfies(ctx, nl, v)
    requires FromClock(ctx, nl, Table(AllFacts(ctx, nl)), b, len, depth)
    ensures v(b) == v(CLOCK)
    decreases len
  {
    hide Back, AllFacts, Table, OneDriverEach, Satisfies;
    if b != CLOCK {
      var back := Back(ctx, nl, Table(AllFacts(ctx, nl)), b).value;
      BackKeepsValue(ctx, nl, v, b);
      ClockValue(ctx, nl, v, back.0, len - 1, depth - Stages(back.1));
    }
  }

  // ------------------------------------------------------------ clock paths of a given netlist

  lemma {:induction false} PinFactFor(name: string, pin: string, bits: seq<Bit>, k: nat, i: nat)
    requires i < k <= |bits|
    ensures (bits[i], FromInst(name, pin, i)) in PinFacts(name, pin, bits, k)
  {
    if i < k - 1 { PinFactFor(name, pin, bits, k - 1, i); }
  }

  lemma {:induction false} InstFactFor(ctx: Context, name: string, inst: Inst, k: nat, j: nat, i: nat)
    requires j < k <= |inst.pins| && i < |inst.pins[j].1|
    requires DirectionOf(ctx, inst.cell, inst.pins[j].0) == Some(Out)
    ensures (inst.pins[j].1[i], FromInst(name, inst.pins[j].0, i)) in InstFacts(ctx, name, inst, k)
  {
    hide DirectionOf, PinFacts;
    if j < k - 1 {
      InstFactFor(ctx, name, inst, k - 1, j, i);
    } else {
      PinFactFor(name, inst.pins[j].0, inst.pins[j].1, |inst.pins[j].1|, i);
    }
  }

  lemma {:induction false} NameFactFor(ctx: Context, nl: Netlist, k: nat, n: nat, f: Fact)
    requires WellFormed(nl) && n < k <= |nl.names| && nl.names[n] in nl.names
    requires var inst := nl.insts[nl.names[n]];
      RoleOf(ctx, inst.cell) != Unsupported && f in InstFacts(ctx, nl.names[n], inst, |inst.pins|)
    ensures f in NameFacts(ctx, nl, k)
  {
    hide InstFacts, RoleOf;
    if n < k - 1 { NameFactFor(ctx, nl, k - 1, n, f); }
  }

  // ------------------------------------------------------------ what drives a bit

  /** Pin names are unique in every library cell. */
  ghost predicate DistinctPins(lib: Library) {
    forall c, i, j | c in lib && 0 <= i < j < |lib[c].pins| :: lib[c].pins[i].name != lib[c].pins[j].name
  }

  /** The library gives a pin of the cell this direction. */
  ghost predicate LibPin(lib: Library, cell: string, pin: string, d: Direction) {
    cell in lib && exists p | p in lib[cell].pins :: p.name == pin && p.direction == d
  }

  ghost predicate DistinctPorts(ctx: Context) {
    DistinctPins(ctx.lib) && forall i, j | 0 <= i < j < |ctx.sram| :: ctx.sram[i].name != ctx.sram[j].name
  }

  /** The library gives a pin of the cell this direction, or the macro's port list does. */
  ghost predicate HasPin(ctx: Context, cell: string, pin: string, d: Direction) {
    if cell == SRAM_CELL then exists p | p in ctx.sram :: p.name == pin && p.direction == d
    else LibPin(ctx.lib, cell, pin, d)
  }

  lemma {:induction false} PinNamedIs(pins: seq<Pin>, name: string, d: Direction)
    requires forall i, j | 0 <= i < j < |pins| :: pins[i].name != pins[j].name
    ensures PinNamed(pins, name) == Some(d) <==> exists p | p in pins :: p.name == name && p.direction == d
  {
    if pins != [] {
      PinNamedIs(pins[1..], name, d);
      assert pins == [pins[0]] + pins[1..];
      if pins[0].name == name {
        forall p | p in pins && p.name == name ensures p == pins[0] {
          var i :| 0 <= i < |pins| && pins[i] == p;
        }
      }
    }
  }

  lemma DirectionIs(ctx: Context, cell: string, pin: string, d: Direction)
    requires DistinctPorts(ctx)
    ensures DirectionOf(ctx, cell, pin) == Some(d) <==> HasPin(ctx, cell, pin, d)
  {
    hide PinNamed;
    if cell == SRAM_CELL {
      PinNamedIs(ctx.sram, pin, d);
    } else if cell in ctx.lib {
      PinNamedIs(ctx.lib[cell].pins, pin, d);
    }
  }

  /** An instance has the bit at place i of what it connects to an output pin of its cell. */
  ghost predicate PutsOut(ctx: Context, inst: Inst, pin: string, i: nat, b: Bit) {
    HasPin(ctx, inst.cell, pin, Out) && exists bits :: (pin, bits) in inst.pins && i < |bits| && bits[i] == b
  }

  lemma {:induction false} PinFactIndex(name: string, pin: string, bits: seq<Bit>, k: nat, f: Fact)
    requires k <= |bits| && f in PinFacts(name, pin, bits, k)
    ensures f.1.FromInst? && f.1.pin == pin && f.1.index < k && bits[f.1.index] == f.0
  {
    if f in PinFacts(name, pin, bits, k - 1) { PinFactIndex(name, pin, bits, k - 1, f); }
  }

  lemma {:induction false} InstFactIndex(ctx: Context, name: string, inst: Inst, k: nat, f: Fact)
    requires k <= |inst.pins| && f in InstFacts(ctx, name, inst, k)
    ensures f.1.FromInst? && exists bits :: (f.1.pin, bits) in inst.pins && f.1.index < |bits| && bits[f.1.index] == f.0
  {
    hide DirectionOf, PinFacts;
    if f in InstFacts(ctx, name, inst, k - 1) {
      InstFactIndex(ctx, name, inst, k - 1, f);
    } else {
      var (pin, bits) := inst.pins[k - 1];
      PinFactIndex(name, pin, bits, |bits|, f);
      assert (pin, bits) in inst.pins;
    }
  }

  lemma InstFactsAre(ctx: Context, name: string, inst: Inst, pin: string, i: nat, b: Bit)
    requires DistinctPorts(ctx)
    ensures (b, FromInst(name, pin, i)) in InstFacts(ctx, name, inst, |inst.pins|) <==> PutsOut(ctx, inst, pin, i, b)
  {
    hide InstFacts, DirectionOf, HasPin, DistinctPorts;
    var f := (b, FromInst(name, pin, i));
    DirectionIs(ctx, inst.cell, pin, Out);
    if f in InstFacts(ctx, name, inst, |inst.pins|) { InstFactIndex(ctx, name, inst, |inst.pins|, f); }
    if PutsOut(ctx, inst, pin, i, b) {
      var bits :| (pin, bits) in inst.pins && i < |bits| && bits[i] == b;
      var j :| 0 <= j < |inst.pins| && inst.pins[j] == (pin, bits);
      InstFactFor(ctx, name, inst, |inst.pins|, j, i);
    }
  }

  lemma {:induction false} NameFactsAre(ctx: Context, nl: Netlist, k: nat, name: string, pin: string, i: nat, b: Bit)
    requires WellFormed(nl) && k <= |nl.names| && DistinctPorts(ctx)
    ensures (b, FromInst(name, pin, i)) in NameFacts(ctx, nl, k) <==>
      name in nl.names[..k] && name in nl.insts && RoleOf(ctx, nl.insts[name].cell) != Unsupported
      && PutsOut(ctx, nl.insts[name], pin, i, b)
  {
    hide InstFacts, RoleOf, PutsOut, DistinctPorts;
    if k > 0 {
      NameFactsAre(ctx, nl, k - 1, name, pin, i, b);
      var last := nl.names[k - 1];
      assert last in nl.names && nl.names[..k] == nl.names[..k - 1] + [last];
      if last == name { InstFactsAre(ctx, name, nl.insts[name], pin, i, b); }
    }
  }

  lemma {:induction false} PortFactsAre(inputs: seq<(string, seq<Bit>)>, k: nat, b: Bit, d: Driver)
    requires k <= |inputs|
    ensures (b, d) in PortFacts(inputs, k) <==>
      d.FromPort? && exists j :: 0 <= j < k && inputs[j].0 == d.port && b in inputs[j].1
  {
    if k > 0 {
      PortFactsAre(inputs, k - 1, b, d);
      var (port, bits) := inputs[k - 1];
      var facts := seq(|bits|, i requires 0 <= i < |bits| => (bits[i], FromPort(port)));
      assert forall i | 0 <= i < |bits| :: facts[i] == (bits[i], FromPort(port));
    }
  }

  lemma AssignFactsAre(nl: Netlist, b: Bit, d: Driver)
    ensures (b, d) in AssignFacts(nl) <==> d.FromAssign? && (b, d.src) in nl.assigns
  {
    var facts := AssignFacts(nl);
    assert forall i | 0 <= i < |nl.assigns| :: facts[i] == (nl.assigns[i].0, FromAssign(nl.assigns[i].1));
  }

  /** The drivers of a bit: input ports, the right sides of assigns, output pins of the cells that are not refused. */
  lemma DriversAre(ctx: Context, nl: Netlist, b: Bit, d: Driver)
    requires WellFormed(nl) && DistinctPorts(ctx)
    ensures (b, d) in AllFacts(ctx, nl) <==>
      match d
      case FromPort(port) => exists j :: 0 <= j < |nl.inputs| && nl.inputs[j].0 == port && b in nl.inputs[j].1
      case FromAssign(src) => (b, src) in nl.assigns
      case FromInst(name, pin, i) =>
        name in nl.names && RoleOf(ctx, nl.insts[name].cell) != Unsupported && PutsOut(ctx, nl.insts[name], pin, i, b)
  {
    hide RoleOf, PutsOut, DistinctPorts, PortFacts, AssignFacts, NameFacts;
    PortFactsAre(nl.inputs, |nl.inputs|, b, d);
    AssignFactsAre(nl, b, d);
    if d.FromInst? {
      NameFactsAre(ctx, nl, |nl.names|, d.inst, d.pin, d.index, b);
      assert nl.names[..|nl.names|] == nl.names;
    } else if (b, d) in NameFacts(ctx, nl, |nl.names|) {
      NameFactOrigin(ctx, nl, |nl.names|, (b, d));
    }
  }

  /** Each pin is connected once. */
  ghost predicate DistinctNames(pins: seq<(string, seq<Bit>)>) {
    forall i, j | 0 <= i < j < |pins| :: pins[i].0 != pins[j].0
  }

  lemma {:induction false} PinBitsAre(pins: seq<(string, seq<Bit>)>, pin: string, bits: seq<Bit>)
    requires DistinctNames(pins)
    ensures (pin, bits) in pins ==> PinBits(pins, pin) == bits
    ensures (forall p | p in pins :: p.0 != pin) ==> PinBits(pins, pin) == []
  {
    if pins != [] {
      PinBitsAre(pins[1..], pin, bits);
      assert pins == [pins[0]] + pins[1..];
      if (pin, bits) in pins[1..] {
        var i :| 0 <= i < |pins| - 1 && pins[1..][i] == (pin, bits);
        assert pins[i + 1].0 == pin;
      }
    }
  }

  /** A library cell with input i and output o, whose function is i, and nothing else. */
  ghost predicate BufferCell(cell: LibCell, i: Pin, o: Pin) {
    && (cell.pins == [i, o] || cell.pins == [o, i]) && i.direction == In && o.direction == Out
    && o.function_ != "" && o.threeState == "" && NormFunc(o.function_) == i.name
    && cell.clockedOn == [] && !cell.latch && !cell.stateTable && !cell.bus
  }

  lemma BufferCellIsWire(cell: LibCell, i: Pin, o: Pin)
    requires BufferCell(cell, i, o)
    ensures IsWire(cell) && Inputs(cell) == [i]
  {
    hide NormFunc, Pins;
    var n := if cell.pins[0] == i then 0 else 1;
    assert {n, 1 - n} == {0, 1} && WiredTo(cell.pins[n], cell.pins[1 - n]);
    PinsStep(cell, In, 0);
    PinsStep(cell, In, 1);
  }

  lemma BufferCellIsIdentity(cell: LibCell, i: Pin, o: Pin)
    requires BufferCell(cell, i, o)
    ensures CellRole(cell) == Identity && Inputs(cell) == [i]
  {
    hide NormFunc, CellRole, IsWire, Inputs;
    BufferCellIsWire(cell, i, o);
    RolesAre(cell);
    assert i in cell.pins && o in cell.pins;
  }

  /** A buffer on a clock path adds one to the depth. */
  lemma BufferAddsOne(ctx: Context, nl: Netlist, n: nat, i: Pin, o: Pin, src: Bit, b: Bit, len: nat, depth: nat)
    requires WellFormed(nl) && OneDriverEach(AllFacts(ctx, nl)) && n < |nl.names| && nl.names[n] in nl.names
    requires var inst := nl.insts[nl.names[n]];
      && inst.cell != SRAM_CELL && inst.cell in ctx.lib && BufferCell(ctx.lib[inst.cell], i, o)
      && i.name != o.name && DistinctNames(inst.pins) && (i.name, [src]) in inst.pins && (o.name, [b]) in inst.pins
    requires b != CLOCK && FromClock(ctx, nl, Table(AllFacts(ctx, nl)), src, len, depth)
    ensures FromClock(ctx, nl, Table(AllFacts(ctx, nl)), b, len + 1, depth + 1)
  {
    hide OneDriverEach, Table, PortFacts, NameFacts, BufferCell, CellRole, InstFacts, DistinctNames, PinBits;
    var name := nl.names[n];
    var inst := nl.insts[name];
    BufferCellIsIdentity(ctx.lib[inst.cell], i, o);
    PinBitsAre(inst.pins, i.name, [src]);
    OutputOfBuffer(ctx, inst, i, o);
    var j :| 0 <= j < |inst.pins| && inst.pins[j] == (o.name, [b]);
    InstFactFor(ctx, name, inst, |inst.pins|, j, 0);
    NameFactFor(ctx, nl, |nl.names|, n, (b, FromInst(name, o.name, 0)));
    TableHolds(AllFacts(ctx, nl));
    assert (b, FromInst(name, o.name, 0)) in AllFacts(ctx, nl);
    assert Back(ctx, nl, Table(AllFacts(ctx, nl)), b) == Some((src, true));
  }

  lemma OutputOfBuffer(ctx: Context, inst: Inst, i: Pin, o: Pin)
    requires inst.cell != SRAM_CELL && inst.cell in ctx.lib && BufferCell(ctx.lib[inst.cell], i, o) && i.name != o.name
    ensures DirectionOf(ctx, inst.cell, o.name) == Some(Out)
  {
    hide NormFunc;
    var pins := ctx.lib[inst.cell].pins;
    assert PinNamed([o], o.name) == Some(Out);
    assert pins[1..] == [pins[1]];
  }

  /** An assign on a clock path leaves the depth. */
  lemma AssignAddsNothing(ctx: Context, nl: Netlist, src: Bit, b: Bit, len: nat, depth: nat)
    requires WellFormed(nl) && OneDriverEach(AllFacts(ctx, nl)) && (b, src) in nl.assigns
    requires b != CLOCK && FromClock(ctx, nl, Table(AllFacts(ctx, nl)), src, len, depth)
    ensures FromClock(ctx, nl, Table(AllFacts(ctx, nl)), b, len + 1, depth)
  {
    hide OneDriverEach, Table, PortFacts, NameFacts;
    var j :| 0 <= j < |nl.assigns| && nl.assigns[j] == (b, src);
    assert AssignFacts(nl)[j] == (b, FromAssign(src)) && AssignFacts(nl)[j] in AllFacts(ctx, nl);
    TableHolds(AllFacts(ctx, nl));
  }

  // ------------------------------------------------------------ the preconditions

  ghost predicate PinsKnown(ctx: Context, inst: Inst, k: nat)
    requires k <= |inst.pins|
  {
    forall i | 0 <= i < k :: DirectionOf(ctx, inst.cell, inst.pins[i].0).Some?
  }

  predicate PortFits(ctx: Context, nl: Netlist, p: (string, Direction, nat)) {
    p.0 in nl.ports && nl.ports[p.0] == (p.1, p.2)
  }

  /** The clock input of a flip-flop cell. */
  function ClockPin(ctx: Context, cell: string): string
    requires RoleOf(ctx, cell) == Flop
  {
    NormFunc(ctx.lib[cell].clockedOn[0])
  }

  predicate Connected(pins: seq<(string, seq<Bit>)>, pin: string) {
    exists p | p in pins :: p.0 == pin
  }

  /** The clock pin of a flip-flop is one bit, and it is the clock. */
  ghost predicate FlopClockOk(ctx: Context, nl: Netlist, d: map<Bit, Driver>, inst: Inst)
    requires RoleOf(ctx, inst.cell) == Flop
  {
    var bits := PinBits(inst.pins, ClockPin(ctx, inst.cell));
    |bits| == 1 && IsClock(ctx, nl, d, bits[0])
  }

  /** Every pin of a macro is connected, and a one-bit A_CLK is the clock. */
  ghost predicate MacroClockOk(ctx: Context, nl: Netlist, d: map<Bit, Driver>, inst: Inst) {
    var bits := PinBits(inst.pins, "A_CLK");
    (forall p | p in ctx.sram :: Connected(inst.pins, p.name)) && (|bits| == 1 ==> IsClock(ctx, nl, d, bits[0]))
  }

  /** Every expected port has its direction and width; every macro pin is connected, a one-bit A_CLK to the clock. */
  lemma PortsAndPinsAre(ctx: Context, nl: Netlist, d: map<Bit, Driver>, inst: Inst)
    ensures (forall p | p in ctx.ports :: PortFits(ctx, nl, p)) <==>
      forall p | p in ctx.ports :: (p.0, (p.1, p.2)) in nl.ports.Items
    ensures MacroClockOk(ctx, nl, d, inst) <==>
      && (forall p | p in ctx.sram :: exists c | c in inst.pins :: c.0 == p.name)
      && forall b | PinBits(inst.pins, "A_CLK") == [b] :: IsClock(ctx, nl, d, b)
  {
    hide IsClock, PinBits;
    var bits := PinBits(inst.pins, "A_CLK");
    if |bits| == 1 { assert bits == [bits[0]]; }
  }

  ghost predicate ClockOk(ctx: Context, nl: Netlist, d: map<Bit, Driver>, name: string)
    requires name in nl.insts
  {
    var inst := nl.insts[name];
    match RoleOf(ctx, inst.cell)
    case Flop => FlopClockOk(ctx, nl, d, inst)
    case Sram => MacroClockOk(ctx, nl, d, inst)
    case _ => true
  }

  ghost predicate ClocksOk(ctx: Context, nl: Netlist, d: map<Bit, Driver>, k: nat)
    requires WellFormed(nl) && k <= |nl.names|
  {
    forall i | 0 <= i < k :: nl.names[i] in nl.insts && ClockOk(ctx, nl, d, nl.names[i])
  }

  /** Everything the analysis asks of a netlist. */
  ghost predicate Preconditions(ctx: Context, nl: Netlist)
    requires WellFormed(nl)
  {
    && (forall n | n in nl.names :: RoleOf(ctx, nl.insts[n].cell) != Unsupported)
    && nl.design == ctx.design && (forall p | p in ctx.ports :: PortFits(ctx, nl, p))
    && (forall n | n in nl.names :: PinsKnown(ctx, nl.insts[n], |nl.insts[n].pins|))
    && OneDriverEach(AllFacts(ctx, nl))
    && ClocksOk(ctx, nl, Table(AllFacts(ctx, nl)), |nl.names|)
  }

  ghost function FlopDepth(ctx: Context, nl: Netlist, d: map<Bit, Driver>, inst: Inst): nat
    requires RoleOf(ctx, inst.cell) == Flop && FlopClockOk(ctx, nl, d, inst)
  {
    ClockDepthOf(ctx, nl, d, PinBits(inst.pins, ClockPin(ctx, inst.cell))[0])
  }

  /** A flip-flop whose clock pin is on the clk port through one buffer is accepted with depth 1. */
  lemma BufferedFlop(ctx: Context, nl: Netlist, n: nat, i: Pin, o: Pin, b: Bit, inst: Inst)
    requires WellFormed(nl) && OneDriverEach(AllFacts(ctx, nl)) && n < |nl.names| && nl.names[n] in nl.names
    requires var buffer := nl.insts[nl.names[n]];
      && buffer.cell != SRAM_CELL && buffer.cell in ctx.lib && BufferCell(ctx.lib[buffer.cell], i, o)
      && i.name != o.name && DistinctNames(buffer.pins)
      && (i.name, [CLOCK]) in buffer.pins && (o.name, [b]) in buffer.pins
    requires b != CLOCK && RoleOf(ctx, inst.cell) == Flop && DistinctNames(inst.pins)
    requires (NormFunc(ctx.lib[inst.cell].clockedOn[0]), [b]) in inst.pins
    ensures var d := Table(AllFacts(ctx, nl)); FlopClockOk(ctx, nl, d, inst) && FlopDepth(ctx, nl, d, inst) == 1
  {
    hide AllFacts, Table, OneDriverEach, RoleOf, NormFunc, PinBits;
    BufferAddsOne(ctx, nl, n, i, o, CLOCK, b, 0, 0);
    DepthIs(ctx, nl, Table(AllFacts(ctx, nl)), b, 1, 1);
    PinBitsAre(inst.pins, ClockPin(ctx, inst.cell), [b]);
  }

  /** The depths of the clock pins of the first k instances, flip-flops only. */
  ghost function FlopDepths(ctx: Context, nl: Netlist, d: map<Bit, Driver>, k: nat): multiset<nat>
    requires WellFormed(nl) && k <= |nl.names| && ClocksOk(ctx, nl, d, k)
  {
    if k == 0 then multiset{}
    else
      var inst := nl.insts[nl.names[k - 1]];
      assert ClockOk(ctx, nl, d, nl.names[k - 1]);
      FlopDepths(ctx, nl, d, k - 1)
      + if RoleOf(ctx, inst.cell) == Flop then multiset{FlopDepth(ctx, nl, d, inst)} else multiset{}
  }

  lemma AnotherClock(ctx: Context, nl: Netlist, d: map<Bit, Driver>, k: nat)
    requires WellFormed(nl) && k < |nl.names| && nl.names[k] in nl.insts
    ensures ClocksOk(ctx, nl, d, k + 1) <==> ClocksOk(ctx, nl, d, k) && ClockOk(ctx, nl, d, nl.names[k])
    ensures ClocksOk(ctx, nl, d, k + 1) ==>
      var inst := nl.insts[nl.names[k]];
      if RoleOf(ctx, inst.cell) == Flop
      then FlopClockOk(ctx, nl, d, inst)
        && FlopDepths(ctx, nl, d, k + 1) == FlopDepths(ctx, nl, d, k) + multiset{FlopDepth(ctx, nl, d, inst)}
      else FlopDepths(ctx, nl, d, k + 1) == FlopDepths(ctx, nl, d, k)
  {
    hide RoleOf, FlopClockOk, MacroClockOk, FlopDepth;
  }

  lemma NotAllClocks(ctx: Context, nl: Netlist, d: map<Bit, Driver>, k: nat)
    requires WellFormed(nl) && k < |nl.names| && nl.names[k] in nl.insts && !ClockOk(ctx, nl, d, nl.names[k])
    ensures !ClocksOk(ctx, nl, d, |nl.names|)
  {
  }

  lemma NoClocks(ctx: Context, nl: Netlist, d: map<Bit, Driver>)
    requires WellFormed(nl)
    ensures ClocksOk(ctx, nl, d, 0) && FlopDepths(ctx, nl, d, 0) == multiset{}
  {
  }

  /** name is a macro whose A_CLK is one bit, depth buffers away from clk. */
  ghost predicate MacroDepth(ctx: Context, nl: Netlist, d: map<Bit, Driver>, name: string, depth: nat) {
    && name in nl.insts && nl.insts[name].cell == SRAM_CELL
    && var bits := PinBits(nl.insts[name].pins, "A_CLK");
       |bits| == 1 && IsClock(ctx, nl, d, bits[0]) && depth == ClockDepthOf(ctx, nl, d, bits[0])
  }

  predicate HasClockBit(nl: Netlist, name: string) {
    name in nl.insts && nl.insts[name].cell == SRAM_CELL && |PinBits(nl.insts[name].pins, "A_CLK")| == 1
  }

  /** A macro whose A_CLK is connected to one bit has a clock bit. */
  lemma ClockBitOfMacro(nl: Netlist, name: string, b: Bit)
    requires name in nl.insts && DistinctNames(nl.insts[name].pins) && ("A_CLK", [b]) in nl.insts[name].pins
    ensures HasClockBit(nl, name) <==> nl.insts[name].cell == SRAM_CELL
  {
    PinBitsAre(nl.insts[name].pins, "A_CLK", [b]);
  }

  /**
   Clock soundness. When the preconditions hold, every valuation that respects the assigns and the
   buffers gives each flip-flop's clock pin, and each one-bit A_CLK, the value of clk.
   */
  lemma ClockSoundness(ctx: Context, nl: Netlist, v: Bit -> bool, name: string)
    requires WellFormed(nl) && Preconditions(ctx, nl) && Satisfies(ctx, nl, v) && name in nl.names
    ensures RoleOf(ctx, nl.insts[name].cell) == Flop ==>
      var bits := PinBits(nl.insts[name].pins, ClockPin(ctx, nl.insts[name].cell));
      |bits| == 1 && v(bits[0]) == v(CLOCK)
    ensures nl.insts[name].cell == SRAM_CELL ==>
      var bits := PinBits(nl.insts[name].pins, "A_CLK");
      |bits| == 1 ==> v(bits[0]) == v(CLOCK)
  {
    hide AllFacts, Table, Satisfies, OneDriverEach, PinBits, CellRole;
    var d := Table(AllFacts(ctx, nl));
    assert ClockOk(ctx, nl, d, name);
    forall b: Bit | IsClock(ctx, nl, d, b) ensures v(b) == v(CLOCK) {
      var len: nat, depth: nat :| FromClock(ctx, nl, d, b, len, depth);
      ClockValue(ctx, nl, v, b, len, depth);
    }
  }

  // ------------------------------------------------------------ driver tables, one fact at a time

  lemma TableGrows(facts: seq<Fact>, f: Fact)
    ensures Table(facts + [f]) == Table(facts)[f.0 := f.1]
  {
    var more := facts + [f];
    assert more[..|more| - 1] == facts;
  }

  lemma OneMoreFact(facts: seq<Fact>, f: Fact)
    ensures OneDriverEach(facts + [f]) <==> OneDriverEach(facts) && f.0.Net? && f.0 !in Table(facts)
  {
    var more := facts + [f];
    FewerFacts(facts, [f]);
    if OneDriverEach(more) {
      assert f in more;
      forall g | g in facts ensures g.0 != f.0 {
        var i :| 0 <= i < |facts| && facts[i] == g;
        assert more[i] == g && more[|facts|] == f;
      }
    } else if OneDriverEach(facts) && f.0.Net? {
      var i, j :| 0 <= i < j < |more| && more[i].0 == more[j].0;
      assert j == |facts| && facts[i] in facts;
    }
  }

  lemma FewerFacts(facts: seq<Fact>, more: seq<Fact>)
    ensures OneDriverEach(facts + more) ==> OneDriverEach(facts)
  {
    if OneDriverEach(facts + more) {
      forall f | f in facts ensures f.0.Net? { assert f in facts + more; }
      forall i, j | 0 <= i < j < |facts| ensures facts[i].0 != facts[j].0 {
        assert (facts + more)[i] == facts[i] && (facts + more)[j] == facts[j];
      }
    }
  }

  // ------------------------------------------------------------ walks

  /** Steps back from path[0], none of them past the clock. */
  ghost predicate IsWalk(ctx: Context, nl: Netlist, d: map<Bit, Driver>, path: seq<Bit>) {
    path != [] && forall i | 0 <= i < |path| - 1 :: Follows(ctx, nl, d, path[i], path[i + 1])
  }

  ghost predicate Follows(ctx: Context, nl: Netlist, d: map<Bit, Driver>, b: Bit, next: Bit) {
    b != CLOCK && Back(ctx, nl, d, b).Some? && Back(ctx, nl, d, b).value.0 == next
  }

  /** The buffers on a walk. */
  ghost function StagesOf(ctx: Context, nl: Netlist, d: map<Bit, Driver>, path: seq<Bit>): nat {
    if |path| <= 1 then 0
    else
      var back := Back(ctx, nl, d, path[|path| - 2]);
      StagesOf(ctx, nl, d, path[..|path| - 1]) + if back.Some? then Stages(back.value.1) else 0
  }

  function Passed(path: seq<Bit>): set<Bit> { set i | 0 <= i < |path| - 1 :: path[i] }

  lemma WalkStarts(ctx: Context, nl: Netlist, d: map<Bit, Driver>, start: Bit)
    ensures IsWalk(ctx, nl, d, [start]) && Passed([start]) == {} && StagesOf(ctx, nl, d, [start]) == 0
  {
  }

  lemma LongerWalk(ctx: Context, nl: Netlist, d: map<Bit, Driver>, path: seq<Bit>, next: Bit)
    requires IsWalk(ctx, nl, d, path) && Follows(ctx, nl, d, path[|path| - 1], next)
    ensures IsWalk(ctx, nl, d, path + [next])
    ensures Passed(path + [next]) == Passed(path) + {path[|path| - 1]}
    ensures StagesOf(ctx, nl, d, path + [next])
      == StagesOf(ctx, nl, d, path) + Stages(Back(ctx, nl, d, path[|path| - 1]).value.1)
  {
    hide Back;
    var longer := path + [next];
    assert longer[..|longer| - 1] == path;
    forall i | 0 <= i < |longer| - 1 ensures Follows(ctx, nl, d, longer[i], longer[i + 1]) {
      if i < |path| - 1 { assert longer[i] == path[i] && longer[i + 1] == path[i + 1]; }
    }
    forall b ensures b in Passed(longer) <==> b in Passed(path) + {path[|path| - 1]} {
      if b in Passed(longer) {
        var i :| 0 <= i < |longer| - 1 && longer[i] == b;
        assert i < |path| - 1 ==> path[i] == b;
      }
    }
  }

  /** A clock path from the end of a walk extends to its start ... */
  lemma {:induction false} WalkReaches(ctx: Context, nl: Netlist, d: map<Bit, Driver>, path: seq<Bit>, len: nat,
                                       depth: nat)
    requires IsWalk(ctx, nl, d, path) && FromClock(ctx, nl, d, path[|path| - 1], len, depth)
    ensures FromClock(ctx, nl, d, path[0], len + |path| - 1, depth + StagesOf(ctx, nl, d, path))
    decreases |path|
  {
    hide Back;
    if |path| > 1 {
      var n := |path| - 2;
      assert Follows(ctx, nl, d, path[n], path[n + 1]);
      var front := path[..n + 1];
      forall i | 0 <= i < |front| - 1 ensures Follows(ctx, nl, d, front[i], front[i + 1]) {
        assert Follows(ctx, nl, d, path[i], path[i + 1]);
      }
      WalkReaches(ctx, nl, d, front, len + 1, depth + Stages(Back(ctx, nl, d, path[n]).value.1));
    }
  }

  lemma WalkEnds(ctx: Context, nl: Netlist, d: map<Bit, Driver>, path: seq<Bit>)
    requires IsWalk(ctx, nl, d, path) && path[|path| - 1] == CLOCK
    ensures IsClock(ctx, nl, d, path[0]) && ClockDepthOf(ctx, nl, d, path[0]) == StagesOf(ctx, nl, d, path)
  {
    hide Back, StagesOf;
    WalkReaches(ctx, nl, d, path, 0, 0);
    DepthIs(ctx, nl, d, path[0], |path| - 1, StagesOf(ctx, nl, d, path));
  }

  /** ... and a clock path from the start runs along the walk. */
  lemma {:induction false} WalkIsOnPath(ctx: Context, nl: Netlist, d: map<Bit, Driver>, path: seq<Bit>, len: nat,
                                        depth: nat)
    requires IsWalk(ctx, nl, d, path) && FromClock(ctx, nl, d, path[0], len, depth)
    ensures len >= |path| - 1 && depth >= StagesOf(ctx, nl, d, path)
    ensures FromClock(ctx, nl, d, path[|path| - 1], len - (|path| - 1), depth - StagesOf(ctx, nl, d, path))
    decreases |path|
  {
    hide Back;
    if |path| > 1 {
      var n := |path| - 2;
      assert Follows(ctx, nl, d, path[n], path[n + 1]);
      var front := path[..n + 1];
      forall i | 0 <= i < |front| - 1 ensures Follows(ctx, nl, d, front[i], front[i + 1]) {
        assert Follows(ctx, nl, d, path[i], path[i + 1]);
      }
      WalkIsOnPath(ctx, nl, d, front, len, depth);
    }
  }

  /** A walk that stops before the clock shows that there is no clock path ... */
  lemma DeadEnd(ctx: Context, nl: Netlist, d: map<Bit, Driver>, path: seq<Bit>)
    requires IsWalk(ctx, nl, d, path)
    requires path[|path| - 1] != CLOCK && Back(ctx, nl, d, path[|path| - 1]).None?
    ensures !IsClock(ctx, nl, d, path[0])
  {
    hide Back;
    forall len: nat, depth: nat ensures !FromClock(ctx, nl, d, path[0], len, depth) {
      if FromClock(ctx, nl, d, path[0], len, depth) { WalkIsOnPath(ctx, nl, d, path, len, depth); }
    }
  }

  /** ... and so does a walk that comes back to a bit. */
  lemma LoopNeverReaches(ctx: Context, nl: Netlist, d: map<Bit, Driver>, path: seq<Bit>)
    requires IsWalk(ctx, nl, d, path) && path[|path| - 1] in Passed(path)
    ensures !IsClock(ctx, nl, d, path[0])
  {
    hide Back;
    var i :| 0 <= i < |path| - 1 && path[i] == path[|path| - 1];
    var front := path[..i + 1];
    forall k | 0 <= k < |front| - 1 ensures Follows(ctx, nl, d, front[k], front[k + 1]) {
      assert Follows(ctx, nl, d, path[k], path[k + 1]);
    }
    forall len: nat, depth: nat ensures !FromClock(ctx, nl, d, path[0], len, depth) {
      if FromClock(ctx, nl, d, path[0], len, depth) {
        WalkIsOnPath(ctx, nl, d, path, len, depth);
        WalkIsOnPath(ctx, nl, d, front, len, depth);
        PathIsUnique(ctx, nl, d, path[i], len - i, depth - StagesOf(ctx, nl, d, front),
          len - (|path| - 1), depth - StagesOf(ctx, nl, d, path));
      }
    }
  }

  predicate Supported(ctx: Context, nl: Netlist, name: string) {
    name in nl.insts && RoleOf(ctx, nl.insts[name].cell) != Unsupported
  }

  // ------------------------------------------------------------ the analysis

  datatype Problem =
    | UnsupportedCell(cell: string) | WrongDesign | PortShape(port: string)
    | DrivesConstant(bit: Bit) | TwoDrivers(bit: Bit) | UnknownPin(inst: string, pin: string)
    | ClockLoop(bit: Bit) | NoDriver(bit: Bit) | OtherPort(port: string) | NotABuffer(inst: string)
    | ClockPinOpen(inst: string) | MacroPinOpen(inst: string, pin: string)

  /** The outcome of a walk; it raises when a buffer's input is not connected. */
  datatype Walk = Depth(depth: nat) | Refused | Raised

  class StructureCheck {
    const ctx: Context
    const nl: Netlist
    var drivers: map<Bit, Driver>
    var errors: seq<Problem>
    ghost var added: seq<Fact>

    constructor (ctx: Context, nl: Netlist)
      ensures this.ctx == ctx && this.nl == nl && errors == [] && added == [] && Valid()
    {
      this.ctx, this.nl, drivers, errors, added := ctx, nl, map[], [], [];
    }

    /** Without errors so far, the table holds the drivers added so far, and they are unique. */
    ghost predicate Valid()
      reads this
    {
      errors == [] ==> OneDriverEach(added) && drivers == Table(added)
    }

    method AddDriver(bit: Bit, who: Driver)
      requires Valid()
      modifies this
      ensures Valid() && added == old(added) + [(bit, who)]
      ensures errors == [] <==> old(errors) == [] && OneDriverEach(added)
    {
      hide OneDriverEach, Table;
      OneMoreFact(added, (bit, who));
      TableGrows(added, (bit, who));
      added := added + [(bit, who)];
      if bit.Const? {
        errors := errors + [DrivesConstant(bit)];
      } else if bit in drivers {
        errors := errors + [TwoDrivers(bit)];
      } else {
        drivers := drivers[bit := who];
      }
    }

    method AddAll(facts: seq<Fact>)
      requires Valid()
      modifies this
      ensures Valid() && added == old(added) + facts
      ensures errors == [] <==> old(errors) == [] && OneDriverEach(added)
    {
      var i := 0;
      assert errors == [] ==> OneDriverEach(added);
      while i < |facts|
        invariant i <= |facts| && Valid() && added == old(added) + facts[..i]
        invariant errors == [] <==> old(errors) == [] && OneDriverEach(added)
      {
        ghost var before := added;
        AddDriver(facts[i].0, facts[i].1);
        assert facts[..i + 1] == facts[..i] + [facts[i]];
        FewerFacts(before, [facts[i]]);
        i := i + 1;
      }
      assert facts[..|facts|] == facts;
    }

    /** The pins of one instance. */
    method AddInstance(name: string)
      requires Valid() && name in nl.insts
      modifies this
      ensures Valid()
      ensures added == old(added) + InstFacts(ctx, name, nl.insts[name], |nl.insts[name].pins|)
      ensures errors == [] <==>
        old(errors) == [] && OneDriverEach(added) && PinsKnown(ctx, nl.insts[name], |nl.insts[name].pins|)
    {
      hide OneDriverEach, PinFacts, DirectionOf, Table;
      var inst := nl.insts[name];
      for k := 0 to |inst.pins|
        invariant Valid() && added == old(added) + InstFacts(ctx, name, inst, k)
        invariant errors == [] <==> old(errors) == [] && OneDriverEach(added) && PinsKnown(ctx, inst, k)
      {
        var (pin, bits) := inst.pins[k];
        match DirectionOf(ctx, inst.cell, pin) {
          case None => errors := errors + [UnknownPin(name, pin)];
          case Some(direction) =>
            if direction == Out {
              ghost var before := added;
              AddAll(PinFacts(name, pin, bits, |bits|));
              FewerFacts(before, PinFacts(name, pin, bits, |bits|));
            }
        }
      }
    }

    /** Input ports, assigns and the output pins of supported cells. */
    method AddDrivers()
      requires WellFormed(nl) && Valid() && added == []
      modifies this
      ensures Valid() && added == AllFacts(ctx, nl)
      ensures errors == [] <==> old(errors) == [] && OneDriverEach(added) && forall n | n in nl.names ::
        RoleOf(ctx, nl.insts[n].cell) != Unsupported ==> PinsKnown(ctx, nl.insts[n], |nl.insts[n].pins|)
    {
      hide RoleOf, InstFacts, PortFacts, Table, DirectionOf, OneDriverEach, PinsKnown;
      ghost var ports := PortFacts(nl.inputs, |nl.inputs|);
      AddAll(PortFacts(nl.inputs, |nl.inputs|));
      assert added == ports;
      AddAll(AssignFacts(nl));
      FewerFacts(ports, AssignFacts(nl));
      for k := 0 to |nl.names|
        invariant Valid() && added == ports + AssignFacts(nl) + NameFacts(ctx, nl, k)
        invariant errors == [] <==> old(errors) == [] && OneDriverEach(added) && forall i | 0 <= i < k ::
          Supported(ctx, nl, nl.names[i]) ==> PinsKnown(ctx, nl.insts[nl.names[i]], |nl.insts[nl.names[i]].pins|)
      {
        var name := nl.names[k];
        assert name in nl.names;
        if RoleOf(ctx, nl.insts[name].cell) != Unsupported {
          ghost var before := added;
          AddInstance(name);
          FewerFacts(before, InstFacts(ctx, name, nl.insts[name], |nl.insts[name].pins|));
        }
      }
    }

    /** Walk back from a bit to the clk port. The walk always ends. */
    method ClockDepth(start: Bit) returns (walk: Walk)
      modifies this`errors
      ensures walk.Depth? ==>
        errors == old(errors) && IsClock(ctx, nl, drivers, start) && walk.depth == ClockDepthOf(ctx, nl, drivers, start)
      ensures !walk.Depth? ==> !IsClock(ctx, nl, drivers, start)
      ensures walk.Refused? ==> errors != []
      ensures walk.Raised? ==> errors == old(errors)
    {
      hide Passed, StagesOf, FromClock, IsClock, ClockDepthOf, RoleOf;
      var bit, depth: nat, seen: set<Bit> := start, 0, {};
      ghost var path := [start];
      WalkStarts(ctx, nl, drivers, start);
      while true
        invariant errors == old(errors)
        invariant IsWalk(ctx, nl, drivers, path) && path[0] == start && path[|path| - 1] == bit
        invariant depth == StagesOf(ctx, nl, drivers, path)
        invariant seen == Passed(path) && seen <= drivers.Keys
        decreases drivers.Keys - seen
      {
        if bit == CLOCK {
          WalkEnds(ctx, nl, drivers, path);
          return Depth(depth);
        }
        if bit in seen {
          LoopNeverReaches(ctx, nl, drivers, path);
          errors := errors + [ClockLoop(bit)];
          return Refused;
        }
        seen := seen + {bit};
        if bit !in drivers {
          DeadEnd(ctx, nl, drivers, path);
          errors := errors + [NoDriver(bit)];
          return Refused;
        }
        match drivers[bit] {
          case FromPort(port) =>
            DeadEnd(ctx, nl, drivers, path);
            errors := errors + [OtherPort(port)];
            return Refused;
          case FromAssign(src) =>
            bit := src;
          case FromInst(name, _, _) =>
            if !IsBuffer(ctx, nl, name) {
              DeadEnd(ctx, nl, drivers, path);
              errors := errors + [NotABuffer(name)];
              return Refused;
            }
            var input := BufferInput(ctx, nl, name);
            if input.None? {
              DeadEnd(ctx, nl, drivers, path);
              return Raised;
            }
            bit := input.value;
            depth := depth + 1;
        }
        LongerWalk(ctx, nl, drivers, path, bit);
        path := path + [bit];
      }
    }

    /** Every instance's cell is supported. */
    method CheckCells()
      requires WellFormed(nl)
      modifies this`errors
      ensures errors == [] <==>
        old(errors) == [] && forall n | n in nl.names :: RoleOf(ctx, nl.insts[n].cell) != Unsupported
    {
      hide RoleOf;
      for k := 0 to |nl.names|
        invariant errors == [] <==>
          old(errors) == [] && forall i | 0 <= i < k :: Supported(ctx, nl, nl.names[i])
      {
        var name := nl.names[k];
        assert name in nl.names;
        if RoleOf(ctx, nl.insts[name].cell) == Unsupported {
          errors := errors + [UnsupportedCell(nl.insts[name].cell)];
        }
      }
    }

    /** The module's name and ports. */
    method CheckPorts()
      modifies this`errors
      ensures errors == [] <==>
        old(errors) == [] && nl.design == ctx.design && forall p | p in ctx.ports :: PortFits(ctx, nl, p)
    {
      if nl.design != ctx.design {
        errors := errors + [WrongDesign];
      }
      for k := 0 to |ctx.ports|
        invariant errors == [] <==>
          old(errors) == [] && nl.design == ctx.design && forall p | p in ctx.ports[..k] :: PortFits(ctx, nl, p)
      {
        assert ctx.ports[..k + 1] == ctx.ports[..k] + [ctx.ports[k]];
        if !PortFits(ctx, nl, ctx.ports[k]) {
          errors := errors + [PortShape(ctx.ports[k].0)];
        }
      }
      assert ctx.ports[..|ctx.ports|] == ctx.ports;
    }

    /** Every pin of a macro is connected. */
    method CheckMacroPins(name: string)
      requires name in nl.insts
      modifies this`errors
      ensures errors == [] <==>
        old(errors) == [] && forall p | p in ctx.sram :: Connected(nl.insts[name].pins, p.name)
    {
      for k := 0 to |ctx.sram|
        invariant errors == [] <==>
          old(errors) == [] && forall p | p in ctx.sram[..k] :: Connected(nl.insts[name].pins, p.name)
      {
        assert ctx.sram[..k + 1] == ctx.sram[..k] + [ctx.sram[k]];
        if !Connected(nl.insts[name].pins, ctx.sram[k].name) {
          errors := errors + [MacroPinOpen(name, ctx.sram[k].name)];
        }
      }
      assert ctx.sram[..|ctx.sram|] == ctx.sram;
    }

    /** The clock of one instance: its depth, if it has a clock path. */
    method CheckClock(name: string) returns (walk: Walk)
      requires name in nl.insts
      modifies this`errors
      ensures !walk.Raised? && errors == [] <==> old(errors) == [] && ClockOk(ctx, nl, drivers, name)
      ensures walk.Raised? ==> !ClockOk(ctx, nl, drivers, name)
      ensures !walk.Raised? && errors == [] && RoleOf(ctx, nl.insts[name].cell) == Flop ==>
        FlopClockOk(ctx, nl, drivers, nl.insts[name])
        && walk == Depth(FlopDepth(ctx, nl, drivers, nl.insts[name]))
      ensures walk.Depth? && nl.insts[name].cell == SRAM_CELL ==> MacroDepth(ctx, nl, drivers, name, walk.depth)
      ensures !walk.Raised? && errors == [] && HasClockBit(nl, name) ==> walk.Depth?
      ensures walk.Depth? ==> RoleOf(ctx, nl.insts[name].cell) in {Flop, Sram}
    {
      hide FromClock, Connected, PinBits, IsClock, ClockDepthOf;
      walk := Refused;
      var inst := nl.insts[name];
      if RoleOf(ctx, inst.cell) == Flop {
        var bits := PinBits(inst.pins, ClockPin(ctx, inst.cell));
        if |bits| != 1 {
          errors := errors + [ClockPinOpen(name)];
        } else {
          walk := ClockDepth(bits[0]);
        }
      } else if inst.cell == SRAM_CELL {
        CheckMacroPins(name);
        var bits := PinBits(inst.pins, "A_CLK");
        if |bits| == 1 {
          walk := ClockDepth(bits[0]);
        }
      }
    }

    /** Every clock pin, in the order of the names. */
    method CheckClocks() returns (flops: multiset<nat>, macros: map<string, nat>, raised: bool)
      requires WellFormed(nl)
      modifies this`errors
      ensures !raised && errors == [] <==> old(errors) == [] && ClocksOk(ctx, nl, drivers, |nl.names|)
      ensures !raised && errors == [] ==> flops == FlopDepths(ctx, nl, drivers, |nl.names|)
      ensures forall n | n in macros :: MacroDepth(ctx, nl, drivers, n, macros[n])
      ensures !raised && errors == [] ==> forall n | n in nl.names && HasClockBit(nl, n) :: n in macros
    {
      hide ClocksOk, ClockOk, FlopClockOk, FlopDepth, FlopDepths, MacroDepth, CellRole, PinBits;
      NoClocks(ctx, nl, drivers);
      flops, macros, raised := multiset{}, map[], false;
      for k := 0 to |nl.names|
        invariant errors == [] <==> old(errors) == [] && ClocksOk(ctx, nl, drivers, k)
        invariant errors == [] ==> flops == FlopDepths(ctx, nl, drivers, k)
        invariant forall n | n in macros :: MacroDepth(ctx, nl, drivers, n, macros[n])
        invariant errors == [] ==> forall i | 0 <= i < k && HasClockBit(nl, nl.names[i]) :: nl.names[i] in macros
      {
        var name := nl.names[k];
        assert name in nl.names;
        AnotherClock(ctx, nl, drivers, k);
        var walk := CheckClock(name);
        if walk.Raised? {
          NotAllClocks(ctx, nl, drivers, k);
          return flops, macros, true;
        }
        if walk.Depth? {
          if nl.insts[name].cell == SRAM_CELL {
            macros := macros[name := walk.depth];
          } else {
            flops := flops + multiset{walk.depth};
          }
        }
      }
    }

    /**
     The whole analysis. It finds nothing wrong if and only if the preconditions hold, and then the
     reported depths are the numbers of buffers on the clock paths. At most 200 problems are kept.
     */
    method Analyse() returns (flops: multiset<nat>, macros: map<string, nat>, raised: bool)
      requires WellFormed(nl) && Valid() && errors == [] && added == []
      modifies this
      ensures !raised && errors == [] <==> Preconditions(ctx, nl)
      ensures !raised ==> |errors| <= 200
      ensures Preconditions(ctx, nl) ==> var d := Table(AllFacts(ctx, nl));
        && flops == FlopDepths(ctx, nl, d, |nl.names|)
        && (forall n | n in macros :: MacroDepth(ctx, nl, d, n, macros[n]))
        && forall n | n in nl.names && HasClockBit(nl, n) :: n in macros
    {
      hide RoleOf, Table, AllFacts, OneDriverEach, ClocksOk, FlopDepths, MacroDepth, HasClockBit, PinsKnown, PortFits;
      CheckCells();
      CheckPorts();
      AddDrivers();
      flops, macros, raised := CheckClocks();
      if !raised && |errors| > 200 {
        errors := errors[..200];
      }
    }
  }
}
