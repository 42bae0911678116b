/**
 Structural hashes of combinational cones (formal_depth/gen/mutant_cones.py, Netlist.hashes).

 The hash function is modelled as an injective constructor, so a cone's hash is the tree of cell
 types, parameters and leaf labels that it hashes. Cells share their cones: the hashes are
 computed once per cell, by a depth-first traversal with an explicit stack and a shared memo.
 */
module ConeHash {
  import opened Results

  const SEQ: set<string> := {"$dff", "$dffe", "$sdff", "$sdffe", "$sdffce", "$adff", "$adffe", "$aldff", "$aldffe",
                             "$dffsr", "$dffsre", "$ff", "$mem", "$mem_v2"}

  datatype NetBit = Const(text: string) | Net(id: int)

  datatype Driver = Input(port: string, index: nat) | Output(cell: string, port: string, index: nat)

  /** A cell; ins are its input ports in sorted order with the bits connected to them. */
  datatype Cell = Cell(kind: string, params: seq<(string, string)>, width: nat, ins: seq<(string, seq<NetBit>)>)

  /** cells lists every cell once; outputs are the module's output ports. */
  datatype Netlist = Netlist(cells: map<string, Cell>, order: seq<string>, driver: map<int, Driver>,
                             outputs: seq<(string, seq<NetBit>)>)

  /** State elements: flip-flops, memories and macros. */
  predicate IsState(c: Cell) {
    c.kind in SEQ || c.kind == "" || c.kind[0] != '$'
  }

  ghost predicate WellFormed(net: Netlist) {
    && (forall b | b in net.driver && net.driver[b].Output? :: net.driver[b].cell in net.cells)
    && (forall c :: c in net.order <==> c in net.cells)
    && (forall c | c in net.cells :: DistinctPorts(net.cells[c].ins))
    && DistinctPorts(net.outputs)
  }

  ghost predicate DistinctPorts(ports: seq<(string, seq<NetBit>)>) {
    forall i, j | 0 <= i < j < |ports| :: ports[i].0 != ports[j].0
  }

  // ------------------------------------------------------------ combinational dependencies

  function AllBits(ins: seq<(string, seq<NetBit>)>): (bits: seq<NetBit>)
    ensures forall p, i | 0 <= p < |ins| && 0 <= i < |ins[p].1| :: ins[p].1[i] in bits
  {
    if ins == [] then []
    else
      var rest := AllBits(ins[1..]);
      assert forall p | 1 <= p < |ins| :: ins[p] == ins[1..][p - 1];
      ins[0].1 + rest
  }

  /** The combinational cell that drives a bit, if one does. */
  function CombDriver(net: Netlist, b: NetBit): (d: Option<string>)
    requires WellFormed(net)
    ensures d.Some? ==> d.value in net.cells && !IsState(net.cells[d.value])
  {
    if b.Net? && b.id in net.driver && net.driver[b.id].Output? && !IsState(net.cells[net.driver[b.id].cell])
    then Some(net.driver[b.id].cell) else None
  }

  function Drivers(net: Netlist, bits: seq<NetBit>): (ds: seq<string>)
    requires WellFormed(net)
    ensures forall d | d in ds :: exists b | b in bits :: CombDriver(net, b) == Some(d)
    ensures forall b | b in bits && CombDriver(net, b).Some? :: CombDriver(net, b).value in ds
  {
    if bits == [] then []
    else
      var rest := Drivers(net, bits[1..]);
      assert forall b :: b in bits <==> b == bits[0] || b in bits[1..];
      match CombDriver(net, bits[0]) case None => rest case Some(d) => [d] + rest
  }

  ghost predicate IsComb(net: Netlist, c: string) { c in net.cells && !IsState(net.cells[c]) }

  function Deps(net: Netlist, c: string): (ds: seq<string>)
    requires WellFormed(net) && c in net.cells
    ensures forall d | d in ds :: IsComb(net, d)
  {
    Drivers(net, AllBits(net.cells[c].ins))
  }

  /** A rank that falls along every combinational dependency. */
  ghost predicate Ranked(net: Netlist, rank: map<string, nat>)
    requires WellFormed(net)
  {
    && (forall c | IsComb(net, c) :: c in rank)
    && forall c, d | IsComb(net, c) && d in Deps(net, c) :: rank[d] < rank[c]
  }

  ghost predicate Acyclic(net: Netlist) {
    WellFormed(net) && exists rank :: Ranked(net, rank)
  }

  ghost function RankOf(net: Netlist): (rank: map<string, nat>)
    requires Acyclic(net)
    ensures Ranked(net, rank)
  {
    var rank :| Ranked(net, rank); rank
  }

  ghost function BitRank(net: Netlist, b: NetBit): nat
    requires Acyclic(net)
  {
    match CombDriver(net, b) case None => 0 case Some(d) => 2 * RankOf(net)[d] + 2
  }

  lemma BitsRankBelow(net: Netlist, c: string, p: nat, i: nat)
    requires Acyclic(net) && IsComb(net, c) && p < |net.cells[c].ins| && i < |net.cells[c].ins[p].1|
    ensures BitRank(net, net.cells[c].ins[p].1[i]) <= 2 * RankOf(net)[c]
  {
    var b := net.cells[c].ins[p].1[i];
    assert b in AllBits(net.cells[c].ins);
    if CombDriver(net, b).Some? {
      assert CombDriver(net, b).value in Deps(net, c);
    }
  }

  // ------------------------------------------------------------ the hash, defined recursively

  datatype Leaf = Named(name: string) | Anonymous(kind: string, width: nat)

  type Labels = map<string, Option<string>>

  function LeafOf(net: Netlist, labels: Labels, c: string): Leaf
    requires c in net.cells
  {
    if c in labels && labels[c].Some? then Named(labels[c].value)
    else Anonymous(net.cells[c].kind, net.cells[c].width)
  }

  datatype Hash = Cone(kind: string, params: seq<(string, string)>, ins: seq<PortHash>)

  datatype PortHash = PortHash(port: string, bits: seq<BitHash>)

  datatype BitHash =
    | HConst(text: string)
    | HUndriven
    | HInput(port: string, index: nat)
    | HLeaf(leaf: Leaf, port: string, index: nat)
    | HCell(cone: Hash, port: string, index: nat)

  ghost function CellHash(net: Netlist, labels: Labels, c: string): Hash
    requires Acyclic(net) && IsComb(net, c)
    decreases 2 * RankOf(net)[c] + 1
  {
    var cell := net.cells[c];
    Cone(cell.kind, cell.params,
         seq(|cell.ins|, p requires 0 <= p < |cell.ins| =>
           PortHash(cell.ins[p].0,
            seq(|cell.ins[p].1|, i requires 0 <= i < |cell.ins[p].1| =>
              BitsRankBelow(net, c, p, i);
              HashBit(net, labels, cell.ins[p].1[i])))))
  }

  ghost function HashBit(net: Netlist, labels: Labels, b: NetBit): BitHash
    requires Acyclic(net)
    decreases BitRank(net, b)
  {
    match b
    case Const(text) => HConst(text)
    case Net(id) =>
      if id !in net.driver then HUndriven
      else
        match net.driver[id]
        case Input(port, index) => HInput(port, index)
        case Output(d, port, index) =>
          if IsState(net.cells[d]) then HLeaf(LeafOf(net, labels, d), port, index)
          else HCell(CellHash(net, labels, d), port, index)
  }

  ghost function HashBits(net: Netlist, labels: Labels, bits: seq<NetBit>): (hs: seq<BitHash>)
    requires Acyclic(net)
    ensures |hs| == |bits|
  {
    seq(|bits|, i requires 0 <= i < |bits| => HashBit(net, labels, bits[i]))
  }

  // ------------------------------------------------------------ the work left on the stack

  /** An upper bound on the pops that a request for a cell can cause: its cone, unshared. */
  ghost function Work(net: Netlist, c: string): nat
    requires Acyclic(net) && IsComb(net, c)
    decreases RankOf(net)[c], 1, 0
  {
    2 + WorkOf(net, Deps(net, c), RankOf(net)[c])
  }

  ghost function WorkOf(net: Netlist, ds: seq<string>, bound: nat): nat
    requires Acyclic(net) && forall d | d in ds :: IsComb(net, d) && RankOf(net)[d] < bound
    decreases bound, 0, |ds|
  {
    if ds == [] then 0 else Work(net, ds[0]) + WorkOf(net, ds[1..], bound)
  }

  /** A cell on the stack; ready when it waits for its dependencies only. */
  datatype Entry = Entry(cell: string, ready: bool)

  ghost function StackWork(net: Netlist, stack: seq<Entry>): nat
    requires Acyclic(net) && forall e | e in stack :: IsComb(net, e.cell)
  {
    if stack == [] then 0
    else
      var top := stack[|stack| - 1];
      StackWork(net, stack[..|stack| - 1]) + if top.ready then 1 else Work(net, top.cell)
  }

  function Pending(ds: seq<string>, memo: map<string, Hash>): (ps: seq<string>)
    ensures forall d :: d in ps <==> d in ds && d !in memo
  {
    if ds == [] then []
    else if ds[0] in memo then Pending(ds[1..], memo)
    else [ds[0]] + Pending(ds[1..], memo)
  }

  function Waiting(ps: seq<string>): (es: seq<Entry>)
    ensures |es| == |ps| && forall i | 0 <= i < |ps| :: es[i] == Entry(ps[i], false)
  {
    seq(|ps|, i requires 0 <= i < |ps| => Entry(ps[i], false))
  }

  lemma {:induction false} PendingWork(net: Netlist, ds: seq<string>, memo: map<string, Hash>, bound: nat)
    requires Acyclic(net) && forall d | d in ds :: IsComb(net, d) && RankOf(net)[d] < bound
    ensures WorkOf(net, Pending(ds, memo), bound) <= WorkOf(net, ds, bound)
  {
    if ds != [] { PendingWork(net, ds[1..], memo, bound); }
  }

  lemma {:induction false} PushedWork(net: Netlist, stack: seq<Entry>, ps: seq<string>, bound: nat)
    requires Acyclic(net) && forall e | e in stack :: IsComb(net, e.cell)
    requires forall d | d in ps :: IsComb(net, d) && RankOf(net)[d] < bound
    ensures forall e | e in stack + Waiting(ps) :: IsComb(net, e.cell)
    ensures StackWork(net, stack + Waiting(ps)) == StackWork(net, stack) + WorkOf(net, ps, bound)
    decreases |ps|
  {
    if ps == [] {
      assert stack + Waiting(ps) == stack;
    } else {
      var first := Entry(ps[0], false);
      assert stack + Waiting(ps) == (stack + [first]) + Waiting(ps[1..]);
      PushedWork(net, stack + [first], ps[1..], bound);
      assert (stack + [first])[..|stack|] == stack;
    }
  }

  lemma DepsRankBelow(net: Netlist, c: string)
    requires Acyclic(net) && IsComb(net, c)
    ensures forall d | d in Deps(net, c) :: IsComb(net, d) && RankOf(net)[d] < RankOf(net)[c]
  {
    var rank := RankOf(net);
    assert Ranked(net, rank);
  }

  lemma PoppedWork(net: Netlist, stack: seq<Entry>)
    requires Acyclic(net) && stack != [] && forall e | e in stack :: IsComb(net, e.cell)
    ensures StackWork(net, stack[..|stack| - 1]) < StackWork(net, stack)
  {
  }

  /** Replacing a waiting cell by its ready entry and its pending dependencies leaves less work. */
  lemma ExpandedWork(net: Netlist, rest: seq<Entry>, c: string, memo: map<string, Hash>)
    requires Acyclic(net) && (forall e | e in rest :: IsComb(net, e.cell)) && IsComb(net, c)
    ensures forall e | e in rest + [Entry(c, true)] + Waiting(Pending(Deps(net, c), memo)) :: IsComb(net, e.cell)
    ensures StackWork(net, rest + [Entry(c, true)] + Waiting(Pending(Deps(net, c), memo)))
      < StackWork(net, rest + [Entry(c, false)])
  {
    var ds, bound := Deps(net, c), RankOf(net)[c];
    DepsRankBelow(net, c);
    PendingWork(net, ds, memo, bound);
    PushedWork(net, rest + [Entry(c, true)], Pending(ds, memo), bound);
    assert (rest + [Entry(c, true)])[..|rest|] == rest;
    assert (rest + [Entry(c, false)])[..|rest|] == rest;
  }

  // ------------------------------------------------------------ sinks

  /** A sink: an input port of a state element, or an output of the module. */
  datatype Sink = StateInput(cell: string, port: string) | ModuleOutput(port: string)

  datatype SinkHash = StateHash(params: seq<(string, string)>, bits: seq<BitHash>) | OutputHash(bits: seq<BitHash>)

  /** The sink and the bits that drive it. */
  ghost predicate IsSink(net: Netlist, sink: Sink, bits: seq<NetBit>) {
    match sink
    case StateInput(c, port) => c in net.cells && IsState(net.cells[c]) && (port, bits) in net.cells[c].ins
    case ModuleOutput(port) => (port, bits) in net.outputs
  }

  ghost function SinkHashOf(net: Netlist, labels: Labels, sink: Sink, bits: seq<NetBit>): SinkHash
    requires Acyclic(net) && IsSink(net, sink, bits)
  {
    match sink
    case StateInput(c, _) => StateHash(net.cells[c].params, HashBits(net, labels, bits))
    case ModuleOutput(_) => OutputHash(HashBits(net, labels, bits))
  }

  ghost function HighestRank(net: Netlist, bits: seq<NetBit>): (top: nat)
    requires Acyclic(net)
    ensures forall b | b in bits :: BitRank(net, b) <= top
  {
    if bits == [] then 0
    else
      var top := HighestRank(net, bits[1..]);
      assert forall b | b in bits :: b == bits[0] || b in bits[1..];
      if BitRank(net, bits[0]) > top then BitRank(net, bits[0]) else top
  }

  // ------------------------------------------------------------ the invariant of the stack

  ghost predicate Above(stack: seq<Entry>, x: nat, d: string) {
    exists y | x < y < |stack| :: stack[y].cell == d
  }

  /** Whatever entry x waits for is done or stacked above it. */
  ghost predicate Covered(net: Netlist, memo: map<string, Hash>, stack: seq<Entry>, x: nat)
    requires WellFormed(net) && x < |stack| && IsComb(net, stack[x].cell)
  {
    stack[x].ready ==> forall d | d in Deps(net, stack[x].cell) :: d in memo || Above(stack, x, d)
  }

  /** Entries are combinational, rank at most top, and a ready entry's dependencies are done or above it. */
  ghost predicate StackInv(net: Netlist, memo: map<string, Hash>, stack: seq<Entry>, top: nat)
    requires Acyclic(net)
  {
    && (forall e | e in stack :: IsComb(net, e.cell) && RankOf(net)[e.cell] <= top)
    && forall x | 0 <= x < |stack| :: Covered(net, memo, stack, x)
  }

  lemma EntriesOf(net: Netlist, memo: map<string, Hash>, stack: seq<Entry>, top: nat)
    requires Acyclic(net) && StackInv(net, memo, stack, top)
    ensures forall e | e in stack :: IsComb(net, e.cell) && RankOf(net)[e.cell] <= top
  {
  }

  lemma FirstEntry(net: Netlist, memo: map<string, Hash>, c: string)
    requires Acyclic(net) && IsComb(net, c)
    ensures StackInv(net, memo, [Entry(c, false)], RankOf(net)[c])
  {
  }

  /** Dropping a top entry whose cell is in the memo keeps the invariant. */
  lemma PopKeepsInv(net: Netlist, memo: map<string, Hash>, stack: seq<Entry>, top: nat)
    requires Acyclic(net) && stack != [] && StackInv(net, memo, stack, top) && stack[|stack| - 1].cell in memo
    ensures StackInv(net, memo, stack[..|stack| - 1], top)
  {
    hide RankOf, Deps;
    var rest := stack[..|stack| - 1];
    forall x | 0 <= x < |rest| ensures Covered(net, memo, rest, x) {
      assert Covered(net, memo, stack, x);
      forall d | d in Deps(net, rest[x].cell) && Above(stack, x, d) && d !in memo ensures Above(rest, x, d) {
        var y :| x < y < |stack| && stack[y].cell == d;
        assert rest[y] == stack[y];
      }
    }
  }

  /** Learning the hash of one more cell keeps the invariant. */
  lemma MemoKeepsInv(net: Netlist, memo: map<string, Hash>, memo': map<string, Hash>, stack: seq<Entry>, top: nat)
    requires Acyclic(net) && StackInv(net, memo, stack, top) && memo.Keys <= memo'.Keys
    ensures StackInv(net, memo', stack, top)
  {
    forall x | 0 <= x < |stack| ensures Covered(net, memo', stack, x) {
      assert Covered(net, memo, stack, x);
    }
  }

  lemma PushKeepsInv(net: Netlist, memo: map<string, Hash>, stack: seq<Entry>, top: nat)
    requires Acyclic(net) && stack != [] && StackInv(net, memo, stack, top) && IsComb(net, stack[|stack| - 1].cell)
    ensures var c := stack[|stack| - 1].cell;
      StackInv(net, memo, stack[..|stack| - 1] + [Entry(c, true)] + Waiting(Pending(Deps(net, c), memo)), top)
  {
    hide RankOf, Deps;
    var rest, c := stack[..|stack| - 1], stack[|stack| - 1].cell;
    var ps := Pending(Deps(net, c), memo);
    var next := rest + [Entry(c, true)] + Waiting(ps);
    PushedEntries(net, memo, stack, top);
    forall x | 0 <= x < |next| ensures Covered(net, memo, next, x) {
      hide Above;
      if x < |rest| {
        assert Covered(net, memo, stack, x) && next[x] == stack[x];
        forall d | Above(stack, x, d) ensures Above(next, x, d) {
          AboveAfterPush(stack, Waiting(ps), x, d);
        }
      } else if x == |rest| {
        forall d | d in Deps(net, c) && d !in memo ensures Above(next, x, d) {
          AboveItsEntry(rest, c, ps, d);
        }
      }
    }
  }

  lemma AboveAfterPush(stack: seq<Entry>, waiting: seq<Entry>, x: nat, d: string)
    requires stack != [] && Above(stack, x, d)
    ensures Above(stack[..|stack| - 1] + [Entry(stack[|stack| - 1].cell, true)] + waiting, x, d)
  {
    var next := stack[..|stack| - 1] + [Entry(stack[|stack| - 1].cell, true)] + waiting;
    var y :| x < y < |stack| && stack[y].cell == d;
    assert next[y].cell == stack[y].cell;
  }

  lemma AboveItsEntry(rest: seq<Entry>, c: string, ps: seq<string>, d: string)
    requires d in ps
    ensures Above(rest + [Entry(c, true)] + Waiting(ps), |rest|, d)
  {
    var i :| 0 <= i < |ps| && ps[i] == d;
    assert (rest + [Entry(c, true)] + Waiting(ps))[|rest| + 1 + i].cell == d;
  }

  lemma PushedEntries(net: Netlist, memo: map<string, Hash>, stack: seq<Entry>, top: nat)
    requires Acyclic(net) && stack != [] && StackInv(net, memo, stack, top) && IsComb(net, stack[|stack| - 1].cell)
    ensures var c := stack[|stack| - 1].cell;
      forall e | e in stack[..|stack| - 1] + [Entry(c, true)] + Waiting(Pending(Deps(net, c), memo)) ::
        IsComb(net, e.cell) && RankOf(net)[e.cell] <= top
  {
    hide Covered;
    assert stack[|stack| - 1] in stack;
    DepsRankBelow(net, stack[|stack| - 1].cell);
  }

  /** When the top entry is ready, or has nothing pending, all its dependencies are in the memo. */
  lemma AllDone(net: Netlist, memo: map<string, Hash>, stack: seq<Entry>, top: nat)
    requires Acyclic(net) && stack != [] && StackInv(net, memo, stack, top) && IsComb(net, stack[|stack| - 1].cell)
    requires Pending(Deps(net, stack[|stack| - 1].cell), memo) == [] || stack[|stack| - 1].ready
    ensures forall d | d in Deps(net, stack[|stack| - 1].cell) :: d in memo
  {
    var x := |stack| - 1;
    var pending := Pending(Deps(net, stack[x].cell), memo);
    assert Covered(net, memo, stack, x);
    forall d | d in Deps(net, stack[x].cell) ensures d in memo {
      if pending == [] { assert d !in pending; }
    }
  }

  /** The cell that drives a bit, if a combinational one does, has its hash in the memo. */
  ghost predicate DriverKnown(net: Netlist, memo: map<string, Hash>, b: NetBit)
    requires WellFormed(net)
  {
    CombDriver(net, b).Some? ==> CombDriver(net, b).value in memo
  }

  // ------------------------------------------------------------ the traversal

  class ConeHasher {
    const net: Netlist
    const labels: Labels
    var memo: map<string, Hash>

    /** The memo holds the recursively defined hash of every cell it knows. */
    ghost predicate Valid()
      reads this
    {
      Acyclic(net) && forall c | c in memo :: IsComb(net, c) && memo[c] == CellHash(net, labels, c)
    }

    constructor (net: Netlist, labels: Labels)
      requires Acyclic(net)
      ensures this.net == net && this.labels == labels && memo == map[] && Valid()
    {
      this.net, this.labels, this.memo := net, labels, map[];
    }

    /**
     The hash of one cell, by an explicit-stack post-order traversal. A cell already in the memo
     changes nothing, and every dependency of a cell is in the memo before the cell is hashed.
     */
    method HashOfCell(cname: string) returns (h: Hash)
      requires Valid() && IsComb(net, cname)
      modifies this
      ensures Valid() && cname in memo && h == memo[cname] == CellHash(net, labels, cname)
      ensures old(memo).Keys <= memo.Keys
      ensures cname in old(memo) ==> memo == old(memo)
      decreases 2 * RankOf(net)[cname] + 1
    {
      hide StackInv, Deps, Pending, Waiting, StackWork, CellHash, RankOf;
      ghost var top := RankOf(net)[cname];
      var stack := [Entry(cname, false)];
      FirstEntry(net, memo, cname);
      while stack != []
        invariant Valid() && StackInv(net, memo, stack, top) && old(memo).Keys <= memo.Keys
        invariant forall e | e in stack :: IsComb(net, e.cell)
        invariant cname in memo || (stack != [] && stack[0].cell == cname)
        invariant cname in old(memo) ==> memo == old(memo) && (stack == [] || stack == [Entry(cname, false)])
        decreases StackWork(net, stack)
      {
        var rest, e := stack[..|stack| - 1], stack[|stack| - 1];
        EntriesOf(net, memo, stack, top);
        assert e in stack && stack == rest + [e];
        PoppedWork(net, stack);
        if e.cell in memo {
          PopKeepsInv(net, memo, stack, top);
          stack := rest;
          continue;
        }
        var pending := Pending(Deps(net, e.cell), memo);
        if pending != [] && !e.ready {
          PushKeepsInv(net, memo, stack, top);
          ExpandedWork(net, rest, e.cell, memo);
          stack := rest + [Entry(e.cell, true)] + Waiting(pending);
          continue;
        }
        AllDone(net, memo, stack, top);
        ghost var before := memo;
        Memoize(e.cell);
        MemoKeepsInv(net, before, memo, stack, top);
        PopKeepsInv(net, memo, stack, top);
        stack := rest;
      }
      h := memo[cname];
    }

    /** The hash of a cell whose dependencies are all in the memo. */
    method Memoize(c: string)
      requires Valid() && IsComb(net, c) && forall d | d in Deps(net, c) :: d in memo
      modifies this
      ensures Valid() && memo == old(memo)[c := CellHash(net, labels, c)]
      decreases 2 * RankOf(net)[c], 3
    {
      hide Deps, CellHash, RankOf;
      var ins := HashPorts(c);
      memo := memo[c := Cone(net.cells[c].kind, net.cells[c].params, ins)];
      ConeOfCell(net, labels, c);
    }

    /** The hashed input ports of a cell whose dependencies are all in the memo, which stays as it is. */
    method HashPorts(c: string) returns (ins: seq<PortHash>)
      requires Valid() && IsComb(net, c) && forall d | d in Deps(net, c) :: d in memo
      modifies this
      ensures memo == old(memo) && ins == CellHash(net, labels, c).ins
      decreases 2 * RankOf(net)[c], 2
    {
      ins := [];
      var ports := net.cells[c].ins;
      for p := 0 to |ports|
        invariant memo == old(memo) && |ins| == p
        invariant forall q | 0 <= q < p :: ins[q] == PortHash(ports[q].0, HashBits(net, labels, ports[q].1))
      {
        forall i | 0 <= i < |ports[p].1|
          ensures BitRank(net, ports[p].1[i]) <= 2 * RankOf(net)[c] && DriverKnown(net, memo, ports[p].1[i])
        {
          BitsRankBelow(net, c, p, i);
          assert ports[p].1[i] in AllBits(ports);
        }
        var bs := HashAll(ports[p].1, 2 * RankOf(net)[c]);
        ins := ins + [PortHash(ports[p].0, bs)];
      }
      PortsOfCellHash(net, labels, c, ins);
    }

    method HashAll(bits: seq<NetBit>, ghost bound: nat) returns (hs: seq<BitHash>)
      requires Valid() && forall b | b in bits :: BitRank(net, b) <= bound
      modifies this
      ensures Valid() && hs == HashBits(net, labels, bits) && old(memo).Keys <= memo.Keys
      ensures (forall b | b in bits :: DriverKnown(net, old(memo), b)) ==> memo == old(memo)
      decreases bound, 1
    {
      hs := [];
      for i := 0 to |bits|
        invariant Valid() && hs == HashBits(net, labels, bits[..i]) && old(memo).Keys <= memo.Keys
        invariant (forall b | b in bits :: DriverKnown(net, old(memo), b)) ==> memo == old(memo)
      {
        assert bits[i] in bits;
        var h := HashOfBit(bits[i]);
        hs := hs + [h];
      }
      assert bits[..|bits|] == bits;
    }

    method HashOfBit(b: NetBit) returns (h: BitHash)
      requires Valid()
      modifies this
      ensures Valid() && h == HashBit(net, labels, b) && old(memo).Keys <= memo.Keys
      ensures DriverKnown(net, old(memo), b) ==> memo == old(memo)
      decreases BitRank(net, b), 0
    {
      if b.Const? { return HConst(b.text); }
      if b.id !in net.driver { return HUndriven; }
      var d := net.driver[b.id];
      if d.Input? { return HInput(d.port, d.index); }
      if IsState(net.cells[d.cell]) { return HLeaf(LeafOf(net, labels, d.cell), d.port, d.index); }
      var cone := HashOfCell(d.cell);
      return HCell(cone, d.port, d.index);
    }

    /** The hash of every sink under the current labels. */
    method Hashes() returns (sinks: map<Sink, SinkHash>)
      requires Valid()
      modifies this
      ensures Valid()
      ensures forall sink, bits | IsSink(net, sink, bits) ::
        sink in sinks && sinks[sink] == SinkHashOf(net, labels, sink, bits)
      ensures forall sink | sink in sinks :: exists bits :: IsSink(net, sink, bits)
    {
      sinks := map[];
      for x := 0 to |net.order|
        invariant Valid() && SoundSinks(net, labels, sinks)
        invariant forall y, port, bits | 0 <= y < x && IsSink(net, StateInput(net.order[y], port), bits) ::
          StateInput(net.order[y], port) in sinks
      {
        assert net.order[x] in net.order;
        if IsState(net.cells[net.order[x]]) {
          sinks := AddStateInputs(net.order[x], sinks);
        }
      }
      sinks := AddOutputs(sinks);
      forall sink, bits | IsSink(net, sink, bits)
        ensures sink in sinks && sinks[sink] == SinkHashOf(net, labels, sink, bits)
      {
        if sink.StateInput? {
          assert sink.cell in net.order;
          assert StateInput(sink.cell, sink.port) == sink;
        }
        SinkIsUnique(net, labels, sinks, sink, bits);
      }
    }

    method AddStateInputs(c: string, sinks: map<Sink, SinkHash>) returns (sinks': map<Sink, SinkHash>)
      requires Valid() && c in net.cells && IsState(net.cells[c]) && SoundSinks(net, labels, sinks)
      modifies this
      ensures Valid() && SoundSinks(net, labels, sinks') && sinks.Keys <= sinks'.Keys
      ensures forall port, bits | IsSink(net, StateInput(c, port), bits) :: StateInput(c, port) in sinks'
    {
      sinks' := sinks;
      var ins := net.cells[c].ins;
      for p := 0 to |ins|
        invariant Valid() && SoundSinks(net, labels, sinks') && sinks.Keys <= sinks'.Keys
        invariant forall q | 0 <= q < p :: StateInput(c, ins[q].0) in sinks'
      {
        var hs := HashAll(ins[p].1, HighestRank(net, ins[p].1));
        assert ins[p] in ins && IsSink(net, StateInput(c, ins[p].0), ins[p].1);
        SoundUpdate(net, labels, sinks', StateInput(c, ins[p].0), ins[p].1);
        sinks' := sinks'[StateInput(c, ins[p].0) := StateHash(net.cells[c].params, hs)];
      }
    }

    method AddOutputs(sinks: map<Sink, SinkHash>) returns (sinks': map<Sink, SinkHash>)
      requires Valid() && SoundSinks(net, labels, sinks)
      modifies this
      ensures Valid() && SoundSinks(net, labels, sinks') && sinks.Keys <= sinks'.Keys
      ensures forall port, bits | IsSink(net, ModuleOutput(port), bits) :: ModuleOutput(port) in sinks'
    {
      sinks' := sinks;
      for p := 0 to |net.outputs|
        invariant Valid() && SoundSinks(net, labels, sinks') && sinks.Keys <= sinks'.Keys
        invariant forall q | 0 <= q < p :: ModuleOutput(net.outputs[q].0) in sinks'
      {
        var port, bits := net.outputs[p].0, net.outputs[p].1;
        var hs := HashAll(bits, HighestRank(net, bits));
        assert net.outputs[p] in net.outputs && IsSink(net, ModuleOutput(port), bits);
        SoundUpdate(net, labels, sinks', ModuleOutput(port), bits);
        sinks' := sinks'[ModuleOutput(port) := OutputHash(hs)];
      }
    }
  }

  ghost predicate SoundSinks(net: Netlist, labels: Labels, sinks: map<Sink, SinkHash>)
    requires Acyclic(net)
  {
    forall sink | sink in sinks :: exists bits | IsSink(net, sink, bits) ::
      sinks[sink] == SinkHashOf(net, labels, sink, bits)
  }

  lemma SoundUpdate(net: Netlist, labels: Labels, sinks: map<Sink, SinkHash>, sink: Sink, bits: seq<NetBit>)
    requires Acyclic(net) && SoundSinks(net, labels, sinks) && IsSink(net, sink, bits)
    ensures SoundSinks(net, labels, sinks[sink := SinkHashOf(net, labels, sink, bits)])
  {
    hide IsSink, SinkHashOf;
  }

  /** A sink has one list of driving bits, so a sound entry is its hash. */
  lemma SinkIsUnique(net: Netlist, labels: Labels, sinks: map<Sink, SinkHash>, sink: Sink, bits: seq<NetBit>)
    requires Acyclic(net) && SoundSinks(net, labels, sinks) && sink in sinks && IsSink(net, sink, bits)
    ensures sinks[sink] == SinkHashOf(net, labels, sink, bits)
  {
    var bits' :| IsSink(net, sink, bits') && sinks[sink] == SinkHashOf(net, labels, sink, bits');
    var ports := if sink.StateInput? then net.cells[sink.cell].ins else net.outputs;
    SamePort(ports, sink.port, bits, bits');
  }

  lemma SamePort(ports: seq<(string, seq<NetBit>)>, port: string, bits: seq<NetBit>, bits': seq<NetBit>)
    requires DistinctPorts(ports) && (port, bits) in ports && (port, bits') in ports
    ensures bits == bits'
  {
    var i :| 0 <= i < |ports| && ports[i] == (port, bits);
    var j :| 0 <= j < |ports| && ports[j] == (port, bits');
    assert ports[i].0 == ports[j].0;
  }

  lemma ConeOfCell(net: Netlist, labels: Labels, c: string)
    requires Acyclic(net) && IsComb(net, c)
    ensures CellHash(net, labels, c)
         == Cone(net.cells[c].kind, net.cells[c].params, CellHash(net, labels, c).ins)
  {
  }

  lemma PortsOfCellHash(net: Netlist, labels: Labels, c: string, ins: seq<PortHash>)
    requires Acyclic(net) && IsComb(net, c) && |ins| == |net.cells[c].ins|
    requires forall q | 0 <= q < |ins| ::
      ins[q] == PortHash(net.cells[c].ins[q].0, HashBits(net, labels, net.cells[c].ins[q].1))
    ensures ins == CellHash(net, labels, c).ins
  {
    var ports, hashed := net.cells[c].ins, CellHash(net, labels, c).ins;
    forall q | 0 <= q < |ins| ensures ins[q] == hashed[q] {
      assert hashed[q].bits == HashBits(net, labels, ports[q].1);
    }
  }

  // ------------------------------------------------------------ what equal hashes mean

  /**
   An interpretation: the values of constants, inputs and the outputs of state elements, those with a label by
   their label, the others by kind and width; and the function of each kind of gate.
   */
  datatype Meaning<!V> = Meaning(const_: string -> V, undriven: V, input: (string, nat) -> V,
                                 named: (string, string, nat) -> V, unnamed: (string, nat, string, nat) -> V,
                                 gate: (string, seq<(string, string)>, seq<(string, seq<V>)>, string, nat) -> V)

  /** The value of a bit of the netlist, through its combinational cone. */
  ghost function Value<V>(net: Netlist, labels: Labels, mean: Meaning<V>, b: NetBit): V
    requires Acyclic(net)
    decreases BitRank(net, b)
  {
    match b
    case Const(text) => mean.const_(text)
    case Net(id) =>
      if id !in net.driver then mean.undriven
      else
        match net.driver[id]
        case Input(port, index) => mean.input(port, index)
        case Output(d, port, index) =>
          var cell := net.cells[d];
          if cell.kind in SEQ || !(['$'] <= cell.kind) then
            if d in labels && labels[d].Some? then mean.named(labels[d].value, port, index)
            else mean.unnamed(cell.kind, cell.width, port, index)
          else mean.gate(cell.kind, cell.params, InputValues(net, labels, mean, d), port, index)
  }

  ghost function InputValues<V>(net: Netlist, labels: Labels, mean: Meaning<V>, c: string): seq<(string, seq<V>)>
    requires Acyclic(net) && IsComb(net, c)
    decreases 2 * RankOf(net)[c] + 1
  {
    var ins := net.cells[c].ins;
    seq(|ins|, p requires 0 <= p < |ins| =>
      (ins[p].0,
       seq(|ins[p].1|, i requires 0 <= i < |ins[p].1| =>
         BitsRankBelow(net, c, p, i);
         Value(net, labels, mean, ins[p].1[i]))))
  }

  /** The value a hash stands for. */
  ghost function HashValue<V>(mean: Meaning<V>, h: BitHash): V
    decreases h
  {
    match h
    case HConst(text) => mean.const_(text)
    case HUndriven => mean.undriven
    case HInput(port, index) => mean.input(port, index)
    case HLeaf(Named(name), port, index) => mean.named(name, port, index)
    case HLeaf(Anonymous(kind, width), port, index) => mean.unnamed(kind, width, port, index)
    case HCell(cone, port, index) =>
      mean.gate(cone.kind, cone.params, ConeValues(mean, cone), port, index)
  }

  ghost function ConeValues<V>(mean: Meaning<V>, cone: Hash): seq<(string, seq<V>)>
    decreases cone
  {
    seq(|cone.ins|, p requires 0 <= p < |cone.ins| =>
      (cone.ins[p].port,
       seq(|cone.ins[p].bits|, i requires 0 <= i < |cone.ins[p].bits| => HashValue(mean, cone.ins[p].bits[i]))))
  }

  /** Hashing preserves meaning: a bit has the value its hash stands for. */
  lemma {:induction false} HashKeepsValue<V>(net: Netlist, labels: Labels, mean: Meaning<V>, b: NetBit)
    requires Acyclic(net)
    ensures Value(net, labels, mean, b) == HashValue(mean, HashBit(net, labels, b))
    decreases BitRank(net, b)
  {
    if CombDriver(net, b).Some? {
      var c := CombDriver(net, b).value;
      ConeKeepsValues(net, labels, mean, c);
    }
  }

  lemma {:induction false} ConeKeepsValues<V>(net: Netlist, labels: Labels, mean: Meaning<V>, c: string)
    requires Acyclic(net) && IsComb(net, c)
    ensures InputValues(net, labels, mean, c) == ConeValues(mean, CellHash(net, labels, c))
    decreases 2 * RankOf(net)[c] + 1
  {
    var ins, cone := net.cells[c].ins, CellHash(net, labels, c);
    var vs, ws := InputValues(net, labels, mean, c), ConeValues(mean, cone);
    forall p | 0 <= p < |ins| ensures vs[p] == ws[p] {
      forall i | 0 <= i < |ins[p].1| ensures vs[p].1[i] == ws[p].1[i] {
        BitsRankBelow(net, c, p, i);
        HashKeepsValue(net, labels, mean, ins[p].1[i]);
      }
      assert vs[p].1 == ws[p].1;
    }
  }

  /**
   Two sinks with equal hashes, in one netlist or in two, compute the same function: under every
   interpretation of leaves, inputs and gates their bits have equal values.
   */
  lemma EqualHashesComputeAlike<V>(base: Netlist, labels: Labels, mut: Netlist, labels': Labels, mean: Meaning<V>,
                                   sink: Sink, bits: seq<NetBit>, sink': Sink, bits': seq<NetBit>)
    requires Acyclic(base) && Acyclic(mut) && IsSink(base, sink, bits) && IsSink(mut, sink', bits')
    requires SinkHashOf(base, labels, sink, bits) == SinkHashOf(mut, labels', sink', bits')
    ensures |bits| == |bits'| && (sink.StateInput? <==> sink'.StateInput?)
    ensures sink.StateInput? ==> base.cells[sink.cell].params == mut.cells[sink'.cell].params
    ensures forall i | 0 <= i < |bits| :: Value(base, labels, mean, bits[i]) == Value(mut, labels', mean, bits'[i])
  {
    var hs, hs' := HashBits(base, labels, bits), HashBits(mut, labels', bits');
    assert hs == hs';
    forall i | 0 <= i < |bits| ensures Value(base, labels, mean, bits[i]) == Value(mut, labels', mean, bits'[i]) {
      HashKeepsValue(base, labels, mean, bits[i]);
      HashKeepsValue(mut, labels', mean, bits'[i]);
      assert hs[i] == HashBit(base, labels, bits[i]) && hs'[i] == HashBit(mut, labels', bits'[i]);
    }
  }

  /** A bit is output index of a port of a state element. */
  ghost predicate OfState(net: Netlist, b: NetBit, c: string, port: string, index: nat) {
    && b.Net? && b.id in net.driver && net.driver[b.id] == Output(c, port, index) && c in net.cells
    && (net.cells[c].kind in SEQ || !(['$'] <= net.cells[c].kind))
  }

  /** The label of a state element, if it has one. */
  function LabelOf(labels: Labels, c: string): Option<string> {
    if c in labels then labels[c] else None
  }

  /**
   Labels decide: outputs of two state elements hash alike if and only if their ports and indices are equal and
   either both have the same label, or neither has one and they agree in kind and width.
   */
  lemma StateBitsByLabel(base: Netlist, labels: Labels, b: NetBit, c: string, port: string, index: nat,
                         mut: Netlist, labels': Labels, b': NetBit, c': string, port': string, index': nat)
    requires Acyclic(base) && Acyclic(mut) && OfState(base, b, c, port, index) && OfState(mut, b', c', port', index')
    ensures HashBit(base, labels, b) == HashBit(mut, labels', b') <==>
      && port == port' && index == index' && LabelOf(labels, c) == LabelOf(labels', c')
      && (LabelOf(labels, c).None? ==>
            base.cells[c].kind == mut.cells[c'].kind && base.cells[c].width == mut.cells[c'].width)
  {
  }

  /** No other bit hashes like the output of a state element. */
  lemma StateBitsAreLeaves(net: Netlist, labels: Labels, b: NetBit)
    requires Acyclic(net)
    ensures HashBit(net, labels, b).HLeaf? <==> exists c, port, index :: OfState(net, b, c, port, index)
  {
    if HashBit(net, labels, b).HLeaf? {
      var driver := net.driver[b.id];
      assert OfState(net, b, driver.cell, driver.port, driver.index);
    }
  }

  /** The free interpretation: every gate builds the tree of its inputs. */
  function Free(): Meaning<BitHash> {
    Meaning(text => HConst(text), HUndriven, (port, index) => HInput(port, index),
            (name, port, index) => HLeaf(Named(name), port, index),
            (kind, width, port, index) => HLeaf(Anonymous(kind, width), port, index),
            (kind, params, ins: seq<(string, seq<BitHash>)>, port, index) =>
              HCell(Cone(kind, params, seq(|ins|, p requires 0 <= p < |ins| => PortHash(ins[p].0, ins[p].1))), port, index))
  }

  lemma {:induction false} FreeValue(h: BitHash)
    ensures HashValue(Free(), h) == h
    decreases h
  {
    if h.HCell? {
      var cone, vs := h.cone, ConeValues(Free(), h.cone);
      forall p | 0 <= p < |cone.ins| ensures vs[p] == (cone.ins[p].port, cone.ins[p].bits) {
        forall i | 0 <= i < |cone.ins[p].bits| ensures vs[p].1[i] == cone.ins[p].bits[i] {
          FreeValue(cone.ins[p].bits[i]);
        }
        assert vs[p].1 == cone.ins[p].bits;
      }
      assert seq(|vs|, p requires 0 <= p < |vs| => PortHash(vs[p].0, vs[p].1)) == cone.ins;
    }
  }

  /** Conversely, bits with different hashes are told apart by some interpretation of the gates. */
  lemma DifferentHashesDiffer(base: Netlist, labels: Labels, mut: Netlist, labels': Labels, b: NetBit, b': NetBit)
    requires Acyclic(base) && Acyclic(mut) && HashBit(base, labels, b) != HashBit(mut, labels', b')
    ensures exists mean: Meaning<BitHash> :: Value(base, labels, mean, b) != Value(mut, labels', mean, b')
  {
    HashKeepsValue(base, labels, Free(), b);
    HashKeepsValue(mut, labels', Free(), b');
    FreeValue(HashBit(base, labels, b));
    FreeValue(HashBit(mut, labels', b'));
    assert Value(base, labels, Free(), b) != Value(mut, labels', Free(), b');
  }
}
