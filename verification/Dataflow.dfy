/** The register-provenance walk of the interrupt dispatch audit: a path-sensitive worklist over
    the instructions of one x86 function that says where each indirect call or jump can go. */
module Dataflow {
  import opened Machine

  datatype Reg = RAX | RBX | RCX | RDX | RSI | RDI | RBP | RSP | R8 | R9 | R10 | R11 | R12 | R13 | R14 | R15

  /** Registers a C call may change, and the stack pointer. */
  const CALL_WRITES: set<Reg> := {RAX, RCX, RDX, RSI, RDI, R8, R9, R10, R11, RSP}

  datatype Kind = CallEdge | JmpEdge

  /** An instruction by what it does.  A write set of None means unknown effects. */
  datatype Op =
    | MovAbs(reg: Reg, imm: Option<int>)
    | Indirect(kind: Kind, reg: Reg)
    | IndexedJump
    | Branch(target: int, always: bool, writes: Option<set<Reg>>)
    | Stop(writes: Option<set<Reg>>)
    | Other(writes: Option<set<Reg>>)

  datatype Instr = Instr(addr: int, op: Op)

  type Symbols = map<int, string>

  datatype Detail = Tracked(addr: int) | Untracked | LimitExceeded

  datatype Edge = Edge(kind: Kind, target: Option<string>, detail: Detail)

  /** What the walk knows at a point: the immediates it has seen loaded and not overwritten. */
  type Known = map<Reg, Option<int>>

  /** A state of the walk: an instruction index and what is known on reaching it. */
  datatype Node = Node(index: int, known: Known)

  const LIMIT: nat := 20000

  function Resolve(symbols: Symbols, addr: int): Option<string> {
    if addr in symbols then Some(symbols[addr]) else None
  }

  /** The instruction at index i is the last one at the address. */
  predicate LastAt(prog: seq<Instr>, addr: int, i: int) {
    0 <= i < |prog| && prog[i].addr == addr && forall j :: i < j < |prog| ==> prog[j].addr != addr
  }

  /** The index of the (last) instruction at an address. */
  function ByAddr(prog: seq<Instr>, addr: int): (r: Option<int>)
    ensures r.Some? ==> LastAt(prog, addr, r.value)
    ensures r.None? ==> forall i :: 0 <= i < |prog| ==> prog[i].addr != addr
  {
    if prog == [] then None
    else if prog[|prog| - 1].addr == addr then Some(|prog| - 1)
    else ByAddr(prog[..|prog| - 1], addr)
  }

  // ----- One step of the walk -----

  function Forget(known: Known, writes: Option<set<Reg>>): Known {
    match writes
    case None => map[]
    case Some(ws) => known - ws
  }

  /** What is known after the instruction. */
  function After(op: Op, known: Known): Known {
    match op
    case MovAbs(r, imm) => known[r := imm]
    case Indirect(_, _) => known - CALL_WRITES
    case Branch(_, _, ws) => Forget(known, ws)
    case Other(ws) => Forget(known, ws)
    case Stop(ws) => Forget(known, ws)
    case IndexedJump => known
  }

  /** The states the walk goes on to, in the order it puts them on the stack. */
  function Successors(prog: seq<Instr>, n: Node): seq<Node>
    requires 0 <= n.index < |prog|
  {
    var op := prog[n.index].op;
    var known := After(op, n.known);
    var next := [Node(n.index + 1, known)];
    match op
    case Indirect(JmpEdge, _) => []
    case Stop(_) => []
    case Branch(target, always, _) =>
      (match ByAddr(prog, target)
       case Some(j) => [Node(j, known)]
       case None => [])
      + (if always then [] else next)
    case _ => next
  }

  /** The edge recorded at a state. */
  function EdgeAt(prog: seq<Instr>, symbols: Symbols, n: Node): Option<Edge>
    requires 0 <= n.index < |prog|
  {
    match prog[n.index].op
    case Indirect(kind, r) =>
      if r in n.known && n.known[r].Some?
      then Some(Edge(kind, Resolve(symbols, n.known[r].value), Tracked(n.known[r].value)))
      else Some(Edge(kind, None, Untracked))
    case _ => None
  }

  // ----- Reachable states -----

  const START := Node(0, map[])

  /** The walk goes from a state to one of its successors. */
  ghost predicate Follows(prog: seq<Instr>, n: Node, m: Node) {
    0 <= n.index < |prog| && m in Successors(prog, n)
  }

  ghost predicate Linked(prog: seq<Instr>, path: seq<Node>, i: int) {
    0 <= i < |path| - 1 && Follows(prog, path[i], path[i + 1])
  }

  /** A path of the walk from the entry. */
  ghost predicate IsPath(prog: seq<Instr>, path: seq<Node>) {
    && path != [] && path[0] == START
    && forall i :: 0 <= i < |path| - 1 ==> Linked(prog, path, i)
  }

  ghost predicate Reachable(prog: seq<Instr>, n: Node) {
    exists path :: IsPath(prog, path) && path[|path| - 1] == n
  }

  lemma StartReachable(prog: seq<Instr>)
    ensures Reachable(prog, START)
  {
    assert IsPath(prog, [START]) && [START][|[START]| - 1] == START;
  }

  lemma SuccessorReachable(prog: seq<Instr>, n: Node, n': Node)
    requires Reachable(prog, n) && Follows(prog, n, n')
    ensures Reachable(prog, n')
  {
    var path :| IsPath(prog, path) && path[|path| - 1] == n;
    var longer := path + [n'];
    forall i | 0 <= i < |longer| - 1
      ensures Linked(prog, longer, i)
    {
      if i < |path| - 1 { assert Linked(prog, path, i); }
    }
    assert IsPath(prog, longer) && longer[|longer| - 1] == n';
  }

  /** A set of states is closed: it holds the entry and all in-range successors. */
  ghost predicate Closed(prog: seq<Instr>, states: set<Node>) {
    && START in states
    && (forall n, m :: n in states && Follows(prog, n, m) && m.index < |prog| ==> m in states)
  }

  lemma {:induction false} ClosedHoldsPath(prog: seq<Instr>, states: set<Node>, path: seq<Node>, i: nat)
    requires Closed(prog, states) && IsPath(prog, path) && i < |path| && path[i].index < |prog|
    ensures path[i] in states
  {
    if i > 0 {
      assert Linked(prog, path, i - 1);
      ClosedHoldsPath(prog, states, path, i - 1);
    }
  }

  /** The result lists exactly the edges of the reachable states, each once. */
  ghost predicate Exact(prog: seq<Instr>, symbols: Symbols, result: seq<Edge>) {
    && (forall n :: Reachable(prog, n) && 0 <= n.index < |prog| && EdgeAt(prog, symbols, n).Some? ==>
                      EdgeAt(prog, symbols, n).value in result)
    && (forall e :: e in result ==> FromState(prog, symbols, e))
    && (forall i, j :: 0 <= i < j < |result| ==> result[i] != result[j])
  }

  ghost predicate FromState(prog: seq<Instr>, symbols: Symbols, e: Edge) {
    exists n :: Reachable(prog, n) && 0 <= n.index < |prog| && EdgeAt(prog, symbols, n) == Some(e)
  }

  /** More states are reachable inside the function than the walk is willing to visit. */
  ghost predicate TooMany(prog: seq<Instr>) {
    exists states: set<Node> :: |states| > 20_000 && AllVisitable(prog, states)
  }

  ghost predicate AllVisitable(prog: seq<Instr>, states: set<Node>) {
    forall n :: n in states ==> 0 <= n.index < |prog| && Reachable(prog, n)
  }

  // ----- The walk -----

  ghost predicate Frontier(prog: seq<Instr>, seen: set<Node>, pending: seq<Node>) {
    && (forall n :: n in pending ==> n.index >= 0 && Reachable(prog, n))
    && (forall n :: n in seen ==> 0 <= n.index < |prog| && Reachable(prog, n))
    && (START in seen || START in pending)
    && (forall n, m :: n in seen && Follows(prog, n, m) && m.index < |prog| ==> m in seen || m in pending)
  }

  ghost predicate Recorded(prog: seq<Instr>, symbols: Symbols, seen: set<Node>, result: seq<Edge>) {
    && (forall n :: n in seen ==> 0 <= n.index < |prog|)
    && (forall n :: n in seen && EdgeAt(prog, symbols, n).Some? ==> EdgeAt(prog, symbols, n).value in result)
    && (forall e :: e in result ==> FromState(prog, symbols, e))
    && (forall i, j :: 0 <= i < j < |result| ==> result[i] != result[j])
  }

  /** Popping a state that is out of range or has been seen loses nothing. */
  lemma Skip(prog: seq<Instr>, seen: set<Node>, pending: seq<Node>, n: Node)
    requires prog != [] && Frontier(prog, seen, pending + [n]) && (n.index >= |prog| || n in seen)
    ensures Frontier(prog, seen, pending)
  {
    assert forall m :: m in pending ==> m in pending + [n];
    assert forall m :: m in pending + [n] ==> m in pending || m == n;
  }

  /** Popping a new state and pushing its successors keeps the frontier. */
  lemma Visit(prog: seq<Instr>, seen: set<Node>, pending: seq<Node>, n: Node)
    requires Frontier(prog, seen, pending + [n]) && n.index < |prog|
    ensures 0 <= n.index && Reachable(prog, n)
    ensures Frontier(prog, seen + {n}, pending + Successors(prog, n))
  {
    assert n in pending + [n];
    forall m | m in pending + Successors(prog, n) ensures m.index >= 0 && Reachable(prog, m) {
      if m in pending {
        assert m in pending + [n];
      } else {
        assert Follows(prog, n, m);
        SuccessorReachable(prog, n, m);
      }
    }
    forall k, m | k in seen + {n} && Follows(prog, k, m) && m.index < |prog|
      ensures m in seen + {n} || m in pending + Successors(prog, n)
    {
      if k in seen && m !in seen { assert m in pending + [n]; }
    }
  }

  lemma Record(prog: seq<Instr>, symbols: Symbols, seen: set<Node>, result: seq<Edge>, n: Node)
    requires Recorded(prog, symbols, seen, result) && 0 <= n.index < |prog| && Reachable(prog, n)
    ensures var edge := EdgeAt(prog, symbols, n);
            Recorded(prog, symbols, seen + {n},
                     if edge.Some? && edge.value !in result then result + [edge.value] else result)
  {
    var edge := EdgeAt(prog, symbols, n);
    if edge.Some? {
      assert FromState(prog, symbols, edge.value);
    }
  }

  /** `_x86_indirect_edges`. */
  method IndirectEdges(prog: seq<Instr>, symbols: Symbols) returns (result: seq<Edge>)
    ensures result == [Edge(JmpEdge, None, LimitExceeded)] <==> TooMany(prog)
    ensures !TooMany(prog) ==> Exact(prog, symbols, result)
  {
    if prog == [] {
      NoProgram(prog, symbols);
      return [];
    }
    var pending := [START];
    var seen: set<Node> := {};
    result := [];
    StartReachable(prog);
    while pending != []
      invariant Frontier(prog, seen, pending)
      invariant Recorded(prog, symbols, seen, result)
      invariant |seen| <= LIMIT
      decreases LIMIT + 1 - |seen|, |pending|
    {
      var n := pending[|pending| - 1];
      assert pending == pending[..|pending| - 1] + [n];
      pending := pending[..|pending| - 1];
      if n.index >= |prog| || n in seen {
        Skip(prog, seen, pending, n);
        continue;
      }
      Visit(prog, seen, pending, n);
      Record(prog, symbols, seen, result, n);
      seen := seen + {n};
      if |seen| > LIMIT {
        LimitReached(prog, seen);
        return [Edge(JmpEdge, None, LimitExceeded)];
      }
      var edge := EdgeAt(prog, symbols, n);
      if edge.Some? && edge.value !in result {
        result := result + [edge.value];
      }
      pending := pending + Successors(prog, n);
    }
    WalkComplete(prog, symbols, seen, result);
    NotTooMany(prog, seen);
  }

  lemma LimitReached(prog: seq<Instr>, seen: set<Node>)
    requires |seen| > LIMIT && AllVisitable(prog, seen)
    ensures TooMany(prog)
  {
  }

  lemma NoProgram(prog: seq<Instr>, symbols: Symbols)
    requires prog == []
    ensures Exact(prog, symbols, []) && !TooMany(prog)
  {
    forall states: set<Node> | AllVisitable(prog, states) ensures |states| <= LIMIT {
      assert forall n :: n !in states;
      assert states == {};
    }
  }

  /** A closed set of states holds every reachable one, so no larger set is reachable. */
  lemma NotTooMany(prog: seq<Instr>, seen: set<Node>)
    requires Closed(prog, seen) && |seen| <= LIMIT
    ensures !TooMany(prog)
  {
    forall states: set<Node> | AllVisitable(prog, states)
      ensures |states| <= LIMIT
    {
      forall n | n in states ensures n in seen {
        var path :| IsPath(prog, path) && path[|path| - 1] == n;
        ClosedHoldsPath(prog, seen, path, |path| - 1);
      }
      SubsetSize(states, seen);
    }
  }

  lemma {:induction false} SubsetSize(a: set<Node>, b: set<Node>)
    requires a <= b
    ensures |a| <= |b|
    decreases a
  {
    if a != {} {
      var n :| n in a;
      SubsetSize(a - {n}, b - {n});
    }
  }

  lemma NeverTheLimit(prog: seq<Instr>, symbols: Symbols, e: Edge)
    requires FromState(prog, symbols, e)
    ensures !e.detail.LimitExceeded?
  {
  }

  lemma WalkComplete(prog: seq<Instr>, symbols: Symbols, seen: set<Node>, result: seq<Edge>)
    requires prog != [] && Frontier(prog, seen, []) && Recorded(prog, symbols, seen, result)
    ensures Exact(prog, symbols, result)
    ensures result != [Edge(JmpEdge, None, LimitExceeded)]
  {
    forall n | Reachable(prog, n) && 0 <= n.index < |prog| && EdgeAt(prog, symbols, n).Some?
      ensures EdgeAt(prog, symbols, n).value in result
    {
      var path :| IsPath(prog, path) && path[|path| - 1] == n;
      ClosedHoldsPath(prog, seen, path, |path| - 1);
    }
    if result != [] {
      assert result[0] in result;
      NeverTheLimit(prog, symbols, result[0]);
    }
  }

  // ----- A concrete machine -----

  /** The registers that a function of the System V ABI gives back as it found them, other than the stack pointer. */
  const CALLEE_SAVED: set<Reg> := {RBX, RBP, R12, R13, R14, R15}

  /** A machine state inside the function: the instruction about to run and the registers. */
  datatype Cpu = Cpu(pc: int, regs: Reg -> int)

  /** Registers outside the write set keep their values; unknown effects promise nothing. */
  ghost predicate Keeps(before: Cpu, after: Cpu, writes: Option<set<Reg>>) {
    writes.Some? ==> forall r :: r !in writes.value ==> after.regs(r) == before.regs(r)
  }

  /** One instruction of the function.  Calls return with the callee-saved registers intact,
      and jumps through a table or a register leave the function. */
  ghost predicate Executes(prog: seq<Instr>, m: Cpu, m': Cpu) {
    && 0 <= m.pc < |prog|
    && match prog[m.pc].op
       case MovAbs(r, imm) =>
         && m'.pc == m.pc + 1 && Keeps(m, m', Some({r}))
         && (imm.Some? ==> m'.regs(r) == imm.value % TWO_64)
       case Indirect(CallEdge, _) =>
         m'.pc == m.pc + 1 && forall r :: r in CALLEE_SAVED ==> m'.regs(r) == m.regs(r)
       case Indirect(JmpEdge, _) => false
       case IndexedJump => false
       case Stop(_) => false
       case Branch(target, always, ws) =>
         Keeps(m, m', ws) && ((!always && m'.pc == m.pc + 1) || LastAt(prog, target, m'.pc))
       case Other(ws) => m'.pc == m.pc + 1 && Keeps(m, m', ws)
  }

  /** A run of the function from its first instruction, with any register contents. */
  ghost predicate IsRun(prog: seq<Instr>, run: seq<Cpu>) {
    && run != [] && run[0].pc == 0
    && forall i :: 0 <= i < |run| - 1 ==> Executes(prog, run[i], run[i + 1])
  }

  /** What the walk knows is true of the machine. */
  ghost predicate Describes(n: Node, m: Cpu) {
    && n.index == m.pc
    && forall r :: r in n.known && n.known[r].Some? ==> m.regs(r) == n.known[r].value % TWO_64
  }

  /** A call may change exactly the other registers. */
  lemma CallWritesOthers(r: Reg)
    ensures r in CALL_WRITES <==> r !in CALLEE_SAVED
  {
  }

  lemma StepDescribed(prog: seq<Instr>, n: Node, m: Cpu, m': Cpu) returns (n': Node)
    requires Describes(n, m) && Executes(prog, m, m')
    ensures n' == Node(m'.pc, After(prog[n.index].op, n.known))
    ensures Follows(prog, n, n') && Describes(n', m')
  {
    forall r ensures r in CALL_WRITES <==> r !in CALLEE_SAVED { CallWritesOthers(r); }
    n' := Node(m'.pc, After(prog[n.index].op, n.known));
    var next := Node(n.index + 1, n'.known);
    if prog[n.index].op.Branch? && n' != next {
      assert n' in [n'];
    }
  }

  /** The walk has the path, instruction by instruction, and what it knows is true. */
  ghost predicate Traces(path: seq<Node>, run: seq<Cpu>) {
    |path| == |run| && forall i :: 0 <= i < |run| ==> Describes(path[i], run[i])
  }

  lemma PathExtended(prog: seq<Instr>, path: seq<Node>, n: Node)
    requires IsPath(prog, path) && Follows(prog, path[|path| - 1], n)
    ensures IsPath(prog, path + [n])
  {
    var longer := path + [n];
    forall i | 0 <= i < |longer| - 1
      ensures Linked(prog, longer, i)
    {
      if i < |path| - 1 { assert Linked(prog, path, i); }
    }
  }

  /** Every run is traced by a path of the walk. */
  lemma {:induction false} PathOfRun(prog: seq<Instr>, run: seq<Cpu>) returns (path: seq<Node>)
    requires IsRun(prog, run)
    ensures IsPath(prog, path) && Traces(path, run)
    decreases |run|
  {
    if |run| == 1 {
      path := [START];
    } else {
      var shorter := run[..|run| - 1];
      forall i | 0 <= i < |shorter| - 1 ensures Executes(prog, shorter[i], shorter[i + 1]) {
        assert Executes(prog, run[i], run[i + 1]);
      }
      var before := PathOfRun(prog, shorter);
      var k := |run| - 2;
      assert Executes(prog, run[k], run[k + 1]) && Describes(before[k], shorter[k]);
      var n := StepDescribed(prog, before[k], run[k], run[k + 1]);
      PathExtended(prog, before, n);
      path := before + [n];
    }
  }

  /** Every state of every run is described by a reachable state of the walk. */
  lemma RunDescribed(prog: seq<Instr>, run: seq<Cpu>, i: nat) returns (n: Node)
    requires IsRun(prog, run) && i < |run|
    ensures Reachable(prog, n) && Describes(n, run[i])
  {
    var path := PathOfRun(prog, run);
    n := path[i];
    var part := path[..i + 1];
    forall j | 0 <= j < |part| - 1 ensures Linked(prog, part, j) { assert Linked(prog, path, j); }
    assert IsPath(prog, part) && part[|part| - 1] == n;
  }

  /** No indexed jump is passed; such a jump leaves the function. */
  ghost predicate StaysInside(prog: seq<Instr>, path: seq<Node>) {
    forall i :: 0 <= i < |path| - 1 && 0 <= path[i].index < |prog| ==> prog[path[i].index].op != IndexedJump
  }

  /** Each step of the walk other than past an indexed jump is one that the machine can take. */
  lemma StepPossible(prog: seq<Instr>, n: Node, m: Cpu, n': Node) returns (m': Cpu)
    requires Describes(n, m) && Follows(prog, n, n') && prog[n.index].op != IndexedJump
    ensures Executes(prog, m, m') && Describes(n', m')
  {
    var op := prog[n.index].op;
    if op.MovAbs? && op.imm.Some? {
      m' := LoadStep(prog, m);
    } else {
      m' := Cpu(n'.index, m.regs);
    }
    var d := StepDescribed(prog, n, m, m');
    assert d == n';
  }

  lemma LoadStep(prog: seq<Instr>, m: Cpu) returns (m': Cpu)
    requires 0 <= m.pc < |prog| && prog[m.pc].op.MovAbs? && prog[m.pc].op.imm.Some?
    ensures Executes(prog, m, m') && m'.pc == m.pc + 1
  {
    var reg, v := prog[m.pc].op.reg, prog[m.pc].op.imm.value % TWO_64;
    m' := Cpu(m.pc + 1, r => if r == reg then v else m.regs(r));
  }

  /** Every path of the walk that passes no indexed jump is the trace of a run: the walk goes nowhere that
      the machine does not go. */
  lemma {:induction false} RunOfPath(prog: seq<Instr>, path: seq<Node>) returns (run: seq<Cpu>)
    requires IsPath(prog, path) && StaysInside(prog, path)
    ensures IsRun(prog, run) && Traces(path, run)
    decreases |path|
  {
    if |path| == 1 {
      run := [Cpu(0, r => 0)];
    } else {
      var shorter, k := path[..|path| - 1], |path| - 2;
      forall i | 0 <= i < |shorter| - 1 ensures Linked(prog, shorter, i) { assert Linked(prog, path, i); }
      assert StaysInside(prog, shorter) by {
        forall i | 0 <= i < |shorter| - 1 && 0 <= shorter[i].index < |prog|
          ensures prog[shorter[i].index].op != IndexedJump
        {
          assert shorter[i] == path[i];
        }
      }
      var before := RunOfPath(prog, shorter);
      assert Linked(prog, path, k) && Describes(shorter[k], before[k]);
      var m := StepPossible(prog, path[k], before[k], path[k + 1]);
      run := before + [m];
      forall i | 0 <= i < |run| - 1 ensures Executes(prog, run[i], run[i + 1]) {
        if i < k { assert Executes(prog, before[i], before[i + 1]); }
      }
    }
  }

  /** Behind an indexed jump the walk goes on with what it knew. */
  lemma IndexedJumpFallsThrough(prog: seq<Instr>, n: Node, n': Node)
    requires 0 <= n.index < |prog| && prog[n.index].op == IndexedJump
    ensures Follows(prog, n, n') <==> n' == Node(n.index + 1, n.known)
  {
  }

  /** Soundness: whenever a run reaches an indirect call or jump, an exact result holds an edge of
      that kind whose target is unknown or the symbol at the address actually in the register. */
  lemma WalkIsSound(prog: seq<Instr>, symbols: Symbols, result: seq<Edge>, run: seq<Cpu>)
    requires Exact(prog, symbols, result) && IsRun(prog, run)
    requires forall a :: a in symbols ==> 0 <= a < TWO_64
    requires var m := run[|run| - 1]; 0 <= m.pc < |prog| && prog[m.pc].op.Indirect?
    ensures var m := run[|run| - 1];
            var op := prog[m.pc].op;
            exists e :: e in result && e.kind == op.kind
                        && (e.target == None || e.target == Resolve(symbols, m.regs(op.reg)))
  {
    var m := run[|run| - 1];
    var n := RunDescribed(prog, run, |run| - 1);
    var e := EdgeAt(prog, symbols, n).value;
    assert e in result;
  }

  // ----- Precision -----

  /** The register writes of an instruction, as the audit reads them off its text. */
  function Writes(op: Op): Option<set<Reg>> {
    match op
    case MovAbs(r, _) => Some({r})
    case Indirect(CallEdge, _) => Some(CALL_WRITES)
    case Indirect(JmpEdge, _) => Some({})
    case IndexedJump => Some({})
    case Stop(ws) => ws
    case Branch(_, _, ws) => ws
    case Other(ws) => ws
  }

  /** The instruction is known not to write the register. */
  predicate Spares(op: Op, reg: Reg) {
    Writes(op).Some? && reg !in Writes(op).value
  }

  /** Some step of some run changes the register. */
  ghost predicate CanChange(prog: seq<Instr>, i: int, reg: Reg) {
    exists m: Cpu, m': Cpu :: Changes(prog, i, reg, m, m')
  }

  ghost predicate Changes(prog: seq<Instr>, i: int, reg: Reg, m: Cpu, m': Cpu) {
    m.pc == i && Executes(prog, m, m') && m'.regs(reg) != m.regs(reg)
  }

  lemma SparedKept(prog: seq<Instr>, m: Cpu, m': Cpu, reg: Reg)
    requires Executes(prog, m, m') && Spares(prog[m.pc].op, reg)
    ensures m'.regs(reg) == m.regs(reg)
  {
    CallWritesOthers(reg);
  }

  /** A step may change nothing but one register that the instruction writes. */
  lemma ChangesOnly(prog: seq<Instr>, p: Cpu, p': Cpu, m: Cpu, m': Cpu, reg: Reg)
    requires Executes(prog, p, p') && !Spares(prog[p.pc].op, reg) && m.pc == p.pc && m'.pc == p'.pc
    requires forall r :: r != reg ==> m'.regs(r) == m.regs(r)
    requires prog[p.pc].op.MovAbs? ==> m'.regs(reg) == p'.regs(reg)
    ensures Executes(prog, m, m')
  {
    CallWritesOthers(reg);
  }

  lemma OthersChange(prog: seq<Instr>, p: Cpu, p': Cpu, reg: Reg)
    requires Executes(prog, p, p') && !Spares(prog[p.pc].op, reg)
    ensures CanChange(prog, p.pc, reg)
  {
    var v := p'.regs(reg);
    var m, m' := Cpu(p.pc, r => v + 1), Cpu(p'.pc, r => if r == reg then v else v + 1);
    ChangesOnly(prog, p, p', m, m', reg);
    IsChange(prog, p.pc, reg, m, m');
  }

  lemma IsChange(prog: seq<Instr>, i: int, reg: Reg, m: Cpu, m': Cpu)
    requires Changes(prog, i, reg, m, m')
    ensures CanChange(prog, i, reg)
  {
  }

  /** An instruction that the machine can execute is known not to write a register if and only if no execution
      of it changes the register; a jump through a register or a table writes none. */
  lemma SparesExactly(prog: seq<Instr>, i: int, reg: Reg)
    requires 0 <= i < |prog|
    ensures (exists m: Cpu, m': Cpu :: m.pc == i && Executes(prog, m, m'))
        ==> (Spares(prog[i].op, reg) <==> !CanChange(prog, i, reg))
    ensures prog[i].op.IndexedJump? || (prog[i].op.Indirect? && prog[i].op.kind == JmpEdge) ==> Spares(prog[i].op, reg)
  {
    if CanChange(prog, i, reg) {
      var m: Cpu, m': Cpu :| Changes(prog, i, reg, m, m');
      if Spares(prog[i].op, reg) { SparedKept(prog, m, m', reg); }
    } else if p: Cpu, p': Cpu :| p.pc == i && Executes(prog, p, p') {
      if !Spares(prog[i].op, reg) { OthersChange(prog, p, p', reg); }
    }
  }

  /** The i-th of the instructions loads the register, and none since is known to write it. */
  ghost predicate Loads(ops: seq<Op>, i: int, reg: Reg, imm: Option<int>) {
    0 <= i < |ops| && ops[i] == MovAbs(reg, imm) && forall j :: i < j < |ops| ==> Spares(ops[j], reg)
  }

  ghost predicate Loaded(ops: seq<Op>, reg: Reg, imm: Option<int>) {
    exists i :: Loads(ops, i, reg, imm)
  }

  lemma LoadedNext(ops: seq<Op>, op: Op, reg: Reg, imm: Option<int>)
    ensures Loaded(ops + [op], reg, imm) <==> op == MovAbs(reg, imm) || (Spares(op, reg) && Loaded(ops, reg, imm))
  {
    var longer := ops + [op];
    if op == MovAbs(reg, imm) { assert Loads(longer, |ops|, reg, imm); }
    if i :| Loads(ops, i, reg, imm) {
      if Spares(op, reg) { assert Loads(longer, i, reg, imm); }
    }
    if i :| Loads(longer, i, reg, imm) {
      if i < |ops| {
        forall j | i < j < |ops| ensures Spares(ops[j], reg) { assert Spares(longer[j], reg); }
        assert Spares(longer[|ops|], reg) && Loads(ops, i, reg, imm);
      }
    }
  }

  /** The instructions at the first k of the indices. */
  ghost function Passed(prog: seq<Instr>, pcs: seq<int>, k: nat): (ops: seq<Op>)
    requires k <= |pcs| && forall j :: 0 <= j < k ==> 0 <= pcs[j] < |prog|
    ensures |ops| == k
  {
    seq(k, j requires 0 <= j < k => prog[pcs[j]].op)
  }

  ghost function Indices(path: seq<Node>): (r: seq<int>)
    ensures |r| == |path| && forall i :: 0 <= i < |path| ==> r[i] == path[i].index
  {
    seq(|path|, i requires 0 <= i < |path| => path[i].index)
  }

  lemma PathInside(prog: seq<Instr>, path: seq<Node>, k: int)
    requires IsPath(prog, path) && k < |path|
    ensures forall j :: 0 <= j < k ==> 0 <= Indices(path)[j] < |prog|
  {
    forall j | 0 <= j < k ensures 0 <= Indices(path)[j] < |prog| { assert Linked(prog, path, j); }
  }

  /** One step takes the known immediates along, but for the registers it may write. */
  lemma StepKnows(prog: seq<Instr>, n: Node, n': Node, reg: Reg, imm: Option<int>)
    requires Follows(prog, n, n')
    ensures var op := prog[n.index].op;
            reg in n'.known && n'.known[reg] == imm
            <==> op == MovAbs(reg, imm) || (Spares(op, reg) && reg in n.known && n.known[reg] == imm)
  {
  }

  /** What the walk knows on a path: a register holds an immediate if and only if the path has loaded it and no
      instruction since may have written the register. */
  lemma {:induction false} KnownExactly(prog: seq<Instr>, path: seq<Node>, k: nat, reg: Reg, imm: Option<int>)
    requires IsPath(prog, path) && k < |path|
    ensures forall j :: 0 <= j < k ==> 0 <= Indices(path)[j] < |prog|
    ensures reg in path[k].known && path[k].known[reg] == imm
        <==> Loaded(Passed(prog, Indices(path), k), reg, imm)
    decreases k
  {
    PathInside(prog, path, k);
    if k > 0 {
      assert Linked(prog, path, k - 1);
      KnownExactly(prog, path, k - 1, reg, imm);
      StepKnows(prog, path[k - 1], path[k], reg, imm);
      var before, op := Passed(prog, Indices(path), k - 1), prog[path[k - 1].index].op;
      LoadedNext(before, op, reg, imm);
      assert Passed(prog, Indices(path), k) == before + [op];
    }
  }

  /** Precision: an indirect transfer through a register that some path of the walk has loaded and not
      overwritten has the edge to the symbol at that address, also where paths join. */
  lemma LoadedTargetFound(prog: seq<Instr>, symbols: Symbols, result: seq<Edge>, path: seq<Node>, addr: int)
    requires Exact(prog, symbols, result) && IsPath(prog, path)
    requires forall j :: 0 <= j < |path| ==> 0 <= Indices(path)[j] < |prog|
    requires var op := prog[Indices(path)[|path| - 1]].op;
             op.Indirect? && Loaded(Passed(prog, Indices(path), |path| - 1), op.reg, Some(addr))
    ensures Edge(prog[Indices(path)[|path| - 1]].op.kind, Resolve(symbols, addr), Tracked(addr)) in result
  {
    var n := path[|path| - 1];
    KnownExactly(prog, path, |path| - 1, prog[n.index].op.reg, Some(addr));
    assert Reachable(prog, n);
    assert EdgeAt(prog, symbols, n).Some?;
  }

  // ----- The edges, by runs of the machine -----

  ghost function Counters(run: seq<Cpu>): (r: seq<int>)
    ensures |r| == |run| && forall i :: 0 <= i < |run| ==> r[i] == run[i].pc
  {
    seq(|run|, i requires 0 <= i < |run| => run[i].pc)
  }

  /** The instructions the run has executed. */
  ghost function Executed(prog: seq<Instr>, run: seq<Cpu>): seq<Op>
    requires IsRun(prog, run)
  {
    RunInside(prog, run);
    Passed(prog, Counters(run), |run| - 1)
  }

  lemma RunInside(prog: seq<Instr>, run: seq<Cpu>)
    requires IsRun(prog, run)
    ensures forall j :: 0 <= j < |run| - 1 ==> 0 <= Counters(run)[j] < |prog|
  {
    forall j | 0 <= j < |run| - 1 ensures 0 <= Counters(run)[j] < |prog| {
      assert Executes(prog, run[j], run[j + 1]);
    }
  }

  /** The run ends at an indirect transfer, and the edge says what its loads say about the target. */
  ghost predicate RunEdge(prog: seq<Instr>, symbols: Symbols, run: seq<Cpu>, e: Edge) {
    && IsRun(prog, run)
    && var pc := run[|run| - 1].pc;
    && 0 <= pc < |prog| && prog[pc].op.Indirect? && e.kind == prog[pc].op.kind
    && match e.detail
       case Tracked(addr) =>
         && Loaded(Executed(prog, run), prog[pc].op.reg, Some(addr))
         && e.target == if addr in symbols then Some(symbols[addr]) else None
       case Untracked =>
         (forall addr :: !Loaded(Executed(prog, run), prog[pc].op.reg, Some(addr))) && e.target == None
       case LimitExceeded => false
  }

  lemma EdgeOfTrace(prog: seq<Instr>, symbols: Symbols, path: seq<Node>, run: seq<Cpu>, e: Edge)
    requires IsPath(prog, path) && IsRun(prog, run) && Traces(path, run)
    ensures RunEdge(prog, symbols, run, e)
        <==> 0 <= path[|path| - 1].index < |prog| && EdgeAt(prog, symbols, path[|path| - 1]) == Some(e)
  {
    var n, k, ops := path[|path| - 1], |path| - 1, Executed(prog, run);
    assert Describes(path[k], run[k]);
    assert Indices(path) == Counters(run) by {
      forall i | 0 <= i < |run| ensures Indices(path)[i] == Counters(run)[i] { assert Describes(path[i], run[i]); }
    }
    if 0 <= n.index < |prog| && prog[n.index].op.Indirect? {
      var reg := prog[n.index].op.reg;
      forall addr
        ensures Loaded(ops, reg, Some(addr)) <==> reg in n.known && n.known[reg] == Some(addr)
      {
        KnownExactly(prog, path, k, reg, Some(addr));
      }
      if reg in n.known && n.known[reg].Some? { assert Loaded(ops, reg, Some(n.known[reg].value)); }
    }
  }

  /** In a function without indexed jumps, the edges are exactly those of the runs of the machine. */
  lemma EdgesOfRuns(prog: seq<Instr>, symbols: Symbols, result: seq<Edge>, e: Edge)
    requires Exact(prog, symbols, result)
    requires forall i :: 0 <= i < |prog| ==> prog[i].op != IndexedJump
    ensures e in result <==> exists run :: RunEdge(prog, symbols, run, e)
  {
    if e in result {
      assert FromState(prog, symbols, e);
      var n :| Reachable(prog, n) && 0 <= n.index < |prog| && EdgeAt(prog, symbols, n) == Some(e);
      var path :| IsPath(prog, path) && path[|path| - 1] == n;
      var run := RunOfPath(prog, path);
      EdgeOfTrace(prog, symbols, path, run, e);
    }
    if run :| RunEdge(prog, symbols, run, e) {
      var path := PathOfRun(prog, run);
      EdgeOfTrace(prog, symbols, path, run, e);
      assert Reachable(prog, path[|path| - 1]);
    }
  }

  // ----- Straight-line survival -----

  /** `_x86_value_survives`: the last setup before the transfer, and no write to the register since. */
  method ValueSurvives(prog: seq<Instr>, setups: set<Op>, reg: Reg, transfer: int) returns (ok: bool)
    ensures ok <==> exists i :: LastSetup(prog, setups, transfer, i) && Untouched(prog, reg, i, transfer)
  {
    ok := false;
    if transfer < 0 || transfer >= |prog| { return; }
    var last := -1;
    for i := 0 to transfer
      invariant -1 <= last < i
      invariant last >= 0 ==> prog[last].op in setups
      invariant forall j :: last < j < i ==> prog[j].op !in setups
    {
      if prog[i].op in setups { last := i; }
    }
    if last < 0 { return; }
    assert LastSetup(prog, setups, transfer, last);
    for i := last + 1 to transfer
      invariant forall j :: last < j < i ==> Spares(prog[j].op, reg)
    {
      if !Spares(prog[i].op, reg) {
        return;
      }
    }
    assert Untouched(prog, reg, last, transfer);
    ok := true;
  }

  ghost predicate LastSetup(prog: seq<Instr>, setups: set<Op>, transfer: int, i: int) {
    && 0 <= i < transfer < |prog| && prog[i].op in setups
    && forall j :: i < j < transfer ==> prog[j].op !in setups
  }

  ghost predicate Untouched(prog: seq<Instr>, reg: Reg, i: int, transfer: int) {
    0 <= i < transfer < |prog| && forall j :: i < j < transfer ==> Spares(prog[j].op, reg)
  }

  /** A run that goes straight from after the setup to the transfer keeps the register. */
  lemma {:induction false} SurvivorUnchanged(prog: seq<Instr>, reg: Reg, i: int, transfer: int, run: seq<Cpu>)
    requires Untouched(prog, reg, i, transfer) && |run| == transfer - i
    requires forall k :: 0 <= k < |run| ==> run[k].pc == i + 1 + k
    requires forall k :: 0 <= k < |run| - 1 ==> Executes(prog, run[k], run[k + 1])
    ensures run[|run| - 1].regs(reg) == run[0].regs(reg)
    decreases |run|
  {
    if |run| > 1 {
      var shorter := run[..|run| - 1];
      assert Spares(prog[transfer - 1].op, reg);
      assert Executes(prog, run[|run| - 2], run[|run| - 2 + 1]);
      forall k | 0 <= k < |shorter| - 1 ensures Executes(prog, shorter[k], shorter[k + 1]) {
        assert Executes(prog, run[k], run[k + 1]);
      }
      SurvivorUnchanged(prog, reg, i, transfer - 1, shorter);
    }
  }
}
