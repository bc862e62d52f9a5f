/** The dominance audit of the boot kernel's main routine: every execution that reaches the first
    user entry has already quarantined the PCI devices. */
module PortAudit {
  import opened Platforms

  /** One disassembled instruction: its first token, whether the operand names a symbol, and the
      absolute target printed at the start of the operand, when there is one. */
  datatype Instruction = Instruction(address: int, opcode: string, symbolic: bool, branch: Option<int>)

  type Body = seq<Instruction>
  type Graph = map<int, set<int>>

  // ---------------------------------------------------------------- the machine

  /** What the listing does not tell: the mnemonics that only ever fall through, and whether the
      processor can wake from a halt. */
  datatype Machine = Machine(straight: set<string>, wakes: bool)

  /** Where control can go after an instruction. */
  datatype Flow = Falls | Goes | Branches | Calls | Leaves | Halts | Anywhere

  const CONDITIONS: set<string> :=
    { "ja", "jae", "jb", "jbe", "jc", "je", "jg", "jge", "jl", "jle", "jna", "jnae", "jnb", "jnbe", "jnc", "jne", "jng",
      "jnge", "jnl", "jnle", "jno", "jnp", "jns", "jnz", "jo", "jp", "jpe", "jpo", "js", "jz", "jcxz", "jecxz", "jrcxz",
      "loop", "loope", "loopne", "loopnz", "loopz" }

  const RETURNS: set<string> :=
    { "ret", "retq", "iret", "iretq", "ud2", "lret", "lretq", "sysexit", "sysret", "sysretq" }

  /** Prefixes that hide the real instruction in the operand, and far transfers. */
  const HIDDEN: set<string> := { "notrack", "bnd", "ljmp", "ljmpq", "lcall", "lcallq" }

  /** Read off the instruction set, not off the audit: calls come back to the next instruction or
      enter the body at their target, `xbegin` falls through or aborts to its target, returns leave
      the body, and what is not known to do less may go anywhere. */
  function FlowOf(machine: Machine, opcode: string): Flow {
    if opcode in HIDDEN then Anywhere
    else if opcode == "jmp" || opcode == "jmpq" then Goes
    else if opcode in CONDITIONS || opcode == "xbegin" then Branches
    else if opcode == "call" || opcode == "callq" then Calls
    else if opcode in RETURNS then Leaves
    else if opcode == "hlt" then Halts
    else if opcode in machine.straight then Falls
    else Anywhere
  }

  /** One step of the machine inside the body; without a printed target a transfer goes anywhere. */
  ghost predicate Step(machine: Machine, body: Body, i: int, j: int) {
    && 0 <= i < |body| && 0 <= j < |body|
    && match FlowOf(machine, body[i].opcode)
       case Falls => j == i + 1
       case Goes => At(body, i, j)
       case Branches => j == i + 1 || At(body, i, j)
       case Calls => j == i + 1 || At(body, i, j)
       case Leaves => false
       case Halts => machine.wakes && j == i + 1
       case Anywhere => true
  }

  /** Instruction j is at the target of instruction i, as far as the listing tells. */
  predicate At(body: Body, i: int, j: int)
    requires 0 <= i < |body| && 0 <= j < |body|
  {
    body[i].branch.None? || body[j].address == body[i].branch.value
  }

  ghost predicate Execution(machine: Machine, body: Body, run: seq<int>) {
    && run != [] && run[0] == 0 && (forall k :: 0 <= k < |run| ==> 0 <= run[k] < |body|)
    && forall k :: 0 <= k < |run| - 1 ==> Step(machine, body, run[k], run[k + 1])
  }

  ghost predicate Distinct(body: Body) {
    forall i, j :: 0 <= i < j < |body| ==> body[i].address != body[j].address
  }

  // ---------------------------------------------------------------- the control-flow graph

  predicate Within(body: Body, address: int) {
    exists i :: 0 <= i < |body| && body[i].address == address
  }

  predicate IsCall(opcode: string) {
    opcode in {"call", "callq"}
  }

  predicate IsJump(opcode: string) {
    opcode in {"jmp", "jmpq"}
  }

  /** The audit's test for conditional control flow is a prefix of the mnemonic. */
  predicate IsConditional(opcode: string) {
    !IsCall(opcode) && !IsJump(opcode) && ("j" <= opcode || "loop" <= opcode)
  }

  predicate IsStop(opcode: string) {
    opcode in {"ret", "retq", "iret", "iretq", "ud2", "hlt"}
  }

  /** The conditions under which the graph construction does not abort at instruction i. */
  predicate Reviewed(body: Body, i: int)
    requires 0 <= i < |body|
  {
    var ins := body[i];
    && (IsCall(ins.opcode) ==> ins.symbolic)
    && (IsJump(ins.opcode) ==> ins.branch.Some?)
    && (IsConditional(ins.opcode) ==> ins.branch.Some? && i + 1 < |body| && Within(body, ins.branch.value))
  }

  function Next(body: Body, i: int): set<int>
    requires 0 <= i < |body|
  {
    if i + 1 < |body| then {body[i + 1].address} else {}
  }

  /** The printed target, when it lies in the body. */
  function Target(body: Body, i: int): set<int>
    requires 0 <= i < |body|
  {
    if body[i].branch.Some? && Within(body, body[i].branch.value) then {body[i].branch.value} else {}
  }

  function Successors(body: Body, i: int): set<int>
    requires 0 <= i < |body| && Reviewed(body, i)
  {
    var opcode := body[i].opcode;
    if IsJump(opcode) then Target(body, i)
    else if IsConditional(opcode) then Next(body, i) + Target(body, i)
    else if IsStop(opcode) then {}
    else Next(body, i)
  }

  /** Every instruction is reviewed and has exactly its own successors in the graph. */
  ghost predicate GraphOf(body: Body, graph: Graph) {
    && (forall a :: a in graph <==> Within(body, a))
    && forall i :: 0 <= i < |body| ==>
         Reviewed(body, i) && (Last(body, i) ==> graph[body[i].address] == Successors(body, i))
  }

  /** No later instruction has the same address. */
  ghost predicate Last(body: Body, i: int)
    requires 0 <= i < |body|
  {
    forall j :: i < j < |body| ==> body[j].address != body[i].address
  }

  lemma LastIndex(body: Body, a: int) returns (i: int)
    requires Within(body, a)
    ensures 0 <= i < |body| && body[i].address == a && Last(body, i)
  {
    i := |body| - 1;
    while body[i].address != a
      invariant 0 <= i < |body| && forall j :: i < j < |body| ==> body[j].address != a
      decreases i
    {
      assert exists k :: 0 <= k < i && body[k].address == a;
      i := i - 1;
    }
  }

  /** A body has at most one graph, even if an address repeats: the last occurrence counts. */
  lemma GraphUnique(body: Body, g: Graph, h: Graph)
    requires GraphOf(body, g) && GraphOf(body, h)
    ensures g == h
  {
    forall a ensures a in g <==> a in h {
      assert a in g <==> Within(body, a);
    }
    forall a | a in g ensures g[a] == h[a] {
      var i := LastIndex(body, a);
      assert g[body[i].address] == Successors(body, i) == h[body[i].address];
    }
    assert g.Keys == h.Keys;
  }

  method SuccessorsAt(body: Body, addresses: set<int>, i: int) returns (out: Option<set<int>>)
    requires 0 <= i < |body| && forall a :: a in addresses <==> Within(body, a)
    ensures out == if Reviewed(body, i) then Some(Successors(body, i)) else None
  {
    var ins := body[i];
    var opcode := ins.opcode;
    var next := if i + 1 < |body| then {body[i + 1].address} else {};
    if opcode == "call" || opcode == "callq" {
      out := if ins.symbolic then Some(next) else None;
    } else if opcode == "jmp" || opcode == "jmpq" {
      if ins.branch.None? { return None; }
      out := Some(if ins.branch.value in addresses then {ins.branch.value} else {});
    } else if "j" <= opcode || "loop" <= opcode {
      if ins.branch.None? || i + 1 == |body| || ins.branch.value !in addresses { return None; }
      out := Some(next + {ins.branch.value});
    } else if opcode in {"ret", "retq", "iret", "iretq", "ud2", "hlt"} {
      out := Some({});
    } else {
      out := Some(next);
    }
  }

  method BuildGraph(body: Body) returns (graph: Option<Graph>)
    ensures graph.Some? <==> forall i :: 0 <= i < |body| ==> Reviewed(body, i)
    ensures graph.Some? ==> GraphOf(body, graph.value)
  {
    hide GraphSoFar, Successors, Reviewed;
    var addresses := set i | 0 <= i < |body| :: body[i].address;
    var g: Graph := map[];
    GraphStarts(body);
    for i := 0 to |body|
      invariant GraphSoFar(body, i, g)
    {
      var out := SuccessorsAt(body, addresses, i);
      if out.None? { return None; }
      GraphNext(body, i, g);
      g := g[body[i].address := out.value];
    }
    GraphEnds(body, g);
    return Some(g);
  }

  /** The graph of the first i instructions. */
  ghost predicate GraphSoFar(body: Body, i: int, graph: Graph)
    requires 0 <= i <= |body|
  {
    && (forall k :: 0 <= k < i ==> Reviewed(body, k))
    && (forall a :: a in graph <==> Within(body[..i], a))
    && forall k :: 0 <= k < i && Last(body[..i], k) ==> graph[body[k].address] == Successors(body, k)
  }

  lemma GraphStarts(body: Body)
    ensures GraphSoFar(body, 0, map[])
  {
  }

  lemma GraphNext(body: Body, i: int, graph: Graph)
    requires 0 <= i < |body| && GraphSoFar(body, i, graph) && Reviewed(body, i)
    ensures GraphSoFar(body, i + 1, graph[body[i].address := Successors(body, i)])
  {
    hide Reviewed, Successors;
    forall k | 0 <= k < i && Last(body[..i + 1], k)
      ensures Last(body[..i], k) && body[k].address != body[i].address
    {
      assert body[..i + 1][i] == body[i] && body[..i + 1][k] == body[k];
      forall j | k < j < i ensures body[..i][j].address != body[..i][k].address {
        assert body[..i + 1][j] == body[j];
      }
    }
    forall a ensures Within(body[..i + 1], a) <==> Within(body[..i], a) || a == body[i].address {
      WithinNext(body, i, a);
    }
  }

  lemma GraphEnds(body: Body, graph: Graph)
    requires GraphSoFar(body, |body|, graph)
    ensures GraphOf(body, graph) && forall i :: 0 <= i < |body| ==> Reviewed(body, i)
  {
    hide Reviewed, Successors;
    assert body[..|body|] == body;
  }

  lemma WithinNext(body: Body, i: int, a: int)
    requires 0 <= i < |body|
    ensures Within(body[..i + 1], a) <==> Within(body[..i], a) || a == body[i].address
  {
    assert body[..i + 1] == body[..i] + [body[i]];
    if Within(body[..i], a) {
      var k :| 0 <= k < i && body[..i][k].address == a;
      assert body[..i + 1][k].address == a;
    }
    assert body[..i + 1][i] == body[i];
  }

  // ---------------------------------------------------------------- reachability

  function Edges(graph: Graph, a: int): set<int> {
    if a in graph then graph[a] else {}
  }

  /** A walk in the graph that never visits `blocked`. */
  ghost predicate Avoiding(graph: Graph, start: int, blocked: Option<int>, path: seq<int>) {
    && path != [] && path[0] == start
    && (forall k :: 0 <= k < |path| - 1 ==> path[k + 1] in Edges(graph, path[k]))
    && (forall k :: 0 <= k < |path| ==> Some(path[k]) != blocked)
  }

  ghost predicate Reaches(graph: Graph, start: int, blocked: Option<int>, a: int) {
    exists path :: Avoiding(graph, start, blocked, path) && path[|path| - 1] == a
  }

  lemma ReachesStep(graph: Graph, start: int, blocked: Option<int>, a: int, b: int)
    requires Reaches(graph, start, blocked, a) && b in Edges(graph, a) && Some(b) != blocked
    ensures Reaches(graph, start, blocked, b)
  {
    var path :| Avoiding(graph, start, blocked, path) && path[|path| - 1] == a;
    assert Avoiding(graph, start, blocked, path + [b]);
  }

  /** A set closed under the allowed edges contains every walk from its members. */
  lemma {:induction false} ClosedContains(graph: Graph, start: int, blocked: Option<int>, closed: set<int>,
                                          path: seq<int>)
    requires start in closed && Avoiding(graph, start, blocked, path)
    requires forall a, b :: a in closed && b in Edges(graph, a) && Some(b) != blocked ==> b in closed
    ensures path[|path| - 1] in closed
  {
    if |path| > 1 {
      ClosedContains(graph, start, blocked, closed, path[..|path| - 1]);
    }
  }

  method Member<T>(s: set<T>) returns (x: T)
    requires |s| > 0
    ensures x in s
  {
    x :| x in s;
  }

  method Listing(s: set<int>) returns (r: seq<int>)
    ensures forall x :: x in r <==> x in s
  {
    r := [];
    var rest := s;
    while |rest| > 0
      invariant rest <= s && forall x :: x in r <==> x in s - rest
      decreases rest
    {
      var x := Member(rest);
      r, rest := r + [x], rest - {x};
    }
  }

  ghost function Nodes(graph: Graph, start: int): set<int> {
    {start} + set a, b | a in graph && b in graph[a] :: b
  }

  /** The worklist computes exactly the nodes reachable without the blocked one. */
  method ReachableAddresses(start: int, graph: Graph, blocked: Option<int>) returns (reached: set<int>)
    ensures forall a :: a in reached <==> Reaches(graph, start, blocked, a)
  {
    reached := {};
    if blocked == Some(start) { return; }
    assert Avoiding(graph, start, blocked, [start]);
    assert Reaches(graph, start, blocked, start);
    var pending := [start];
    ghost var nodes := Nodes(graph, start);
    while pending != []
      invariant reached <= nodes && forall x :: x in pending ==> x in nodes
      invariant start in reached || start in pending
      invariant forall x :: x in reached ==> Reaches(graph, start, blocked, x)
      invariant forall x :: x in pending && Some(x) != blocked ==> Reaches(graph, start, blocked, x)
      invariant forall a, b :: a in reached && b in Edges(graph, a) && Some(b) != blocked ==>
        b in reached || b in pending
      decreases nodes - reached, |pending|
    {
      var address := pending[|pending| - 1];
      ghost var before := pending;
      pending := pending[..|pending| - 1];
      assert forall x :: x in before ==> x == address || x in pending;
      if address in reached || Some(address) == blocked { continue; }
      forall b | b in Edges(graph, address) && Some(b) != blocked ensures Reaches(graph, start, blocked, b) {
        ReachesStep(graph, start, blocked, address, b);
      }
      reached := reached + {address};
      var targets := Listing(Edges(graph, address) - reached);
      pending := pending + targets;
    }
    forall a | Reaches(graph, start, blocked, a) ensures a in reached {
      var path :| Avoiding(graph, start, blocked, path) && path[|path| - 1] == a;
      ClosedContains(graph, start, blocked, reached, path);
    }
  }

  // ---------------------------------------------------------------- the audit

  /** Every walk from the entry to `target` visits `gate`. */
  ghost predicate Dominates(graph: Graph, entry: int, gate: int, target: int) {
    forall path :: Avoiding(graph, entry, None, path) && path[|path| - 1] == target ==> gate in path
  }

  lemma UnreachedIsDominated(graph: Graph, entry: int, gate: int, target: int)
    ensures Dominates(graph, entry, gate, target) <==> !Reaches(graph, entry, Some(gate), target)
  {
    if Reaches(graph, entry, Some(gate), target) {
      var path :| Avoiding(graph, entry, Some(gate), path) && path[|path| - 1] == target;
      assert Avoiding(graph, entry, None, path) && gate !in path;
    } else {
      forall path | Avoiding(graph, entry, None, path) && path[|path| - 1] == target ensures gate in path {
        assert !Avoiding(graph, entry, Some(gate), path);
      }
    }
  }

  ghost predicate ReachableHalt(body: Body, graph: Graph, entry: int, a: int) {
    Reaches(graph, entry, None, a) && exists i :: 0 <= i < |body| && body[i].opcode == "hlt" && body[i].address == a
  }

  ghost predicate OnlyHalt(body: Body, graph: Graph, entry: int, halt: int) {
    forall a :: ReachableHalt(body, graph, entry, a) <==> a == halt
  }

  /** What the audit accepts, stated on walks of the graph. */
  ghost predicate Sound(body: Body, graph: Graph, quarantine: seq<int>, user: seq<int>, terminal: bool) {
    && body != [] && |quarantine| == 1 && |user| == (if terminal then 0 else 1)
    && var entry := body[0].address;
    && Reaches(graph, entry, None, quarantine[0])
    && if terminal then
         exists halt :: OnlyHalt(body, graph, entry, halt) && Dominates(graph, entry, quarantine[0], halt)
       else Reaches(graph, entry, None, user[0]) && Dominates(graph, entry, quarantine[0], user[0])
  }

  method TerminalSound(body: Body, graph: Graph, reached: set<int>, without: set<int>, gate: int) returns (ok: bool)
    requires body != []
    requires forall a :: a in reached <==> Reaches(graph, body[0].address, None, a)
    requires forall a :: a in without <==> Reaches(graph, body[0].address, Some(gate), a)
    ensures ok <==> exists halt ::
      OnlyHalt(body, graph, body[0].address, halt) && Dominates(graph, body[0].address, gate, halt)
  {
    ghost var entry := body[0].address;
    var halts := set i | 0 <= i < |body| && body[i].opcode == "hlt" && body[i].address in reached :: body[i].address;
    assert forall a :: a in halts <==> ReachableHalt(body, graph, entry, a);
    forall halt | OnlyHalt(body, graph, entry, halt) ensures halts == {halt} {
      assert ReachableHalt(body, graph, entry, halt);
    }
    if |halts| != 1 { return false; }
    ok := halts * without == {};
    ghost var halt := Sole(halts);
    UnreachedIsDominated(graph, entry, gate, halt);
    assert OnlyHalt(body, graph, entry, halt);
  }

  lemma Sole<T>(s: set<T>) returns (x: T)
    requires |s| == 1
    ensures s == {x}
  {
    x :| x in s;
    assert |s - {x}| == 0;
  }

  /** The dominance part of the call-graph validation; `quarantine` and `user` are the addresses of
      the two calls in the body, `terminal` selects the image that never enters user mode. */
  method Audit(body: Body, quarantine: seq<int>, user: seq<int>, terminal: bool)
    returns (accepted: bool)
    ensures accepted <==> exists graph :: GraphOf(body, graph) && Sound(body, graph, quarantine, user, terminal)
  {
    accepted := false;
    if |quarantine| != 1 || |user| != (if terminal then 0 else 1) || body == [] { return; }
    var built := BuildGraph(body);
    if built.None? { return; }
    var graph := built.value;
    forall other | GraphOf(body, other) ensures other == graph {
      GraphUnique(body, graph, other);
    }
    var entry := body[0].address;
    var reached := ReachableAddresses(entry, graph, None);
    if quarantine[0] !in reached { return; }
    var without := ReachableAddresses(entry, graph, Some(quarantine[0]));
    if terminal {
      accepted := TerminalSound(body, graph, reached, without, quarantine[0]);
    } else {
      if user[0] !in reached { return; }
      UnreachedIsDominated(graph, entry, quarantine[0], user[0]);
      accepted := user[0] !in without;
    }
  }

  // ---------------------------------------------------------------- what acceptance means

  ghost function AllAddresses(body: Body): set<int> {
    set i | 0 <= i < |body| :: body[i].address
  }

  /** The addresses a step from instruction i can arrive at. */
  ghost function Arrivals(machine: Machine, body: Body, i: int): set<int>
    requires 0 <= i < |body|
  {
    var known := if body[i].branch.None? then AllAddresses(body) else Target(body, i);
    match FlowOf(machine, body[i].opcode)
    case Falls => Next(body, i)
    case Goes => known
    case Branches => Next(body, i) + known
    case Calls => Next(body, i) + known
    case Leaves => {}
    case Halts => if machine.wakes then Next(body, i) else {}
    case Anywhere => AllAddresses(body)
  }

  lemma StepArrives(machine: Machine, body: Body, i: int, j: int)
    requires Step(machine, body, i, j)
    ensures body[j].address in Arrivals(machine, body, i)
  {
    hide FlowOf;
    assert Within(body, body[j].address);
  }

  lemma ArrivalHasStep(machine: Machine, body: Body, i: int, a: int) returns (j: int)
    requires 0 <= i < |body| && a in Arrivals(machine, body, i)
    ensures Step(machine, body, i, j) && body[j].address == a
  {
    hide FlowOf;
    var flow := FlowOf(machine, body[i].opcode);
    if a in Next(body, i) && flow != Goes && flow != Anywhere {
      j := i + 1;
    } else {
      j :| 0 <= j < |body| && body[j].address == a;
    }
  }

  /** Every machine step is an edge. */
  ghost predicate Overapproximates(machine: Machine, body: Body, graph: Graph) {
    forall i, j :: Step(machine, body, i, j) ==> body[j].address in Edges(graph, body[i].address)
  }

  /** The condition, instruction by instruction, on the listing and the graph built from it. */
  ghost predicate Covered(machine: Machine, body: Body, graph: Graph) {
    forall i :: 0 <= i < |body| ==> Arrivals(machine, body, i) <= Edges(graph, body[i].address)
  }

  /** For every body, repeated addresses included: the graph has every step as an edge iff it covers
      where each instruction can arrive. */
  lemma OverapproximatesIffCovered(machine: Machine, body: Body, graph: Graph)
    ensures Overapproximates(machine, body, graph) <==> Covered(machine, body, graph)
  {
    hide Arrivals, FlowOf, Edges;
    if Overapproximates(machine, body, graph) {
      forall i, a | 0 <= i < |body| && a in Arrivals(machine, body, i) ensures a in Edges(graph, body[i].address) {
        var j := ArrivalHasStep(machine, body, i, a);
      }
    }
    if Covered(machine, body, graph) {
      forall i, j | Step(machine, body, i, j) ensures body[j].address in Edges(graph, body[i].address) {
        StepArrives(machine, body, i, j);
      }
    }
  }

  /** The instructions the audit gets right, told from the listing alone: a call must have a printed
      target outside the body (or the next instruction), so must `xbegin`; a halt must not wake or
      must be last; and an instruction of unknown flow passes only if the audit, taking it for a
      conditional branch, happens to list the whole body. */
  predicate Understood(machine: Machine, body: Body, i: int)
    requires 0 <= i < |body|
  {
    var ins := body[i];
    match FlowOf(machine, ins.opcode)
    case Falls => true
    case Goes => true
    case Branches => ins.opcode in CONDITIONS || TargetIsNext(body, i)
    case Calls => TargetIsNext(body, i)
    case Leaves => true
    case Halts => !machine.wakes || i + 1 == |body|
    case Anywhere =>
      && Conditional(ins.opcode) && ins.branch.Some? && i + 1 < |body|
      && forall k :: 0 <= k < |body| ==> body[k].address == body[i + 1].address || body[k].address == ins.branch.value
  }

  /** The transfer, if any, adds nothing to falling through. */
  predicate TargetIsNext(body: Body, i: int)
    requires 0 <= i < |body|
  {
    && body[i].branch.Some?
    && (Within(body, body[i].branch.value) ==> i + 1 < |body| && body[i].branch.value == body[i + 1].address)
  }

  predicate Starts(opcode: string, word: string) {
    |word| <= |opcode| && opcode[..|word|] == word
  }

  /** Begins with `j` or `loop`, the two jumps aside. */
  predicate Conditional(opcode: string) {
    opcode != "jmp" && opcode != "jmpq" && (Starts(opcode, "j") || Starts(opcode, "loop"))
  }

  /** What the audit's string tests make of each flow. */
  lemma FlowTable(machine: Machine, opcode: string)
    ensures
      match FlowOf(machine, opcode)
      case Falls => !IsCall(opcode) && !IsJump(opcode) && !IsStop(opcode)
      case Goes => IsJump(opcode)
      case Branches =>
        !IsCall(opcode) && !IsJump(opcode) && !IsStop(opcode) && (IsConditional(opcode) <==> opcode in CONDITIONS)
      case Calls => !IsJump(opcode) && !IsConditional(opcode) && !IsStop(opcode)
      case Leaves => true
      case Halts => IsStop(opcode) && !IsConditional(opcode) && !IsJump(opcode)
      case Anywhere =>
        && !IsCall(opcode) && !IsJump(opcode) && !IsStop(opcode)
        && (IsConditional(opcode) <==> Conditional(opcode))
  {
    LiteralFlow(machine, opcode);
    assert opcode == "hlt" ==> opcode[0] == 'h';
    if opcode in CONDITIONS { ConditionsConditional(opcode); }
    assert opcode == "xbegin" ==> opcode[0] == 'x';
    ConditionalExactly(opcode);
  }

  lemma ConditionalExactly(opcode: string)
    ensures IsConditional(opcode) <==> Conditional(opcode)
    ensures opcode in CONDITIONS ==> Conditional(opcode)
  {
    assert IsCall(opcode) ==> opcode[0] == 'c';
    assert Starts(opcode, "j") ==> opcode[..1][0] == 'j';
    assert Starts(opcode, "loop") ==> opcode[..4][0] == 'l';
    if opcode in CONDITIONS { ConditionsConditional(opcode); }
  }

  lemma EdgesAreSuccessors(body: Body, graph: Graph, i: int)
    requires GraphOf(body, graph) && 0 <= i < |body| && Last(body, i)
    ensures Reviewed(body, i) && body[i].address in graph && graph[body[i].address] == Successors(body, i)
    ensures body[i].branch.Some? ==> (body[i].branch.value in graph <==> Within(body, body[i].branch.value))
  {
    hide Reviewed, Successors;
    assert Within(body, body[i].address);
  }

  /** In every accepted graph both ways out of a conditional branch are edges. */
  lemma BranchEdges(body: Body, graph: Graph, i: int)
    requires GraphOf(body, graph) && 0 <= i < |body| && Last(body, i)
    requires body[i].opcode in CONDITIONS || Conditional(body[i].opcode)
    ensures i + 1 < |body| && body[i].branch.Some? && body[i].address in graph && body[i].branch.value in graph
    ensures graph[body[i].address] == {body[i + 1].address, body[i].branch.value}
  {
    hide Conditional, CONDITIONS, Within, GraphOf;
    ConditionalExactly(body[i].opcode);
    EdgesAreSuccessors(body, graph, i);
  }

  /** A jump has its printed target as only edge, if that lies in the body. */
  lemma JumpEdges(body: Body, graph: Graph, i: int)
    requires GraphOf(body, graph) && 0 <= i < |body| && Last(body, i) && body[i].opcode in {"jmp", "jmpq"}
    ensures body[i].branch.Some? && body[i].address in graph
    ensures graph[body[i].address] == if body[i].branch.value in graph then {body[i].branch.value} else {}
  {
    hide IsConditional, Within, GraphOf;
    EdgesAreSuccessors(body, graph, i);
  }

  /** Returns, `ud2` and halts have none. */
  lemma StopEdges(body: Body, graph: Graph, i: int)
    requires GraphOf(body, graph) && 0 <= i < |body| && Last(body, i)
    requires body[i].opcode in {"ret", "retq", "iret", "iretq", "ud2", "hlt"}
    ensures body[i].address in graph && graph[body[i].address] == {}
  {
    hide IsConditional, Conditional, Within, GraphOf;
    StopsPlainly(body[i].opcode);
    EdgesAreSuccessors(body, graph, i);
  }

  lemma StopsPlainly(opcode: string)
    requires opcode in {"ret", "retq", "iret", "iretq", "ud2", "hlt"}
    ensures !IsConditional(opcode)
  {
    assert opcode[0] != 'j' && opcode[0] != 'l';
  }

  /** Everything else, calls with a symbol included, continues at the next instruction. */
  lemma OtherEdges(body: Body, graph: Graph, i: int)
    requires GraphOf(body, graph) && 0 <= i < |body| && Last(body, i)
    requires body[i].opcode !in {"jmp", "jmpq", "ret", "retq", "iret", "iretq", "ud2", "hlt"}
    requires !Conditional(body[i].opcode)
    ensures body[i].address in graph && (body[i].opcode in {"call", "callq"} ==> body[i].symbolic)
    ensures graph[body[i].address] == if i + 1 < |body| then {body[i + 1].address} else {}
  {
    hide IsConditional, Conditional, Within, GraphOf;
    ConditionalExactly(body[i].opcode);
    EdgesAreSuccessors(body, graph, i);
  }

  lemma ConditionsConditional(opcode: string)
    requires opcode in CONDITIONS
    ensures IsConditional(opcode)
  {
    ConditionsStart(opcode);
    assert opcode[0] == 'l' ==> opcode[..4] == "loop";
  }

  lemma LiteralFlow(machine: Machine, opcode: string)
    ensures IsCall(opcode) ==> FlowOf(machine, opcode) == Calls
    ensures IsJump(opcode) ==> FlowOf(machine, opcode) == Goes
    ensures IsStop(opcode) ==> FlowOf(machine, opcode) == if opcode == "hlt" then Halts else Leaves
  {
    hide CONDITIONS, HIDDEN;
    ConditionsStart(opcode);
    HiddenStart(opcode);
  }

  /** Every conditional mnemonic starts with a letter that no call, return or halt starts with. */
  lemma ConditionsStart(opcode: string)
    ensures opcode in CONDITIONS ==>
      |opcode| > 0 && (opcode[0] == 'j' || opcode[0] == 'l') && opcode != "jmp" && opcode != "jmpq"
  {
  }

  lemma HiddenStart(opcode: string)
    ensures opcode in HIDDEN ==> |opcode| > 0 && (opcode[0] == 'n' || opcode[0] == 'b' || opcode[0] == 'l')
  {
  }

  lemma UnderstoodExactly(machine: Machine, body: Body, i: int)
    requires 0 <= i < |body| && Reviewed(body, i) && Distinct(body)
    ensures Arrivals(machine, body, i) <= Successors(body, i) <==> Understood(machine, body, i)
  {
    hide FlowOf, IsCall, IsJump, IsStop, IsConditional;
    FlowTable(machine, body[i].opcode);
    assert body[i].address in AllAddresses(body);
    assert Within(body, body[i].address);
    forall k | 0 <= k < |body| ensures body[k].address in AllAddresses(body) && Within(body, body[k].address) { }
    assert i + 1 < |body| ==> body[i].address != body[i + 1].address;
    if FlowOf(machine, body[i].opcode) == Anywhere && IsConditional(body[i].opcode) {
      AnywhereExactly(body, i);
    }
  }

  lemma AnywhereExactly(body: Body, i: int)
    requires 0 <= i < |body| - 1 && body[i].branch.Some? && Within(body, body[i].branch.value)
    ensures AllAddresses(body) <= Next(body, i) + Target(body, i) <==>
      forall k :: 0 <= k < |body| ==> body[k].address == body[i + 1].address || body[k].address == body[i].branch.value
  {
    if AllAddresses(body) <= Next(body, i) + Target(body, i) {
      forall k | 0 <= k < |body|
        ensures body[k].address == body[i + 1].address || body[k].address == body[i].branch.value
      {
        assert body[k].address in AllAddresses(body);
      }
    }
  }

  /** For every listing with one instruction per address: the graph over-approximates the machine iff
      every instruction is one the audit understands. */
  lemma OverapproximatesIffUnderstood(machine: Machine, body: Body, graph: Graph)
    requires GraphOf(body, graph) && Distinct(body)
    ensures Overapproximates(machine, body, graph) <==> forall i :: 0 <= i < |body| ==> Understood(machine, body, i)
  {
    hide Arrivals, Understood, Successors, Overapproximates, Step;
    OverapproximatesIffCovered(machine, body, graph);
    forall i | 0 <= i < |body|
      ensures Arrivals(machine, body, i) <= Edges(graph, body[i].address) <==> Understood(machine, body, i)
    {
      UnderstoodExactly(machine, body, i);
      assert Last(body, i) && Within(body, body[i].address);
    }
  }

  function Addresses(body: Body, run: seq<int>): seq<int>
    requires forall k :: 0 <= k < |run| ==> 0 <= run[k] < |body|
  {
    seq(|run|, k requires 0 <= k < |run| => body[run[k]].address)
  }

  lemma ExecutionIsWalk(machine: Machine, body: Body, graph: Graph, run: seq<int>)
    requires Covered(machine, body, graph) && Execution(machine, body, run)
    ensures Avoiding(graph, body[0].address, None, Addresses(body, run))
  {
    hide Covered, Step, Edges;
    OverapproximatesIffCovered(machine, body, graph);
    var path := Addresses(body, run);
    forall k | 0 <= k < |path| - 1 ensures path[k + 1] in Edges(graph, path[k]) {
      assert Step(machine, body, run[k], run[k + 1]);
    }
  }

  /** When the audit accepts a covered body, every execution that has arrived at the user-entry call
      has already executed the quarantine call. */
  lemma QuarantineBeforeUser(machine: Machine, body: Body, graph: Graph, quarantine: int, user: int, run: seq<int>)
    requires Covered(machine, body, graph) && Sound(body, graph, [quarantine], [user], false)
    requires quarantine != user
    requires Execution(machine, body, run) && body[run[|run| - 1]].address == user
    ensures exists k :: 0 <= k < |run| - 1 && body[run[k]].address == quarantine
  {
    hide Covered, Step;
    ExecutionIsWalk(machine, body, graph, run);
    var path := Addresses(body, run);
    assert quarantine in path;
    var k :| 0 <= k < |path| && path[k] == quarantine;
    assert body[run[k]].address == quarantine;
  }

  /** In the image that stops before user mode, every execution that arrives at a halt has executed
      the quarantine call. */
  lemma QuarantineBeforeHalt(machine: Machine, body: Body, graph: Graph, quarantine: int, run: seq<int>)
    requires Covered(machine, body, graph) && Sound(body, graph, [quarantine], [], true)
    requires Execution(machine, body, run) && body[run[|run| - 1]].opcode == "hlt"
    ensures exists k :: 0 <= k < |run| && body[run[k]].address == quarantine
  {
    hide Covered, Step;
    ExecutionIsWalk(machine, body, graph, run);
    var path, entry := Addresses(body, run), body[0].address;
    var halt :| OnlyHalt(body, graph, entry, halt) && Dominates(graph, entry, quarantine, halt);
    assert Reaches(graph, entry, None, path[|path| - 1]);
    assert ReachableHalt(body, graph, entry, path[|path| - 1]);
    assert quarantine in path;
    var k :| 0 <= k < |path| && path[k] == quarantine;
    assert body[run[k]].address == quarantine;
  }

  /** The two together, on the listing alone: a distinct-address body of understood instructions. */
  lemma UnderstoodIsCovered(machine: Machine, body: Body, graph: Graph)
    requires GraphOf(body, graph) && Distinct(body) && forall i :: 0 <= i < |body| ==> Understood(machine, body, i)
    ensures Covered(machine, body, graph)
  {
    hide Covered, Understood, Overapproximates, GraphOf;
    OverapproximatesIffUnderstood(machine, body, graph);
    OverapproximatesIffCovered(machine, body, graph);
  }

  /** From the audit's verdict to the machine: an accepted listing of understood instructions, one per
      address, never reaches the user entry without having executed the quarantine call. */
  lemma AcceptedQuarantinesFirst(machine: Machine, body: Body, quarantine: int, user: int, run: seq<int>)
    requires exists graph :: GraphOf(body, graph) && Sound(body, graph, [quarantine], [user], false)
    requires Distinct(body) && forall i :: 0 <= i < |body| ==> Understood(machine, body, i)
    requires quarantine != user && Execution(machine, body, run) && body[run[|run| - 1]].address == user
    ensures exists k :: 0 <= k < |run| - 1 && body[run[k]].address == quarantine
  {
    hide GraphOf, Sound, Understood, Covered, Step;
    var graph :| GraphOf(body, graph) && Sound(body, graph, [quarantine], [user], false);
    UnderstoodIsCovered(machine, body, graph);
    QuarantineBeforeUser(machine, body, graph, quarantine, user, run);
  }

  // ---------------------------------------------------------------- which shapes are harmless

  /** Where the printed target of an instruction lies. */
  datatype Where = Unprinted | Outside | ToNext | Inside

  /** An instruction as one line of a listing shows it, apart from the addresses. */
  datatype Shape = Shape(opcode: string, symbolic: bool, target: Where, last: bool)

  function ShapeOf(body: Body, i: int): Shape
    requires 0 <= i < |body|
  {
    var (ins, last) := (body[i], i + 1 == |body|);
    Shape(ins.opcode, ins.symbolic,
          if ins.branch.None? then Unprinted else if !Within(body, ins.branch.value) then Outside
          else if !last && ins.branch.value == body[i + 1].address then ToNext else Inside,
          last)
  }

  /** The graph construction does not abort at such an instruction. */
  predicate Passes(shape: Shape) {
    && (shape.opcode in {"call", "callq"} ==> shape.symbolic)
    && (shape.opcode in {"jmp", "jmpq"} ==> shape.target != Unprinted)
    && (Conditional(shape.opcode) ==> !shape.last && (shape.target == ToNext || shape.target == Inside))
    && (shape.last ==> shape.target != ToNext)
  }

  lemma PassesExactly(body: Body, i: int)
    requires 0 <= i < |body|
    ensures Passes(ShapeOf(body, i)) <==> Reviewed(body, i)
  {
    hide IsConditional, Conditional;
    ConditionalExactly(body[i].opcode);
    forall k | 0 <= k < |body| ensures Within(body, body[k].address) { }
  }

  /** `Understood`, as far as the instruction's own line tells. */
  predicate Plain(machine: Machine, shape: Shape) {
    match FlowOf(machine, shape.opcode)
    case Branches => shape.opcode in CONDITIONS || shape.target == Outside || shape.target == ToNext
    case Calls => shape.target == Outside || shape.target == ToNext
    case Halts => !machine.wakes || shape.last
    case Anywhere => false
    case _ => true
  }

  lemma PlainUnderstood(machine: Machine, body: Body, i: int)
    requires 0 <= i < |body| && Plain(machine, ShapeOf(body, i))
    ensures Understood(machine, body, i)
  {
    hide FlowOf, IsConditional;
  }

  /** Instruction i of an accepted listing has this shape; the audit understands all the others. */
  ghost predicate Hosts(machine: Machine, body: Body, i: int, shape: Shape, quarantine: int, user: int) {
    && 0 <= i < |body| && ShapeOf(body, i) == shape && Distinct(body) && quarantine != user
    && (forall k :: 0 <= k < |body| && k != i ==> Understood(machine, body, k))
    && exists graph :: GraphOf(body, graph) && Sound(body, graph, [quarantine], [user], false)
  }

  /** An execution that arrives at the user entry without having executed the quarantine call. */
  ghost predicate Escapes(machine: Machine, body: Body, run: seq<int>, quarantine: int, user: int) {
    && Execution(machine, body, run) && body[run[|run| - 1]].address == user
    && forall k :: 0 <= k < |run| ==> body[run[k]].address != quarantine
  }

  /** No accepted listing lets an execution escape because of one such instruction. */
  ghost predicate Harmless(machine: Machine, shape: Shape) {
    forall body, i, run, quarantine, user ::
      Hosts(machine, body, i, shape, quarantine, user) ==> !Escapes(machine, body, run, quarantine, user)
  }

  /** An instruction that the audit accepts is harmless in every accepted listing iff it is plain. The
      others are: a call or `xbegin` whose target is not printed or lies in the body, although the audit
      accepts any call with a symbol in its operand; a halt that can wake; and every mnemonic of unknown
      flow, whether or not the audit takes it for a conditional branch. */
  lemma HarmlessIffPlain(machine: Machine, shape: Shape)
    requires Passes(shape)
    ensures Harmless(machine, shape) <==> Plain(machine, shape)
  {
    hide Plain, Hosts, Escapes, Passes;
    if Plain(machine, shape) {
      forall body, i, run, quarantine, user | Hosts(machine, body, i, shape, quarantine, user)
        ensures !Escapes(machine, body, run, quarantine, user)
      {
        PlainContained(machine, body, i, shape, run, quarantine, user);
      }
    } else {
      var user := ShapeEscapes(machine, shape);
      assert Escapes(machine, Host(shape), Escape(shape), 10, user);
    }
  }

  lemma PlainContained(machine: Machine, body: Body, i: int, shape: Shape, run: seq<int>, quarantine: int, user: int)
    requires Plain(machine, shape) && Hosts(machine, body, i, shape, quarantine, user)
    ensures !Escapes(machine, body, run, quarantine, user)
  {
    hide Plain, Understood, GraphOf, Sound, Execution;
    PlainUnderstood(machine, body, i);
    if Escapes(machine, body, run, quarantine, user) {
      AcceptedQuarantinesFirst(machine, body, quarantine, user, run);
    }
  }

  // ---------------------------------------------------------------- bodies that escape

  /** A branch around the quarantine call to an instruction of the given shape. It transfers to the user
      entry at 20, or falls through to it at 50 when the shape is a halt. */
  function Host(shape: Shape): Body {
    [ Instruction(0, "je", true, Some(40)), Instruction(10, "call", true, Some(100)), Detour(shape),
      Instruction(30, "ret", false, None), Instruction(40, shape.opcode, shape.symbolic, Printed(shape)) ] +
    if shape.last then [] else if IsHalt(shape) then [Instruction(50, "call", true, Some(200))]
    else [Instruction(50, "ret", false, None)]
  }

  predicate IsHalt(shape: Shape) {
    shape.opcode == "hlt"
  }

  function Detour(shape: Shape): Instruction {
    if IsHalt(shape) then Instruction(20, "jmp", true, Some(50)) else Instruction(20, "call", true, Some(200))
  }

  function Printed(shape: Shape): Option<int> {
    match shape.target
    case Unprinted => None
    case Outside => Some(300)
    case ToNext => Some(50)
    case Inside => Some(if IsConditional(shape.opcode) then 0 else 20)
  }

  function Escape(shape: Shape): seq<int> {
    [0, 4, if IsHalt(shape) then 5 else 2]
  }

  function HostGraph(shape: Shape): Graph {
    var g := map[0 := {10, 40}, 10 := {20}, 20 := {if IsHalt(shape) then 50 else 30}, 30 := {}, 40 := After(shape)];
    if shape.last then g else g[50 := {}]
  }

  /** What the audit takes for the successors of the instruction in question. */
  function After(shape: Shape): set<int> {
    if IsHalt(shape) || shape.last then {}
    else if IsConditional(shape.opcode) && shape.target == Inside then {50, 0} else {50}
  }

  lemma HostLines(shape: Shape)
    ensures
      var body := Host(shape);
      && |body| == (if shape.last then 5 else 6)
      && body[4] == Instruction(40, shape.opcode, shape.symbolic, Printed(shape))
      && (forall k :: 0 <= k < |body| ==> body[k].address == 10 * k)
      && forall a :: Within(body, a) <==> a in {0, 10, 20, 30, 40} || (a == 50 && !shape.last)
  {
    var body := Host(shape);
    assert body[0].address == 0 && body[1].address == 10 && body[2].address == 20;
    assert body[3].address == 30 && body[4].address == 40 && (!shape.last ==> body[5].address == 50);
    forall a | Within(body, a) ensures a in {0, 10, 20, 30, 40} || (a == 50 && !shape.last) {
      var k :| 0 <= k < |body| && body[k].address == a;
    }
  }

  lemma HostShape(shape: Shape)
    requires Passes(shape)
    ensures ShapeOf(Host(shape), 4) == shape && Distinct(Host(shape))
  {
    hide Host, Within, IsConditional, IsCall, IsJump;
    HostLines(shape);
  }

  /** The audit and the machine agree on every other line. */
  lemma HostOthers(machine: Machine, shape: Shape, k: int)
    requires 0 <= k < |Host(shape)| && k != 4 && (IsHalt(shape) ==> !shape.last)
    ensures Reviewed(Host(shape), k) && Understood(machine, Host(shape), k)
    ensures Successors(Host(shape), k) == Edges(HostGraph(shape), 10 * k)
  {
    hide Within, FlowOf;
    HostLines(shape);
    LiteralFlow(machine, "call");
    LiteralFlow(machine, "jmp");
    BranchFlow(machine);
    assert "call"[0] == 'c' && "jmp"[1] == 'm' && "ret"[0] == 'r' && "je"[0] == 'j';
  }

  lemma BranchFlow(machine: Machine)
    ensures FlowOf(machine, "je") == Branches && FlowOf(machine, "ret") == Leaves
  {
    HiddenStart("je");
    LiteralFlow(machine, "ret");
  }

  lemma HostItself(machine: Machine, shape: Shape)
    requires Passes(shape) && !Plain(machine, shape) && (IsHalt(shape) ==> !shape.last)
    ensures Reviewed(Host(shape), 4) && Successors(Host(shape), 4) == Edges(HostGraph(shape), 40)
  {
    hide Host, Within, FlowOf, IsCall, IsJump, IsConditional;
    HostLines(shape);
    HostShape(shape);
    PassesExactly(Host(shape), 4);
    FlowTable(machine, shape.opcode);
    LiteralFlow(machine, shape.opcode);
    assert Next(Host(shape), 4) == if shape.last then {} else {50};
    assert IsConditional(shape.opcode) ==> Target(Host(shape), 4) == {Printed(shape).value};
  }

  lemma HostAccepted(machine: Machine, shape: Shape)
    requires Passes(shape) && !Plain(machine, shape) && (IsHalt(shape) ==> !shape.last)
    ensures GraphOf(Host(shape), HostGraph(shape))
  {
    hide Host, Reviewed, Successors, Within, Plain;
    HostLines(shape);
    forall i | 0 <= i < |Host(shape)|
      ensures Reviewed(Host(shape), i) && HostGraph(shape)[Host(shape)[i].address] == Successors(Host(shape), i)
    {
      if i == 4 { HostItself(machine, shape); } else { HostOthers(machine, shape, i); }
    }
  }

  lemma ClosedDominates(graph: Graph, entry: int, gate: int, target: int, closed: set<int>)
    requires entry in closed && target !in closed
    requires forall a, b :: a in closed && b in Edges(graph, a) && b != gate ==> b in closed
    ensures Dominates(graph, entry, gate, target)
  {
    hide Edges;
    UnreachedIsDominated(graph, entry, gate, target);
    if Reaches(graph, entry, Some(gate), target) {
      var path :| Avoiding(graph, entry, Some(gate), path) && path[|path| - 1] == target;
      ClosedContains(graph, entry, Some(gate), closed, path);
    }
  }

  lemma HostSound(shape: Shape, graph: Graph, user: int)
    requires graph == HostGraph(shape) && user == if IsHalt(shape) then 50 else 20
    requires IsHalt(shape) ==> !shape.last
    ensures Sound(Host(shape), graph, [10], [user], false)
  {
    hide Dominates;
    assert Avoiding(graph, 0, None, [0, 10]);
    assert Avoiding(graph, 0, None, [0, 10, 20]);
    assert IsHalt(shape) ==> Avoiding(graph, 0, None, [0, 10, 20, 50]);
    ClosedDominates(graph, 0, 10, user, if IsHalt(shape) then {0, 40} else {0, 40, 50});
  }

  lemma HostEscapes(machine: Machine, shape: Shape, user: int)
    requires Passes(shape) && !Plain(machine, shape) && (IsHalt(shape) ==> !shape.last)
    requires user == if IsHalt(shape) then 50 else 20
    ensures Escapes(machine, Host(shape), Escape(shape), 10, user)
  {
    hide FlowOf, IsCall, IsJump, IsConditional;
    BranchFlow(machine);
    FlowTable(machine, shape.opcode);
    LiteralFlow(machine, shape.opcode);
    var body, run := Host(shape), Escape(shape);
    assert Step(machine, body, run[0], run[1]);
    assert Step(machine, body, run[1], run[2]);
  }

  /** Every other shape has an accepted listing, fully understood but for this one line, and an execution
      in it that escapes. */
  lemma ShapeEscapes(machine: Machine, shape: Shape) returns (user: int)
    requires Passes(shape) && !Plain(machine, shape)
    ensures Hosts(machine, Host(shape), 4, shape, 10, user) && Escapes(machine, Host(shape), Escape(shape), 10, user)
  {
    hide Plain, Passes, Host, HostGraph, GraphOf, Sound, Understood, Escapes;
    user := if IsHalt(shape) then 50 else 20;
    HostShape(shape);
    HostLines(shape);
    if IsHalt(shape) { HaltsLast(machine, shape); }
    HostAccepted(machine, shape);
    HostSound(shape, HostGraph(shape), user);
    HostEscapes(machine, shape, user);
    forall k | 0 <= k < |Host(shape)| && k != 4 ensures Understood(machine, Host(shape), k) {
      HostOthers(machine, shape, k);
    }
  }

  lemma HaltsLast(machine: Machine, shape: Shape)
    requires !Plain(machine, shape) && IsHalt(shape)
    ensures !shape.last
  {
    LiteralFlow(machine, shape.opcode);
  }

  /** The `notrack jmp` of an indirect branch under control-flow protection, `bnd jmp` and the far transfers
      pass and are not harmless, whatever else is known about the machine. */
  lemma PrefixesEscape(machine: Machine, shape: Shape)
    requires shape.opcode in HIDDEN && !(shape.last && shape.target == ToNext)
    ensures Passes(shape) && !Harmless(machine, shape)
  {
    hide Harmless, FlowOf;
    HiddenStart(shape.opcode);
    HiddenFlow(machine, shape.opcode);
    ConditionalExactly(shape.opcode);
    HarmlessIffPlain(machine, shape);
  }

  lemma HiddenFlow(machine: Machine, opcode: string)
    requires opcode in HIDDEN
    ensures FlowOf(machine, opcode) == Anywhere && !IsConditional(opcode)
  {
    assert |opcode| > 1 && opcode[0] != 'j' && (opcode[0] == 'l' ==> opcode[1] != 'o');
  }

  /** The audit looks only for a symbol in the operand, so an indirect call with a symbol in its comment
      passes, and so does a call into the body; neither is harmless. */
  lemma CallEscapes(machine: Machine, shape: Shape)
    requires shape.opcode in {"call", "callq"} && shape.symbolic
    requires shape.target == Unprinted || shape.target == Inside
    ensures Passes(shape) && !Harmless(machine, shape)
  {
    hide Harmless, FlowOf;
    LiteralFlow(machine, shape.opcode);
    FlowTable(machine, shape.opcode);
    ConditionalExactly(shape.opcode);
    HarmlessIffPlain(machine, shape);
  }

  const CALLS_GRAPH: Graph := map[0 := {10}, 10 := {20}, 20 := {}]

  lemma CallsDominated(graph: Graph)
    requires graph == CALLS_GRAPH
    ensures Dominates(graph, 0, 10, 20) && Reaches(graph, 0, None, 10) && Reaches(graph, 0, None, 20)
  {
    assert Avoiding(graph, 0, None, [0, 10]) && Avoiding(graph, 0, None, [0, 10, 20]);
    ClosedDominates(graph, 0, 10, 20, {0});
  }

  /** Two instructions at one address: the graph keeps the second, the machine starts at the first. */
  const REPEATED: Body :=
    [ Instruction(0, "jmp", true, Some(20)), Instruction(0, "nop", false, None),
      Instruction(10, "call", true, Some(100)), Instruction(20, "call", true, Some(200)) ]

  lemma RepeatedGraph(body: Body, graph: Graph)
    requires body == REPEATED && graph == CALLS_GRAPH
    ensures GraphOf(body, graph)
  {
    assert body[0].address == 0 && body[1].address == 0 && body[2].address == 10 && body[3].address == 20;
    assert Next(body, 1) == {10} && Next(body, 2) == {20} && Next(body, 3) == {};
    assert !Last(body, 0) by { assert body[1].address == body[0].address; }
    assert IsJump("jmp") && !IsCall("jmp") && !IsConditional("jmp");
    assert "nop"[0] == 'n' && "call"[0] == 'c';
    assert !IsCall("nop") && !IsJump("nop") && !IsConditional("nop") && !IsStop("nop");
    assert IsCall("call") && !IsJump("call") && !IsConditional("call") && !IsStop("call");
  }

  /** A repeated address breaks the condition above too: the audit accepts, and an execution escapes. */
  lemma RepeatedAddressEscapes(machine: Machine, body: Body, graph: Graph)
    requires body == REPEATED && graph == CALLS_GRAPH
    ensures GraphOf(body, graph) && Sound(body, graph, [10], [20], false) && !Covered(machine, body, graph)
    ensures Execution(machine, body, [0, 3]) && body[3].address == 20 && body[0].address != 10
  {
    hide GraphOf, Dominates, Reaches, Avoiding, Covered, FlowOf;
    RepeatedGraph(body, graph);
    CallsDominated(graph);
    LiteralFlow(machine, "jmp");
    assert Step(machine, body, 0, 3);
    OverapproximatesIffCovered(machine, body, graph);
  }
}
