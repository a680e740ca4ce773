/**
 Parity-style traces of a call tree. The tracer sees enter and exit events and keeps a stack of open
 traces and the address of the innermost one; the specification is written on the tree itself.
 */
module CallTrace {
  import opened Wrappers
  import opened ByteStrings

  datatype Op = CALL | CALLCODE | DELEGATECALL | STATICCALL | CREATE | CREATE2 | SELFDESTRUCT | OTHER

  datatype EnterArgs = EnterArgs(op: Op, from: nat, to: nat, precompile: bool, input: seq<Byte>, gas: nat, value: nat)

  datatype ExitError = NoError | Reverted | Failed(message: string)

  datatype ExitArgs = ExitArgs(output: seq<Byte>, gasUsed: nat, error: ExitError)

  datatype Event = Enter(depth: nat, enter: EnterArgs) | Exit(depth: nat, exit: ExitArgs)

  datatype Config = Config(includePrecompiles: bool, compat: bool)

  // ---------- Traces ----------

  datatype Kind = CallKind | CreateKind | SuicideKind

  datatype Action =
    | CallAction(callType: Op, from: nat, to: nat, gas: nat, input: seq<Byte>, value: nat)
    | CreateAction(creationMethod: Op, from: nat, gas: nat, init: seq<Byte>, value: nat)
    | SuicideAction(address: nat, refundAddress: nat, balance: nat)

  datatype Outcome =
    | NoResult
    | CallResult(gasUsed: nat, output: seq<Byte>)
    | CreateResult(address: nat, createGasUsed: Option<nat>, code: seq<Byte>)

  datatype Node = Node(kind: Kind, action: Action, result: Outcome, error: string, subtraces: nat, address: seq<nat>)

  predicate IsCreate(op: Op) {
    op == CREATE || op == CREATE2
  }

  function KindOf(op: Op): Kind {
    if IsCreate(op) then CreateKind else if op == SELFDESTRUCT then SuicideKind else CallKind
  }

  /** The gas an action reports: a 64-bit subtraction that wraps around. */
  function ReportedGas(gas: nat): nat {
    if gas > 500000000 then (500000001 - (0x8000000000000000 - gas)) % WORD64 else gas
  }

  /** A delegated call shows its caller's value, a static call none. */
  function ShownValue(deep: bool, op: Op, value: nat, parent: Option<Action>): nat {
    if !deep then value
    else if op == DELEGATECALL && parent.Some? && !parent.value.SuicideAction? then parent.value.value
    else if op == STATICCALL then 0
    else value
  }

  function ActionOf(deep: bool, e: EnterArgs, parent: Option<Action>): Action {
    var value := ShownValue(deep, e.op, e.value, parent);
    if IsCreate(e.op) then CreateAction(e.op, e.from, ReportedGas(e.gas), e.input, value)
    else if e.op == SELFDESTRUCT then SuicideAction(e.from, e.to, value)
    else CallAction(e.op, e.from, e.to, ReportedGas(e.gas), e.input, value)
  }

  function InitialResult(e: EnterArgs): Outcome {
    match KindOf(e.op)
    case CreateKind => CreateResult(e.to, None, [])
    case SuicideKind => NoResult
    case CallKind => CallResult(0, [])
  }

  /** The node of a call that has just been entered. */
  function Opened(deep: bool, e: EnterArgs, parent: Option<Action>, address: seq<nat>): (node: Node)
    ensures node.subtraces == 0 && node.address == address && node.kind == KindOf(e.op)
    ensures node.action == ActionOf(deep, e, parent)
  {
    Node(KindOf(e.op), ActionOf(deep, e, parent), InitialResult(e), "", 0, address)
  }

  function WithOutput(result: Outcome, gasUsed: nat, output: seq<Byte>): Outcome {
    match result
    case NoResult => NoResult
    case CallResult(_, _) => CallResult(gasUsed, output)
    case CreateResult(address, _, _) => CreateResult(address, Some(gasUsed), output)
  }

  function CurrentOutput(result: Outcome): seq<Byte> {
    match result
    case NoResult => []
    case CallResult(_, output) => output
    case CreateResult(_, _, code) => code
  }

  /** The node of a call that has just been left. */
  function Closed(config: Config, deep: bool, node: Node, x: ExitArgs): (closed: Node)
    ensures closed.subtraces == node.subtraces && closed.address == node.address && closed.kind == node.kind
    ensures closed.action == node.action
  {
    var ignoreError := config.compat && !deep && node.kind == CreateKind;
    if x.error != NoError && !ignoreError then
      match x.error
      case Reverted => node.(error := "Reverted", result := WithOutput(node.result, x.gasUsed, x.output))
      case Failed(message) => node.(result := NoResult, error := message)
    else
      var output := if x.output != [] then x.output else CurrentOutput(node.result);
      node.(result := WithOutput(node.result, x.gasUsed, output))
  }

  // ---------- The tree ----------

  datatype Call = Call(enter: EnterArgs, children: seq<Call>, exit: ExitArgs)

  /** A call to a precompile from inside a transaction, without value. */
  predicate Flagged(deep: bool, e: EnterArgs) {
    e.precompile && deep && e.value == 0
  }

  predicate Skipped(config: Config, deep: bool, e: EnterArgs) {
    Flagged(deep, e) && !config.includePrecompiles
  }

  /** Precompiles make no calls of their own. */
  predicate Regular(f: Call) {
    (f.enter.precompile ==> f.children == []) && forall c | c in f.children :: Regular(c)
  }

  function EventsOf(f: Call, depth: nat): seq<Event>
    decreases f, 1
  {
    [Enter(depth, f.enter)] + EventsOfAll(f.children, depth + 1) + [Exit(depth, f.exit)]
  }

  function EventsOfAll(fs: seq<Call>, depth: nat): seq<Event>
    decreases fs, 0
  {
    if fs == [] then [] else EventsOfAll(fs[..|fs| - 1], depth) + EventsOf(fs[|fs| - 1], depth)
  }

  /** How many of the calls get a trace. */
  function Emitted(config: Config, fs: seq<Call>): nat {
    if fs == [] then 0 else
      Emitted(config, fs[..|fs| - 1]) + if Skipped(config, true, fs[|fs| - 1].enter) then 0 else 1
  }

  /** The traces of a call in pre-order; a child's address is its index among its traced siblings. */
  function Flatten(config: Config, f: Call, deep: bool, address: seq<nat>, parent: Option<Action>): seq<Node>
    decreases f, 1
  {
    var node := Opened(deep, f.enter, parent, address).(subtraces := Emitted(config, f.children));
    [Closed(config, deep, node, f.exit)] + FlattenAll(config, f.children, address, node.action)
  }

  function FlattenAll(config: Config, fs: seq<Call>, address: seq<nat>, parent: Action): seq<Node>
    decreases fs, 0
  {
    if fs == [] then [] else
      var front, last := fs[..|fs| - 1], fs[|fs| - 1];
      FlattenAll(config, front, address, parent) +
      if Skipped(config, true, last.enter) then []
      else Flatten(config, last, true, address + [Emitted(config, front)], Some(parent))
  }

  // ---------- The tracer as a state machine ----------

  /** Traces so far, the positions of the open ones, and the address of the innermost. */
  datatype State = State(nodes: seq<Node>, stack: seq<nat>, address: seq<nat>, precompile: bool, output: seq<Byte>)

  predicate Consistent(s: State) {
    forall i | 0 <= i < |s.stack| :: s.stack[i] < |s.nodes|
  }

  function Top(s: State): nat
    requires s.stack != []
  {
    s.stack[|s.stack| - 1]
  }

  /** `None` where the source would index an empty stack. */
  function EnterStep(config: Config, s: State, deep: bool, e: EnterArgs): (r: Option<State>)
    requires Consistent(s)
    ensures r.Some? ==> Consistent(r.value)
  {
    if Skipped(config, deep, e) then Some(s.(precompile := true))
    else if deep && s.stack == [] then None
    else
      var flag := s.precompile || Flagged(deep, e);
      var parent := if deep then Some(s.nodes[Top(s)].action) else None;
      var address := if deep then s.address + [s.nodes[Top(s)].subtraces] else s.address;
      var nodes := if deep then s.nodes[Top(s) := s.nodes[Top(s)].(subtraces := s.nodes[Top(s)].subtraces + 1)]
                   else s.nodes;
      Some(State(nodes + [Opened(deep, e, parent, address)], s.stack + [|s.nodes|], address, flag, s.output))
  }

  function ExitStep(config: Config, s: State, deep: bool, x: ExitArgs): (r: Option<State>)
    requires Consistent(s)
    ensures r.Some? ==> Consistent(r.value)
  {
    if s.precompile && !config.includePrecompiles then Some(s.(precompile := false))
    else if s.stack == [] || (deep && s.address == []) then None
    else
      Some(State(
        s.nodes[Top(s) := Closed(config, deep, s.nodes[Top(s)], x)],
        s.stack[..|s.stack| - 1],
        if deep then s.address[..|s.address| - 1] else s.address,
        false,
        if deep then s.output else x.output))
  }

  function Step(config: Config, s: State, event: Event): (r: Option<State>)
    requires Consistent(s)
    ensures r.Some? ==> Consistent(r.value)
  {
    match event
    case Enter(depth, e) => EnterStep(config, s, depth != 0, e)
    case Exit(depth, x) => ExitStep(config, s, depth != 0, x)
  }

  function Run(config: Config, s: State, events: seq<Event>): (r: Option<State>)
    requires Consistent(s)
    ensures r.Some? ==> Consistent(r.value)
  {
    if events == [] then Some(s) else
      match Run(config, s, events[..|events| - 1])
      case None => None
      case Some(t) => Step(config, t, events[|events| - 1])
  }

  lemma {:induction false} RunAppend(config: Config, s: State, a: seq<Event>, b: seq<Event>)
    requires Consistent(s)
    ensures Run(config, s, a + b) ==
            match Run(config, s, a) case None => None case Some(t) => Run(config, t, b)
    decreases |b|
  {
    if b == [] {
      assert a + b == a;
    } else {
      var front := b[..|b| - 1];
      RunAppend(config, s, a, front);
      assert (a + b)[..|a + b| - 1] == a + front;
    }
  }

  lemma RunOne(config: Config, s: State, event: Event)
    requires Consistent(s)
    ensures Run(config, s, [event]) == Step(config, s, event)
  {
    assert [event][..0] == [];
    assert Run(config, s, []) == Some(s);
  }

  // ---------- The tracer prints the tree ----------

  /** The node at the top of the stack, with some more children counted. */
  function Counted(s: State, more: nat): seq<Node>
    requires Consistent(s) && s.stack != []
  {
    s.nodes[Top(s) := s.nodes[Top(s)].(subtraces := s.nodes[Top(s)].subtraces + more)]
  }

  /** The state a whole call leaves behind: its traces, its parent's count, and nothing else. */
  function After(config: Config, s: State, f: Call, deep: bool): State
    requires Consistent(s)
    requires deep ==> s.stack != []
  {
    if Skipped(config, deep, f.enter) then s
    else if deep then
      var parent := s.nodes[Top(s)];
      s.(nodes := Counted(s, 1) + Flatten(config, f, true, s.address + [parent.subtraces], Some(parent.action)))
    else s.(nodes := s.nodes + Flatten(config, f, false, s.address, None), output := f.exit.output)
  }

  function AfterAll(config: Config, s: State, fs: seq<Call>): State
    requires Consistent(s) && s.stack != []
  {
    s.(nodes := Counted(s, Emitted(config, fs)) + FlattenAll(config, fs, s.address, s.nodes[Top(s)].action))
  }

  /** Fed the events of a call, the tracer appends the call's pre-order traces and restores both stacks. */
  lemma {:induction false} RunCall(config: Config, s: State, f: Call, depth: nat)
    requires Consistent(s) && !s.precompile
    requires depth > 0 ==> s.stack != []
    requires Regular(f)
    ensures Run(config, s, EventsOf(f, depth)) == Some(After(config, s, f, depth != 0))
    decreases f, 1
  {
    hide Run, Closed, Opened, After, Flatten, FlattenAll, EventsOfAll, Regular;
    var deep := depth != 0;
    var enter, inner, exit := [Enter(depth, f.enter)], EventsOfAll(f.children, depth + 1), [Exit(depth, f.exit)];
    RunAppend(config, s, enter + inner, exit);
    RunAppend(config, s, enter, inner);
    RunOne(config, s, enter[0]);
    LeafOrPlain(f);
    var s1 := Step(config, s, enter[0]).value;
    if Skipped(config, deep, f.enter) {
      RunNone(config, s1, depth + 1);
      RunOne(config, s1, exit[0]);
      SkippedAfter(config, s, f, deep);
    } else {
      if s1.precompile {
        RunNone(config, s1, depth + 1);
        NoChildren(config, s1);
      } else {
        RunCalls(config, s1, f.children, depth + 1);
      }
      var s2 := AfterAll(config, s1, f.children);
      RunOne(config, s2, exit[0]);
      LeaveCall(config, s, f, deep);
    }
  }

  lemma LeafOrPlain(f: Call)
    requires Regular(f)
    ensures f.enter.precompile ==> f.children == []
    ensures forall c | c in f.children :: Regular(c)
  {
  }

  lemma RunNone(config: Config, s: State, depth: nat)
    requires Consistent(s)
    ensures Run(config, s, EventsOfAll([], depth)) == Some(s)
  {
  }

  lemma NoChildren(config: Config, s: State)
    requires Consistent(s) && s.stack != []
    ensures AfterAll(config, s, []) == s
  {
    assert Counted(s, 0) == s.nodes;
  }

  lemma SkippedAfter(config: Config, s: State, f: Call, deep: bool)
    requires Consistent(s) && (deep ==> s.stack != [])
    requires Skipped(config, deep, f.enter)
    ensures After(config, s, f, deep) == s
  {
  }

  /** Leaving a call whose children have run completes its own node. */
  lemma LeaveCall(config: Config, s: State, f: Call, deep: bool)
    requires Consistent(s) && !s.precompile && (deep ==> s.stack != [])
    requires !Skipped(config, deep, f.enter)
    ensures var s1 := EnterStep(config, s, deep, f.enter).value;
            ExitStep(config, AfterAll(config, s1, f.children), deep, f.exit) == Some(After(config, s, f, deep))
  {
    hide FlattenAll, Emitted, Closed, ActionOf, InitialResult;
    var s1 := EnterStep(config, s, deep, f.enter).value;
    var s2 := AfterAll(config, s1, f.children);
    var s3 := ExitStep(config, s2, deep, f.exit).value;
    var n := |s.nodes|;
    var before := if deep then Counted(s, 1) else s.nodes;
    var node := s1.nodes[n].(subtraces := Emitted(config, f.children));
    var inner := FlattenAll(config, f.children, s1.address, node.action);
    assert s1.nodes == before + [s1.nodes[n]];
    assert s2.nodes == before + [node] + inner;
    assert s3.nodes == before + ([Closed(config, deep, node, f.exit)] + inner);
    assert s3.stack == s.stack && s3.address == s.address;
  }

  lemma {:induction false} RunCalls(config: Config, s: State, fs: seq<Call>, depth: nat)
    requires Consistent(s) && s.stack != [] && !s.precompile
    requires s.nodes[Top(s)].subtraces == 0
    requires depth > 0
    requires forall f | f in fs :: Regular(f)
    ensures Run(config, s, EventsOfAll(fs, depth)) == Some(AfterAll(config, s, fs))
    decreases fs, 0
  {
    hide Run, AfterAll, After, Regular, EventsOf, Emitted, Flatten;
    if fs == [] {
      RunNone(config, s, depth);
      NoChildren(config, s);
    } else {
      var front, last := fs[..|fs| - 1], fs[|fs| - 1];
      RunCalls(config, s, front, depth);
      RunAppend(config, s, EventsOfAll(front, depth), EventsOf(last, depth));
      var s1 := AfterAll(config, s, front);
      AfterAllNext(config, s, front, last);
      RunCall(config, s1, last, depth);
      assert front + [last] == fs;
    }
  }

  /** One more child after the ones before it. */
  lemma AfterAllNext(config: Config, s: State, front: seq<Call>, last: Call)
    requires Consistent(s) && s.stack != [] && !s.precompile
    requires s.nodes[Top(s)].subtraces == 0
    ensures var s1 := AfterAll(config, s, front);
            && Consistent(s1)
            && s1.stack == s.stack && !s1.precompile
            && After(config, s1, last, true) == AfterAll(config, s, front + [last])
  {
    hide Flatten;
    var s1 := AfterAll(config, s, front);
    var fs := front + [last];
    assert fs[..|fs| - 1] == front;
    var more := if Skipped(config, true, last.enter) then 0 else 1;
    assert Counted(s1, more) == Counted(s, Emitted(config, fs)) +
        FlattenAll(config, front, s.address, s.nodes[Top(s)].action);
  }

  /** A whole transaction, from the tracer's initial state. */
  lemma RunTransaction(config: Config, f: Call)
    requires Regular(f)
    ensures Run(config, State([], [], [], false, []), EventsOf(f, 0)) ==
            Some(State(Flatten(config, f, false, [], None), [], [], false, f.exit.output))
  {
    var s := State([], [], [], false, []);
    RunCall(config, s, f, 0);
    assert s.nodes + Flatten(config, f, false, [], None) == Flatten(config, f, false, [], None);
  }

  // ---------- What the flattened traces say ----------

  /** The `i`-th of the calls that get a trace. */
  function TracedChild(config: Config, fs: seq<Call>, i: nat): (r: Option<Call>)
    ensures r.Some? ==> r.value in fs
  {
    if fs == [] then None else
      var front, last := fs[..|fs| - 1], fs[|fs| - 1];
      if !Skipped(config, true, last.enter) && Emitted(config, front) == i then Some(last)
      else TracedChild(config, front, i)
  }

  /** The call a trace address leads to. */
  function CallAt(config: Config, f: Call, path: seq<nat>): Option<Call>
    decreases path
  {
    if path == [] then Some(f) else
      match TracedChild(config, f.children, path[0])
      case None => None
      case Some(child) => CallAt(config, child, path[1..])
  }

  /** The action of the call one step up the path: what the call at its end has for a parent. */
  function ParentAt(config: Config, f: Call, deep: bool, parent: Option<Action>, path: seq<nat>): Option<Action>
    decreases path
  {
    if path == [] then parent else
      match TracedChild(config, f.children, path[0])
      case None => None
      case Some(child) => ParentAt(config, child, true, Some(ActionOf(deep, f.enter, parent)), path[1..])
  }

  /** The node shows this call: its action under this parent, its exit, its traced children. */
  predicate Shows(config: Config, node: Node, c: Call, deep: bool, parent: Option<Action>) {
    node == Closed(config, deep, Opened(deep, c.enter, parent, node.address).(subtraces := Emitted(config, c.children)),
                   c.exit)
  }

  lemma {:induction false} TracedChildFront(config: Config, front: seq<Call>, last: Call, i: nat)
    ensures i < Emitted(config, front) ==> TracedChild(config, front + [last], i) == TracedChild(config, front, i)
    ensures !Skipped(config, true, last.enter) ==>
              TracedChild(config, front + [last], Emitted(config, front)) == Some(last)
  {
    assert (front + [last])[..|front|] == front;
  }

  /**
   Every trace's address is a child-index path, and the call it leads to is the one the trace shows,
   under the action of the call one step up.
   */
  lemma {:induction false} AddressIsPath(config: Config, f: Call, deep: bool, address: seq<nat>,
                                         parent: Option<Action>, j: nat)
    requires j < |Flatten(config, f, deep, address, parent)|
    ensures var node := Flatten(config, f, deep, address, parent)[j];
            && address <= node.address
            && (j == 0 <==> node.address == address)
            && var path := node.address[|address|..];
               var c := CallAt(config, f, path);
               && c.Some?
               && Shows(config, node, c.value, deep || path != [], ParentAt(config, f, deep, parent, path))
    decreases f, 1
  {
    hide Closed, Opened, Skipped;
    var root := Opened(deep, f.enter, parent, address).(subtraces := Emitted(config, f.children));
    if j == 0 {
      var node := Flatten(config, f, deep, address, parent)[0];
      assert node == Closed(config, deep, root, f.exit);
      assert node.address[|address|..] == [];
    } else {
      AddressesArePaths(config, f.children, address, root.action, j - 1);
      var path := Flatten(config, f, deep, address, parent)[j].address[|address|..];
      assert path[1..] == Flatten(config, f, deep, address, parent)[j].address[|address| + 1..];
    }
  }

  lemma {:induction false} AddressesArePaths(config: Config, fs: seq<Call>, address: seq<nat>, parent: Action, j: nat)
    requires j < |FlattenAll(config, fs, address, parent)|
    ensures var node := FlattenAll(config, fs, address, parent)[j];
            && |node.address| > |address|
            && address <= node.address
            && node.address[|address|] < Emitted(config, fs)
            && var child := TracedChild(config, fs, node.address[|address|]);
               && child.Some?
               && var path := node.address[|address| + 1..];
                  var c := CallAt(config, child.value, path);
                  && c.Some?
                  && Shows(config, node, c.value, true, ParentAt(config, child.value, true, Some(parent), path))
    decreases fs, 0
  {
    hide Closed, Opened, Skipped, Shows, Flatten, TracedChild, CallAt, ParentAt;
    var front, last := fs[..|fs| - 1], fs[|fs| - 1];
    assert front + [last] == fs;
    var before := FlattenAll(config, front, address, parent);
    var node := FlattenAll(config, fs, address, parent)[j];
    if j < |before| {
      AddressesArePaths(config, front, address, parent, j);
      TracedChildFront(config, front, last, node.address[|address|]);
    } else {
      var index := Emitted(config, front);
      var own := Flatten(config, last, true, address + [index], Some(parent));
      assert FlattenAll(config, fs, address, parent) == before + own;
      assert node == own[j - |before|];
      AddressIsPath(config, last, true, address + [index], Some(parent), j - |before|);
      TracedChildFront(config, front, last, index);
      assert node.address[..|address| + 1] == address + [index];
      assert node.address[|address|] == (address + [index])[|address|] == index;
    }
  }

  /** No two traces of a call share an address. */
  lemma {:induction false} AddressesDistinct(config: Config, f: Call, deep: bool, address: seq<nat>,
                                             parent: Option<Action>, i: nat, j: nat)
    requires i < j < |Flatten(config, f, deep, address, parent)|
    ensures Flatten(config, f, deep, address, parent)[i].address != Flatten(config, f, deep, address, parent)[j].address
    decreases f, 1
  {
    hide Closed, Opened, CallAt, ParentAt, Shows;
    AddressIsPath(config, f, deep, address, parent, j);
    if i == 0 {
      AddressIsPath(config, f, deep, address, parent, 0);
    } else {
      ChildAddressesDistinct(config, f.children, address, Opened(deep, f.enter, parent, address).action, i - 1, j - 1);
    }
  }

  lemma {:induction false} ChildAddressesDistinct(config: Config, fs: seq<Call>, address: seq<nat>, parent: Action,
                                                  i: nat, j: nat)
    requires i < j < |FlattenAll(config, fs, address, parent)|
    ensures FlattenAll(config, fs, address, parent)[i].address != FlattenAll(config, fs, address, parent)[j].address
    decreases fs, 0
  {
    hide Closed, Opened, CallAt, ParentAt, Shows, TracedChild, Flatten;
    var front, last := fs[..|fs| - 1], fs[|fs| - 1];
    var before := FlattenAll(config, front, address, parent);
    var index := Emitted(config, front);
    if j < |before| {
      ChildAddressesDistinct(config, front, address, parent, i, j);
    } else if i < |before| {
      AddressesArePaths(config, front, address, parent, i);
      AddressIsPath(config, last, true, address + [index], Some(parent), j - |before|);
      assert (address + [index])[|address|] == index;
    } else {
      AddressesDistinct(config, last, true, address + [index], Some(parent), i - |before|, j - |before|);
    }
  }
}
