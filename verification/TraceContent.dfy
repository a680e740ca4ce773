/**
 What a trace says about its call, in terms of what the tracer was told on entering and on leaving it:
 every field of the trace at an address, and a trace for every call that a path leads to.
 */
module TraceContent {
  import opened Wrappers
  import opened ByteStrings
  import opened CallTrace

  /** Up to half a billion the gas is shown as it is; above that the 64-bit difference wraps around. */
  predicate GasShown(shown: nat, gas: nat) {
    if gas <= 500_000_000 then shown == gas
    else shown < 0x1_0000_0000_0000_0000 &&
         (shown + 0x8000_0000_0000_0000) % 0x1_0000_0000_0000_0000 == (gas + 500_000_001) % 0x1_0000_0000_0000_0000
  }

  predicate ActionShown(action: Action, e: EnterArgs, value: nat) {
    match e.op
    case CREATE | CREATE2 =>
      && action.CreateAction? && action.creationMethod == e.op
      && action.from == e.from && action.init == e.input && action.value == value
      && GasShown(action.gas, e.gas)
    case SELFDESTRUCT =>
      && action.SuicideAction?
      && action.address == e.from && action.refundAddress == e.to && action.balance == value
    case _ =>
      && action.CallAction? && action.callType == e.op
      && action.from == e.from && action.to == e.to && action.input == e.input && action.value == value
      && GasShown(action.gas, e.gas)
  }

  predicate ResultShown(result: Outcome, e: EnterArgs, x: ExitArgs) {
    match e.op
    case CREATE | CREATE2 => result == CreateResult(e.to, Some(x.gasUsed), x.output)
    case SELFDESTRUCT => result == NoResult
    case _ => result == CallResult(x.gasUsed, x.output)
  }

  /** Leaving: a revert keeps the result, any other failure has none; a quiet call shows no error at all. */
  predicate ExitShown(node: Node, e: EnterArgs, x: ExitArgs, quiet: bool) {
    match x.error
    case Failed(message) =>
      if quiet then node.error == "" && ResultShown(node.result, e, x)
      else node.error == message && node.result == NoResult
    case Reverted => node.error == (if quiet then "" else "Reverted") && ResultShown(node.result, e, x)
    case NoError => node.error == "" && ResultShown(node.result, e, x)
  }

  /** Calls that get no trace: those to a precompile without value, unless precompiles are included. */
  predicate Silent(config: Config, c: Call) {
    c.enter.precompile && c.enter.value == 0 && !config.includePrecompiles
  }

  /** The positions of the calls that get a trace. */
  function Traced(config: Config, fs: seq<Call>): set<int> {
    set i | 0 <= i < |fs| && !Silent(config, fs[i])
  }

  /** The whole trace of a call that shows `value`. */
  predicate ShowsCall(config: Config, node: Node, c: Call, deep: bool, value: nat) {
    && node.kind == (match c.enter.op
                     case CREATE | CREATE2 => CreateKind
                     case SELFDESTRUCT => SuicideKind
                     case _ => CallKind)
    && ActionShown(node.action, c.enter, value)
    && ExitShown(node, c.enter, c.exit, config.compat && !deep && c.enter.op in {CREATE, CREATE2})
    && node.subtraces == |Traced(config, c.children)|
  }

  /**
   The value shown for the call at a path: its own, none for a static call inside the transaction, and for
   a delegated one what is shown for the call it was made from, if that is no self-destruction.
   */
  function ValueAt(config: Config, f: Call, path: seq<nat>): nat
    requires CallAt(config, f, path).Some?
    decreases |path|
  {
    var e := CallAt(config, f, path).value.enter;
    if path == [] then e.value else
      var above := path[..|path| - 1];
      CallAtFront(config, f, path);
      if e.op == STATICCALL then 0
      else if e.op == DELEGATECALL && CallAt(config, f, above).value.enter.op != SELFDESTRUCT then
        ValueAt(config, f, above)
      else e.value
  }

  /** The value a new trace shows, from what the innermost open trace shows if there is one. */
  function EnterValue(deep: bool, e: EnterArgs, caller: Option<Action>): nat {
    if !deep then e.value
    else
      match (e.op, caller)
      case (STATICCALL, _) => 0
      case (DELEGATECALL, Some(CallAction(_, _, _, _, _, value))) => value
      case (DELEGATECALL, Some(CreateAction(_, _, _, _, value))) => value
      case _ => e.value
  }

  /** Entering a call that gets a trace opens one with the action of the call. */
  lemma EnterShows(config: Config, s: State, deep: bool, e: EnterArgs)
    requires Consistent(s)
    requires EnterStep(config, s, deep, e).Some? && !Skipped(config, deep, e)
    ensures var nodes := EnterStep(config, s, deep, e).value.nodes;
            var caller := if deep then Some(s.nodes[s.stack[|s.stack| - 1]].action) else None;
            && |nodes| == |s.nodes| + 1
            && ActionShown(nodes[|s.nodes|].action, e, EnterValue(deep, e, caller))
  {
    hide ReportedGas, GasShown;
    ReportedIsShown(e.gas);
  }

  // ---------- Paths ----------

  lemma {:induction false} CallAtFront(config: Config, f: Call, path: seq<nat>)
    requires path != [] && CallAt(config, f, path).Some?
    ensures CallAt(config, f, path[..|path| - 1]).Some?
    decreases path
  {
    if |path| > 1 {
      var child := TracedChild(config, f.children, path[0]).value;
      CallAtFront(config, child, path[1..]);
      assert path[1..][..|path| - 2] == path[..|path| - 1][1..];
    }
  }

  /** The parent action of a call is the one of the call one step up. */
  lemma {:induction false} ParentIsAbove(config: Config, f: Call, deep: bool, parent: Option<Action>, path: seq<nat>)
    requires path != [] && CallAt(config, f, path).Some?
    requires CallAt(config, f, path[..|path| - 1]).Some?
    ensures var above := path[..|path| - 1];
            ParentAt(config, f, deep, parent, path) ==
            Some(ActionOf(deep || above != [], CallAt(config, f, above).value.enter,
                          ParentAt(config, f, deep, parent, above)))
    decreases path
  {
    hide ActionOf, TracedChild;
    var child := TracedChild(config, f.children, path[0]).value;
    var action := ActionOf(deep, f.enter, parent);
    if |path| == 1 {
      assert path[1..] == [] == path[..0];
      assert ParentAt(config, child, true, Some(action), []) == Some(action);
    } else {
      assert path[1..][..|path| - 2] == path[..|path| - 1][1..];
      ParentIsAbove(config, child, true, Some(action), path[1..]);
    }
  }

  /** The value in the action of the call at a path is the one the path gives. */
  lemma {:induction false} ValueInAction(config: Config, f: Call, path: seq<nat>)
    requires CallAt(config, f, path).Some?
    ensures var e := CallAt(config, f, path).value.enter;
            ActionShown(ActionOf(path != [], e, ParentAt(config, f, false, None, path)), e, ValueAt(config, f, path))
    decreases |path|
  {
    hide CallAt, ParentAt, ReportedGas, GasShown;
    var e := CallAt(config, f, path).value.enter;
    ReportedIsShown(e.gas);
    if path == [] {
    } else {
      var above := path[..|path| - 1];
      CallAtFront(config, f, path);
      ParentIsAbove(config, f, false, None, path);
      ValueInAction(config, f, above);
    }
  }

  lemma ReportedIsShown(gas: nat)
    ensures GasShown(ReportedGas(gas), gas)
  {
  }

  // ---------- Every field ----------

  lemma TracedNext(config: Config, front: seq<Call>, last: Call)
    ensures |Traced(config, front + [last])| == |Traced(config, front)| + if Silent(config, last) then 0 else 1
  {
    var fs := front + [last];
    assert forall i | 0 <= i < |front| :: fs[i] == front[i];
    if Silent(config, last) {
      assert Traced(config, fs) == Traced(config, front);
    } else {
      assert Traced(config, fs) == Traced(config, front) + {|front|};
    }
  }

  lemma {:induction false} EmittedCount(config: Config, fs: seq<Call>)
    ensures Emitted(config, fs) == |Traced(config, fs)|
  {
    hide Traced;
    if fs == [] {
      NothingTraced(config);
    } else {
      var front, last := fs[..|fs| - 1], fs[|fs| - 1];
      EmittedCount(config, front);
      TracedNext(config, front, last);
      assert front + [last] == fs;
    }
  }

  lemma NothingTraced(config: Config)
    ensures Traced(config, []) == {}
  {
  }

  /** The step `i` of a path leads to the one child with a trace that has `i` such children before it. */
  lemma {:induction false} TracedChildAt(config: Config, fs: seq<Call>, k: nat)
    requires k < |fs| && !Silent(config, fs[k])
    ensures var i := |Traced(config, fs[..k])|;
            i < Emitted(config, fs) && TracedChild(config, fs, i) == Some(fs[k])
  {
    hide Traced;
    var front := fs[..|fs| - 1];
    if k < |front| {
      TracedChildAt(config, front, k);
      assert front[..k] == fs[..k];
    } else {
      EmittedCount(config, front);
      assert front == fs[..k];
    }
  }

  /** A trace that shows a call by the tracer's specification shows all there is to it. */
  lemma ShowsFields(config: Config, node: Node, c: Call, deep: bool, parent: Option<Action>, value: nat)
    requires Shows(config, node, c, deep, parent)
    requires ActionShown(ActionOf(deep, c.enter, parent), c.enter, value)
    ensures ShowsCall(config, node, c, deep, value)
  {
    hide ActionOf, ActionShown, Emitted;
    EmittedCount(config, c.children);
  }

  /** The trace at an address says of the call which the address leads to what was told on entering and leaving it. */
  lemma TraceShowsCall(config: Config, f: Call, j: nat)
    requires j < |Flatten(config, f, false, [], None)|
    ensures var node := Flatten(config, f, false, [], None)[j];
            var c := CallAt(config, f, node.address);
            && c.Some?
            && ShowsCall(config, node, c.value, node.address != [], ValueAt(config, f, node.address))
  {
    hide Shows, ShowsCall, CallAt, Flatten, ParentAt, ActionOf, ValueAt;
    var path := Flatten(config, f, false, [], None)[j].address;
    AddressIsPath(config, f, false, [], None, j);
    assert path[0..] == path;
    ValueInAction(config, f, path);
    ShowsFields(config, Flatten(config, f, false, [], None)[j], CallAt(config, f, path).value, path != [],
                ParentAt(config, f, false, None, path), ValueAt(config, f, path));
  }

  /** And every call that a path leads to has a trace at that address. */
  lemma {:induction false} PathIsTraced(config: Config, f: Call, deep: bool, address: seq<nat>,
                                        parent: Option<Action>, path: seq<nat>)
    requires CallAt(config, f, path).Some?
    ensures exists node :: node in Flatten(config, f, deep, address, parent) && node.address == address + path
    decreases path
  {
    hide ActionOf, InitialResult, TracedChild;
    var nodes := Flatten(config, f, deep, address, parent);
    if path == [] {
      assert nodes[0].address == address + path;
    } else {
      var child := TracedChild(config, f.children, path[0]).value;
      var action := Opened(deep, f.enter, parent, address).action;
      var below := address + [path[0]];
      ChildIsTraced(config, f.children, address, action, path[0]);
      PathIsTraced(config, child, true, below, Some(action), path[1..]);
      var node :| node in Flatten(config, child, true, below, Some(action)) && node.address == below + path[1..];
      assert node.address == address + path;
      assert node in FlattenAll(config, f.children, address, action);
    }
  }

  lemma {:induction false} ChildIsTraced(config: Config, fs: seq<Call>, address: seq<nat>, parent: Action, i: nat)
    requires TracedChild(config, fs, i).Some?
    ensures var child := TracedChild(config, fs, i).value;
            forall node | node in Flatten(config, child, true, address + [i], Some(parent)) ::
              node in FlattenAll(config, fs, address, parent)
  {
    hide Flatten, Skipped;
    var front, last := fs[..|fs| - 1], fs[|fs| - 1];
    if Skipped(config, true, last.enter) || Emitted(config, front) != i {
      ChildIsTraced(config, front, address, parent, i);
    }
  }
}
