/**
 The tracer itself: traces are objects that stay on a stack while their call is open and are
 completed in place when it ends. Every event is the step of the state machine on the tracer's view.
 */
module OeTracer {
  import opened Wrappers
  import opened ByteStrings
  import opened CallTrace
  import opened TraceContent

  class ParityTrace {
    var kind: Kind
    var action: Action
    var result: Outcome
    var error: string
    var subtraces: nat
    var traceAddress: seq<nat>

    constructor (node: Node)
      ensures View() == node
    {
      kind, action, result := node.kind, node.action, node.result;
      error, subtraces, traceAddress := node.error, node.subtraces, node.address;
    }

    function View(): Node
      reads this
    {
      Node(kind, action, result, error, subtraces, traceAddress)
    }

    /** The result, and an error if there is one, when the call ends. */
    method Close(config: Config, deep: bool, x: ExitArgs)
      modifies this
      ensures View() == Closed(config, deep, old(View()), x)
    {
      var ignoreError := config.compat && !deep && kind == CreateKind;
      if x.error != NoError && !ignoreError {
        if x.error == Reverted {
          error := "Reverted";
          result := WithOutput(result, x.gasUsed, x.output);
        } else {
          result := NoResult;
          error := x.error.message;
        }
      } else {
        if x.output != [] {
          result := WithOutput(result, x.gasUsed, x.output);
        }
        result := WithOutput(result, x.gasUsed, CurrentOutput(result));
      }
    }
  }

  class Tracer {
    const config: Config
    var traces: seq<ParityTrace>
    var traceStack: seq<ParityTrace>
    var traceAddr: seq<nat>
    var precompile: bool
    var output: seq<Byte>
    /** What the traces hold, and where the open ones are. */
    ghost var nodes: seq<Node>
    ghost var positions: seq<nat>
    ghost var Repr: set<ParityTrace>

    ghost predicate Valid()
      reads this`traces, this`traceStack, this`nodes, this`positions, this`Repr, Repr
    {
      && (forall i | 0 <= i < |traces| :: traces[i] in Repr)
      && (forall i, j | 0 <= i < j < |traces| :: traces[i] != traces[j])
      && |nodes| == |traces|
      && (forall i | 0 <= i < |traces| :: traces[i].View() == nodes[i])
      && |positions| == |traceStack|
      && forall i | 0 <= i < |positions| :: positions[i] < |traces| && traces[positions[i]] == traceStack[i]
    }

    ghost function View(): (s: State)
      requires Valid()
      reads this, Repr
      ensures Consistent(s)
    {
      State(nodes, positions, traceAddr, precompile, output)
    }

    /** What the innermost open trace shows, for a call from inside the transaction. */
    ghost function CallerAction(depth: nat): Option<Action>
      requires Valid()
      reads this, Repr
    {
      if depth != 0 && positions != [] then Some(nodes[positions[|positions| - 1]].action) else None
    }

    constructor (config: Config)
      ensures Valid() && this.config == config && Repr == {}
      ensures View() == State([], [], [], false, [])
    {
      this.config := config;
      traces, traceStack, traceAddr, nodes, positions := [], [], [], [], [];
      precompile, output, Repr := false, [], {};
    }

    method OnEnter(depth: nat, e: EnterArgs)
      requires Valid()
      requires EnterStep(config, View(), depth != 0, e).Some?
      modifies this, Repr
      ensures Valid() && fresh(Repr - old(Repr))
      ensures EnterStep(config, old(View()), depth != 0, e) == Some(View())
      ensures config.includePrecompiles || !e.precompile || depth == 0 || e.value != 0 ==>
                && |nodes| == |old(nodes)| + 1
                && ActionShown(nodes[|old(nodes)|].action, e, EnterValue(depth != 0, e, old(CallerAction(depth))))
    {
      hide Opened, ActionOf, Valid, ActionShown, EnterValue;
      var deep := depth != 0;
      ghost var before := View();
      if config.includePrecompiles || !e.precompile || !deep || e.value != 0 {
        EnterShows(config, before, deep, e);
      }
      if e.precompile && deep && e.value == 0 {
        precompile := true;
        if !config.includePrecompiles {
          return;
        }
      }
      var parent: Option<Action> := None;
      if deep {
        parent := CountChild();
      }
      Push(Opened(deep, e, parent, traceAddr));
    }

    method Push(node: Node)
      requires Valid()
      modifies this`traces, this`traceStack, this`nodes, this`positions, this`Repr
      ensures Valid() && fresh(Repr - old(Repr))
      ensures nodes == old(nodes) + [node] && positions == old(positions) + [|old(nodes)|]
    {
      var trace := new ParityTrace(node);
      positions := positions + [|traces|];
      nodes := nodes + [node];
      traces := traces + [trace];
      traceStack := traceStack + [trace];
      Repr := Repr + {trace};
    }

    /** The innermost open trace gets one more child, and the address goes one level down. */
    method CountChild() returns (parent: Option<Action>)
      requires Valid() && positions != []
      modifies this`traceAddr, this`nodes, Repr
      ensures Valid()
      ensures var top := old(positions[|positions| - 1]);
              && parent == Some(old(nodes)[top].action)
              && traceAddr == old(traceAddr) + [old(nodes)[top].subtraces]
              && nodes == old(nodes)[top := old(nodes)[top].(subtraces := old(nodes)[top].subtraces + 1)]
    {
      var top := traceStack[|traceStack| - 1];
      ghost var p := positions[|positions| - 1];
      parent := Some(top.action);
      traceAddr := traceAddr + [top.subtraces];
      top.subtraces := top.subtraces + 1;
      nodes := nodes[p := top.View()];
    }

    method OnExit(depth: nat, x: ExitArgs)
      requires Valid()
      requires ExitStep(config, View(), depth != 0, x).Some?
      modifies this, Repr
      ensures Valid() && Repr == old(Repr)
      ensures ExitStep(config, old(View()), depth != 0, x) == Some(View())
    {
      hide Closed, Valid;
      var deep := depth != 0;
      if precompile {
        precompile := false;
        if !config.includePrecompiles {
          return;
        }
      }
      if !deep {
        output := x.output;
      }
      CloseTop(deep, x);
      if deep {
        traceAddr := traceAddr[..|traceAddr| - 1];
      }
    }

    /** The innermost open trace is completed and taken off the stack. */
    method CloseTop(deep: bool, x: ExitArgs)
      requires Valid() && positions != []
      modifies this`traceStack, this`nodes, this`positions, Repr
      ensures Valid() && positions == old(positions)[..|old(positions)| - 1]
      ensures var top := old(positions[|positions| - 1]);
              nodes == old(nodes)[top := Closed(config, deep, old(nodes)[top], x)]
    {
      hide Closed;
      var top := traceStack[|traceStack| - 1];
      ghost var p := positions[|positions| - 1];
      top.Close(config, deep, x);
      nodes := nodes[p := top.View()];
      traceStack := traceStack[..|traceStack| - 1];
      positions := positions[..|positions| - 1];
    }

    /** The events of a run, one after another. */
    method Feed(events: seq<Event>)
      requires Valid()
      requires Run(config, View(), events).Some?
      modifies this, Repr
      ensures Valid()
      ensures Run(config, old(View()), events) == Some(View())
    {
      hide Run, EnterStep, ExitStep;
      ghost var start := View();
      RunNothing(config, start, events);
      for i := 0 to |events|
        invariant Valid()
        invariant fresh(Repr - old(Repr))
        invariant Run(config, start, events[..i]) == Some(View())
      {
        RunNext(config, start, events, i);
        match events[i]
        case Enter(depth, e) => OnEnter(depth, e);
        case Exit(depth, x) => OnExit(depth, x);
      }
      assert events[..|events|] == events;
    }
  }

  lemma RunNothing(config: Config, s: State, events: seq<Event>)
    requires Consistent(s)
    ensures Run(config, s, events[..0]) == Some(s)
  {
  }

  /** A run that goes through takes its next step. */
  lemma RunNext(config: Config, s: State, events: seq<Event>, i: nat)
    requires Consistent(s)
    requires i < |events|
    requires Run(config, s, events).Some?
    requires Run(config, s, events[..i]).Some?
    ensures Step(config, Run(config, s, events[..i]).value, events[i]).Some?
    ensures Run(config, s, events[..i + 1]) == Step(config, Run(config, s, events[..i]).value, events[i])
  {
    RunPrefix(config, s, events, i + 1);
    assert events[..i + 1][..i] == events[..i];
  }

  lemma {:induction false} RunPrefix(config: Config, s: State, events: seq<Event>, k: nat)
    requires Consistent(s)
    requires k <= |events|
    requires Run(config, s, events).Some?
    ensures Run(config, s, events[..k]).Some?
  {
    assert events[..k] + events[k..] == events;
    RunAppend(config, s, events[..k], events[k..]);
  }

  /** A new tracer, fed the events of one transaction, holds the pre-order traces of its call tree. */
  method TraceTransaction(config: Config, f: Call) returns (tracer: Tracer)
    requires Regular(f)
    ensures fresh(tracer) && tracer.Valid()
    ensures tracer.View() == State(Flatten(config, f, false, [], None), [], [], false, f.exit.output)
    ensures forall trace | trace in tracer.traces ::
              var path := trace.traceAddress;
              var c := CallAt(config, f, path);
              c.Some? && ShowsCall(config, trace.View(), c.value, path != [], ValueAt(config, f, path))
    ensures forall path | CallAt(config, f, path).Some? ::
              exists trace :: trace in tracer.traces && trace.traceAddress == path
  {
    hide Flatten, Run, ShowsCall, ValueAt, CallAt, Regular, EventsOf;
    tracer := new Tracer(config);
    RunTransaction(config, f);
    tracer.Feed(EventsOf(f, 0));
    assert tracer.nodes == Flatten(config, f, false, [], None);
    forall j | 0 <= j < |tracer.nodes|
      ensures var path := tracer.traces[j].traceAddress;
              var c := CallAt(config, f, path);
              c.Some? && ShowsCall(config, tracer.traces[j].View(), c.value, path != [], ValueAt(config, f, path))
    {
      TraceShowsCall(config, f, j);
    }
    forall path | CallAt(config, f, path).Some?
      ensures exists trace :: trace in tracer.traces && trace.traceAddress == path
    {
      PathIsTraced(config, f, false, [], None, path);
      var node :| node in tracer.nodes && node.address == [] + path;
      var j :| 0 <= j < |tracer.nodes| && tracer.nodes[j] == node;
      assert tracer.traces[j].traceAddress == path;
    }
  }
}
