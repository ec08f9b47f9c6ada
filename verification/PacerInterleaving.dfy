/**
The counter and the pending-flow set of shape mode when the handler and the
releasing goroutines interleave instruction by instruction. What the pacer
decides is left open, so the result holds for every decision it can make.
*/
module PacerInterleaving {

  /** Where the one handler goroutine is between its shared accesses. */
  datatype Handler<Flow> =
    | Idle
    | Absent(flow: Flow)   // the flow was not in the pending set
    | Checked(flow: Flow)  // the counter was below its limit and the pacer is marked pending
    | Stored(flow: Flow)   // the flow was added to the pending set
    | Added(flow: Flow)    // the counter was increased; the goroutine is about to start

  /** Where a releasing goroutine is. */
  datatype Stage = Sleeping | Released | Deleted

  datatype Goroutine<Flow> = Goroutine(flow: Flow, stage: Stage)

  datatype State<Flow> = State(
    handler: Handler<Flow>,
    pendingDelays: int,
    flows: set<Flow>,
    goroutines: map<nat, Goroutine<Flow>>)

  datatype Action<Flow> =
    | LookUp(flow: Flow)     // main.go: Load of the pending set
    | Decline                // any branch that ends without a delay
    | CheckLimit             // atomic load of the counter and the test against the limit
    | StoreFlow
    | AddOne
    | Start(id: nat)
    | WakeUp(id: nat)        // the sleep is over, early or late, and the pacer was updated
    | DeleteFlow(id: nat)
    | Finish(id: nat)        // the deferred decrement

  predicate Enabled<Flow>(st: State<Flow>, a: Action<Flow>)
  {
    match a
    case LookUp(_) => st.handler.Idle?
    case Decline => st.handler.Absent?
    case CheckLimit => st.handler.Absent?
    case StoreFlow => st.handler.Checked?
    case AddOne => st.handler.Stored?
    case Start(id) => st.handler.Added? && id !in st.goroutines
    case WakeUp(id) => id in st.goroutines && st.goroutines[id].stage == Sleeping
    case DeleteFlow(id) => id in st.goroutines && st.goroutines[id].stage == Released
    case Finish(id) => id in st.goroutines && st.goroutines[id].stage == Deleted
  }

  function Step<Flow>(limit: int, st: State<Flow>, a: Action<Flow>): State<Flow>
    requires Enabled(st, a)
  {
    match a
    case LookUp(flow) => if flow in st.flows then st else st.(handler := Absent(flow))
    case Decline => st.(handler := Idle)
    case CheckLimit =>
      if limit > 0 && st.pendingDelays >= limit then st.(handler := Idle)
      else st.(handler := Checked(st.handler.flow))
    case StoreFlow => st.(flows := st.flows + {st.handler.flow}, handler := Stored(st.handler.flow))
    case AddOne => st.(pendingDelays := st.pendingDelays + 1, handler := Added(st.handler.flow))
    case Start(id) =>
      st.(goroutines := st.goroutines[id := Goroutine(st.handler.flow, Sleeping)], handler := Idle)
    case WakeUp(id) => st.(goroutines := st.goroutines[id := st.goroutines[id].(stage := Released)])
    case DeleteFlow(id) =>
      st.(flows := st.flows - {st.goroutines[id].flow},
          goroutines := st.goroutines[id := st.goroutines[id].(stage := Deleted)])
    case Finish(id) => st.(pendingDelays := st.pendingDelays - 1, goroutines := st.goroutines - {id})
  }

  /** The state after the actions, if each was enabled in its turn. */
  function Run<Flow>(limit: int, actions: seq<Action<Flow>>): (r: (bool, State<Flow>))
  {
    if actions == [] then (true, State(Idle, 0, {}, map[]))
    else
      var n := |actions| - 1;
      var (ok, st) := Run(limit, actions[..n]);
      if ok && Enabled(st, actions[n]) then (true, Step(limit, st, actions[n])) else (false, st)
  }

  // ----- a handler and a goroutine that nothing interrupts -----

  /** A flow that is pending is turned away, and so is one that finds the limit reached; nothing changes. */
  lemma TurnedAway<Flow>(limit: int, st: State<Flow>, flow: Flow)
    requires st.handler.Idle?
    ensures var looked := Step(limit, st, LookUp(flow));
            if flow in st.flows then looked == st
            else
              && Enabled(looked, CheckLimit) && Enabled(looked, Decline) && Step(limit, looked, Decline) == st
              && (Step(limit, looked, CheckLimit) == st <==> 0 < limit <= st.pendingDelays)
              && (Enabled(Step(limit, looked, CheckLimit), StoreFlow) <==> !(0 < limit <= st.pendingDelays))
  {
  }

  /**
  Any other flow joins the pending set with one goroutine more on the counter; when that goroutine has run, set, counter
  and goroutines are as they were.
  */
  lemma LifeOfDelayed<Flow>(limit: int, st: State<Flow>, flow: Flow, id: nat)
    requires st.handler.Idle? && flow !in st.flows && id !in st.goroutines && !(0 < limit <= st.pendingDelays)
    ensures var checked := Step(limit, Step(limit, st, LookUp(flow)), CheckLimit);
            && Enabled(checked, StoreFlow)
            && var started := Step(limit, Step(limit, Step(limit, checked, StoreFlow), AddOne), Start(id));
            && started == State(Idle, st.pendingDelays + 1, st.flows + {flow},
                                st.goroutines[id := Goroutine(flow, Sleeping)])
            && Step(limit, Step(limit, Step(limit, started, WakeUp(id)), DeleteFlow(id)), Finish(id)) == st
  {
    var checked := Step(limit, Step(limit, st, LookUp(flow)), CheckLimit);
    var started := Step(limit, Step(limit, Step(limit, checked, StoreFlow), AddOne), Start(id));
    var woken := Step(limit, started, WakeUp(id));
    assert (st.flows + {flow}) - {flow} == st.flows;
    assert Step(limit, woken, DeleteFlow(id)).goroutines - {id} == st.goroutines;
  }

  // ----- the invariant -----

  /** The goroutine has not yet deleted its flow. */
  predicate Holds<Flow>(st: State<Flow>, id: nat, flow: Flow)
  {
    id in st.goroutines && st.goroutines[id].flow == flow && st.goroutines[id].stage != Deleted
  }

  predicate HandlerHolds<Flow>(st: State<Flow>, flow: Flow)
  {
    (st.handler.Stored? || st.handler.Added?) && st.handler.flow == flow
  }

  /** The counter is the number of goroutines that have not finished, plus the one about to start. */
  predicate CounterExact<Flow>(st: State<Flow>)
  {
    st.pendingDelays == |st.goroutines| + if st.handler.Added? then 1 else 0
  }

  predicate CounterBounded<Flow>(limit: int, st: State<Flow>)
  {
    limit > 0 ==>
      && st.pendingDelays <= limit
      && (st.handler.Checked? || st.handler.Stored? ==> st.pendingDelays < limit)
  }

  /** The pending set is what the goroutines and the handler hold, and each flow is held once. */
  ghost predicate FlowsExact<Flow(!new)>(st: State<Flow>)
  {
    && (forall flow :: flow in st.flows <==> HandlerHolds(st, flow) || exists id :: Holds(st, id, flow))
    && (forall id, id', flow :: Holds(st, id, flow) && Holds(st, id', flow) ==> id == id')
    && (forall id, flow :: Holds(st, id, flow) ==> !HandlerHolds(st, flow))
    && (st.handler.Absent? || st.handler.Checked? ==> st.handler.flow !in st.flows)
  }

  lemma MapInsert<V>(m: map<nat, V>, k: nat, v: V)
    ensures k !in m ==> |m[k := v]| == |m| + 1
    ensures k in m ==> |m[k := v]| == |m|
  {
    if k !in m {
      assert m[k := v].Keys == m.Keys + {k};
      assert |m.Keys + {k}| == |m.Keys| + 1;
    } else {
      assert m[k := v].Keys == m.Keys;
    }
  }

  lemma MapRemove<V>(m: map<nat, V>, k: nat)
    requires k in m
    ensures |m - {k}| == |m| - 1
  {
    assert (m - {k}).Keys == m.Keys - {k};
    assert |m.Keys - {k}| == |m.Keys| - 1;
  }

  lemma StepCounter<Flow>(limit: int, st: State<Flow>, a: Action<Flow>)
    requires Enabled(st, a) && CounterExact(st) && CounterBounded(limit, st)
    ensures CounterExact(Step(limit, st, a)) && CounterBounded(limit, Step(limit, st, a))
  {
    match a
    case Start(id) => MapInsert(st.goroutines, id, Goroutine(st.handler.flow, Sleeping));
    case WakeUp(id) => MapInsert(st.goroutines, id, st.goroutines[id].(stage := Released));
    case DeleteFlow(id) => MapInsert(st.goroutines, id, st.goroutines[id].(stage := Deleted));
    case Finish(id) => MapRemove(st.goroutines, id);
    case _ =>
  }

  lemma StepHolds<Flow>(limit: int, st: State<Flow>, a: Action<Flow>, id: nat, flow: Flow)
    requires Enabled(st, a)
    ensures Holds(Step(limit, st, a), id, flow)
            <==> if a == Start(id) then flow == st.handler.flow
                 else Holds(st, id, flow) && a != DeleteFlow(id)
  {
  }

  lemma StepFlows<Flow(!new)>(limit: int, st: State<Flow>, a: Action<Flow>)
    requires Enabled(st, a) && FlowsExact(st)
    ensures FlowsExact(Step(limit, st, a))
  {
    var after := Step(limit, st, a);
    forall id, flow
      ensures Holds(after, id, flow)
              <==> if a == Start(id) then flow == st.handler.flow else Holds(st, id, flow) && a != DeleteFlow(id)
    {
      StepHolds(limit, st, a, id, flow);
    }
    hide Holds;
    forall flow
      ensures flow in after.flows <==> HandlerHolds(after, flow) || exists id :: Holds(after, id, flow)
    {
      FlowKept(limit, st, a, flow);
    }
  }

  lemma FlowKept<Flow(!new)>(limit: int, st: State<Flow>, a: Action<Flow>, flow: Flow)
    requires Enabled(st, a) && FlowsExact(st)
    ensures var after := Step(limit, st, a);
            flow in after.flows <==> HandlerHolds(after, flow) || exists id :: Holds(after, id, flow)
  {
    var after := Step(limit, st, a);
    if id :| Holds(st, id, flow) && a != DeleteFlow(id) {
      StepHolds(limit, st, a, id, flow);
    }
    if id :| Holds(after, id, flow) {
      StepHolds(limit, st, a, id, flow);
    }
    if a.Start? {
      StepHolds(limit, st, a, a.id, flow);
    }
    if a.DeleteFlow? && Holds(st, a.id, flow) {
      StepHolds(limit, st, a, a.id, flow);
    }
  }

  /**
  In every interleaving, with timers as late as they like: the counter never goes below zero nor above its
  limit, it counts exactly the goroutines that have not finished, and the pending set corresponds one to one
  to the goroutines that have not deleted their flow, so that no flow is held twice.
  */
  lemma {:induction false} InterleavingIsSafe<Flow(!new)>(limit: int, actions: seq<Action<Flow>>)
    requires Run(limit, actions).0
    ensures var st := Run(limit, actions).1;
            CounterExact(st) && CounterBounded(limit, st) && FlowsExact(st) && st.pendingDelays >= 0
  {
    hide FlowsExact, Step, Enabled;
    if actions == [] {
      EmptyFlows<Flow>();
    } else {
      var n := |actions| - 1;
      InterleavingIsSafe(limit, actions[..n]);
      var st := Run(limit, actions[..n]).1;
      StepCounter(limit, st, actions[n]);
      StepFlows(limit, st, actions[n]);
    }
  }

  lemma EmptyFlows<Flow(!new)>()
    ensures FlowsExact(State<Flow>.State(Idle, 0, {}, map[]))
  {
  }
}
