/** When one route links to the next, and what a route is, in terms of the calls of the program alone. */
module RouteLinks {
  import opened Options
  import opened Provenance
  import opened CallCycles
  import opened RouteSpec

  /** The call stands in the caller at the place. */
  predicate StandsAt(call: CallEdge, caller: CallableId, place: Anchor) {
    && call.caller == caller && call.callsite.module_ == place.module_
    && call.callsite.start == place.start && call.callsite.end == place.end
  }

  /** It stands there and no other call does. */
  ghost predicate StandsAlone(calls: seq<CallEdge>, call: CallEdge, caller: CallableId, place: Anchor) {
    exists i | 0 <= i < |calls| && calls[i] == call && StandsAt(calls[i], caller, place) ::
      forall j | 0 <= j < |calls| && StandsAt(calls[j], caller, place) :: j == i
  }

  /** The value that ends in an argument of the call starts again in the parameter of that number of its target. */
  predicate Enters(g: CallGraph, first: Route, second: Route, call: CallEdge) {
    && first.sink.CallArgument? && second.origin.ParameterValue?
    && first.sink.argumentIndex == second.origin.index && call.target == second.originCallable
    && call.target in g.parameterCounts && second.origin.index < g.parameterCounts[call.target]
  }

  /** The value that its target returns starts again in the result of the call. */
  predicate Leaves(first: Route, second: Route, call: CallEdge) {
    first.sink.Return? && second.origin.CallResult? && call.target == first.sinkCallable
  }

  /** A call that is alone in its place, known exactly, safe in its arguments and on no cycle. */
  ghost predicate Links(g: CallGraph, first: Route, second: Route, call: CallEdge) {
    && call.dispatchExact && call.argumentsSafe && !OnCycle(g.calls, call)
    && if first.sink.CallArgument? then
         Enters(g, first, second, call) && StandsAlone(g.calls, call, first.sinkCallable, first.sink.callsite)
       else
         Leaves(first, second, call) && StandsAlone(g.calls, call, second.originCallable, second.origin.callsite)
  }

  // ----- calls that stand alone -----

  ghost predicate Alone(calls: seq<CallEdge>, call: CallEdge, key: CallKey) {
    exists i | 0 <= i < |calls| && calls[i] == call && KeyAt(calls[i].caller, calls[i].callsite) == key ::
      forall j | 0 <= j < |calls| && KeyAt(calls[j].caller, calls[j].callsite) == key :: j == i
  }

  lemma {:induction false} NoneIsFound(calls: seq<CallEdge>, key: CallKey)
    ensures CallsAt(calls, key) == [] <==>
            forall j | 0 <= j < |calls| :: KeyAt(calls[j].caller, calls[j].callsite) != key
  {
    if calls != [] {
      NoneIsFound(calls[..|calls| - 1], key);
    }
  }

  lemma {:induction false} OneIsFound(calls: seq<CallEdge>, call: CallEdge, key: CallKey)
    ensures CallsAt(calls, key) == [call] <==> Alone(calls, call, key)
  {
    if calls != [] {
      var n := |calls| - 1;
      var front, last := calls[..n], calls[n];
      if KeyAt(last.caller, last.callsite) == key {
        NoneIsFound(front, key);
        if CallsAt(calls, key) == [call] {
          assert forall j | 0 <= j < n :: front[j] == calls[j];
          assert |CallsAt(front, key)| == 0 && CallsAt(calls, key)[0] == last;
          assert calls[n] == call;
          forall j | 0 <= j < |calls| && KeyAt(calls[j].caller, calls[j].callsite) == key
            ensures j == n
          {
          }
        }
        if Alone(calls, call, key) {
          var i :| 0 <= i < |calls| && calls[i] == call && KeyAt(calls[i].caller, calls[i].callsite) == key
                   && forall j | 0 <= j < |calls| && KeyAt(calls[j].caller, calls[j].callsite) == key :: j == i;
          assert n == i;
          assert forall j | 0 <= j < n :: front[j] == calls[j];
          assert CallsAt(front, key) == [];
        }
      } else {
        OneIsFound(front, call, key);
        AloneInFront(calls, call, key);
      }
    }
  }

  lemma AloneInFront(calls: seq<CallEdge>, call: CallEdge, key: CallKey)
    requires calls != []
    requires KeyAt(calls[|calls| - 1].caller, calls[|calls| - 1].callsite) != key
    ensures Alone(calls, call, key) <==> Alone(calls[..|calls| - 1], call, key)
  {
    var n := |calls| - 1;
    var front := calls[..n];
    if Alone(calls, call, key) {
      var i :| 0 <= i < |calls| && calls[i] == call && KeyAt(calls[i].caller, calls[i].callsite) == key
               && forall j | 0 <= j < |calls| && KeyAt(calls[j].caller, calls[j].callsite) == key :: j == i;
      assert front[i] == call;
    }
    if Alone(front, call, key) {
      var i :| 0 <= i < |front| && front[i] == call && KeyAt(front[i].caller, front[i].callsite) == key
               && forall j | 0 <= j < |front| && KeyAt(front[j].caller, front[j].callsite) == key :: j == i;
      assert calls[i] == call;
      forall j | 0 <= j < |calls| && KeyAt(calls[j].caller, calls[j].callsite) == key
        ensures j == i
      {
        assert front[j] == calls[j];
      }
    }
  }

  lemma AloneStands(calls: seq<CallEdge>, call: CallEdge, caller: CallableId, place: Anchor)
    ensures Alone(calls, call, KeyAt(caller, place)) <==> StandsAlone(calls, call, caller, place)
  {
    assert forall c: CallEdge :: KeyAt(c.caller, c.callsite) == KeyAt(caller, place) <==> StandsAt(c, caller, place);
  }

  lemma ExactMeans(calls: seq<CallEdge>, call: CallEdge, caller: CallableId, place: Anchor)
    ensures Exact(CallsAt(calls, KeyAt(caller, place))) == Some(call) <==>
            StandsAlone(calls, call, caller, place) && call.dispatchExact && call.argumentsSafe
  {
    hide CallsAt, StandsAlone, Alone;
    OneIsFound(calls, call, KeyAt(caller, place));
    AloneStands(calls, call, caller, place);
  }

  /** Two routes are linked by exactly the calls that link them. */
  lemma LinkCallMeans(g: CallGraph, first: Route, second: Route, call: CallEdge)
    ensures LinkCall(g, first, second) == Some(call) <==> Links(g, first, second, call)
  {
    hide CallsAt, StandsAlone, OnCycle, Exact;
    match (first.sink, second.origin)
    case (CallArgument(callsite, _, _, _, _), ParameterValue(_, _, _, _)) =>
      ExactMeans(g.calls, call, first.sinkCallable, callsite);
    case (Return(_, _), CallResult(callsite, _, _)) =>
      ExactMeans(g.calls, call, second.originCallable, callsite);
    case _ =>
  }

  // ----- chains and routes -----

  /** Base routes of which each is linked to the next by the call in its place. */
  ghost predicate LinkedBy(g: CallGraph, bases: seq<Route>, chain: seq<nat>, calls: seq<CallEdge>) {
    && InRange(bases, chain) && |calls| == |chain| - 1
    && forall k | 0 <= k < |calls| :: Links(g, bases[chain[k]], bases[chain[k + 1]], calls[k])
  }

  /**
   * The route goes along the chain: it starts where the first base route does and ends where the last does, takes
   * the steps of all in turn, passes their callables and, between them, the places of the calls.
   */
  ghost predicate GoesAlong(bases: seq<Route>, chain: seq<nat>, calls: seq<CallEdge>, r: Route)
    requires InRange(bases, chain) && |calls| == |chain| - 1
  {
    var first, last := bases[chain[0]], bases[chain[|chain| - 1]];
    && r.originCallable == first.originCallable && r.origin == first.origin
    && r.sinkCallable == last.sinkCallable && r.sink == last.sink && r.handlerSink == last.handlerSink
    && r.callablePath == seq(|chain|, k requires 0 <= k < |chain| => bases[chain[k]].originCallable)
    && r.callsites == seq(|calls|, k requires 0 <= k < |calls| => calls[k].callsite)
    && r.steps == AllSteps(bases, chain)
    && r.basePathIds == chain
    && (r.blocked <==> exists i :: i in chain && bases[i].blocked)
  }

  /** The calls that link a chain. */
  ghost function CallsOf(g: CallGraph, bases: seq<Route>, chain: seq<nat>): (calls: seq<CallEdge>)
    requires IsChain(g, bases, chain)
    ensures |calls| == |chain| - 1
    ensures forall k | 0 <= k < |calls| :: Some(calls[k]) == LinkAt(g, bases, chain, k)
  {
    seq(|chain| - 1, k requires 0 <= k < |chain| - 1 => LinkAt(g, bases, chain, k).value)
  }

  lemma ChainIsLinked(g: CallGraph, bases: seq<Route>, chain: seq<nat>)
    requires IsChain(g, bases, chain)
    ensures LinkedBy(g, bases, chain, CallsOf(g, bases, chain))
  {
    hide LinkCall, Links;
    var calls := CallsOf(g, bases, chain);
    forall k | 0 <= k < |calls|
      ensures Links(g, bases[chain[k]], bases[chain[k + 1]], calls[k])
    {
      LinkCallMeans(g, bases[chain[k]], bases[chain[k + 1]], calls[k]);
    }
  }

  lemma LinkedIsChain(g: CallGraph, bases: seq<Route>, chain: seq<nat>, calls: seq<CallEdge>)
    requires LinkedBy(g, bases, chain, calls)
    ensures IsChain(g, bases, chain) && calls == CallsOf(g, bases, chain)
  {
    hide LinkCall, Links;
    forall k | 0 <= k < |chain| - 1
      ensures LinkAt(g, bases, chain, k) == Some(calls[k])
    {
      LinkCallMeans(g, bases[chain[k]], bases[chain[k + 1]], calls[k]);
    }
    assert calls == CallsOf(g, bases, chain);
  }

  /** A route is that of a chain exactly if it goes along base routes that are linked by calls. */
  lemma RouteIffLinked(g: CallGraph, bases: seq<Route>, chain: seq<nat>, r: Route)
    requires Numbered(bases)
    ensures IsChain(g, bases, chain) && r == RouteOf(g, bases, chain) <==>
            exists calls :: LinkedBy(g, bases, chain, calls) && GoesAlong(bases, chain, calls, r)
  {
    hide LinkAt, Links, RouteOf, IsChain, Numbered, GoesAlong;
    if IsChain(g, bases, chain) && r == RouteOf(g, bases, chain) {
      ChainIsLinked(g, bases, chain);
      RouteGoesAlong(g, bases, chain);
    }
    if calls :| LinkedBy(g, bases, chain, calls) && GoesAlong(bases, chain, calls, r) {
      LinkedIsChain(g, bases, chain, calls);
      RouteGoesAlong(g, bases, chain);
      OneGoesAlong(bases, chain, calls, r, RouteOf(g, bases, chain));
    }
  }

  lemma OneGoesAlong(bases: seq<Route>, chain: seq<nat>, calls: seq<CallEdge>, r: Route, r': Route)
    requires InRange(bases, chain) && |calls| == |chain| - 1
    requires GoesAlong(bases, chain, calls, r) && GoesAlong(bases, chain, calls, r')
    ensures r == r'
  {
  }

  lemma RouteGoesAlong(g: CallGraph, bases: seq<Route>, chain: seq<nat>)
    requires Numbered(bases) && IsChain(g, bases, chain)
    ensures GoesAlong(bases, chain, CallsOf(g, bases, chain), RouteOf(g, bases, chain))
  {
    hide LinkAt, RouteOf, Numbered;
    RouteOfMeans(g, bases, chain);
    RouteOfAt(g, bases, chain);
    BlockedIffOneIs(g, bases, chain);
  }
}
