/** Routes of values through several callables, and the chains of base routes that they stand for. */
module RouteSpec {
  import opened Options
  import opened Provenance
  import opened CallCycles

  const MAX_ROUTES := 1024
  const MAX_DEPTH := 12

  datatype Route = Route(originCallable: CallableId, origin: Origin<Anchor>,
                         sinkCallable: CallableId, sink: Sink<Anchor>,
                         steps: seq<Step<Anchor>>, callablePath: seq<CallableId>, callsites: seq<Anchor>,
                         basePathIds: seq<nat>, blocked: bool, handlerSink: bool)

  /** All calls, and how many parameters each callable with a known flow has. */
  datatype CallGraph = CallGraph(calls: seq<CallEdge>, parameterCounts: map<CallableId, nat>)

  /** The call that would link two routes, whether or not it is recursive. */
  function Candidate(g: CallGraph, first: Route, second: Route): Option<CallEdge> {
    match (first.sink, second.origin)
    case (CallArgument(callsite, _, _, argument, _), ParameterValue(index, _, _, _)) =>
      var call := Exact(CallsAt(g.calls, KeyAt(first.sinkCallable, callsite)));
      if && argument == index
         && call.Some? && call.value.target == second.originCallable
         && call.value.target in g.parameterCounts && argument < g.parameterCounts[call.value.target]
      then call else None
    case (Return(_, _), CallResult(callsite, _, _)) =>
      var call := Exact(CallsAt(g.calls, KeyAt(second.originCallable, callsite)));
      if call.Some? && call.value.target == first.sinkCallable then call else None
    case _ => None
  }

  /** The call that links two routes: an exact one that is not on a cycle. */
  ghost function LinkCall(g: CallGraph, first: Route, second: Route): Option<CallEdge> {
    var call := Candidate(g, first, second);
    if call.Some? && !OnCycle(g.calls, call.value) then call else None
  }

  /** One route after the other, however long. */
  function Joined(first: Route, second: Route, call: CallEdge): Route {
    Route(first.originCallable, first.origin, second.sinkCallable, second.sink,
          first.steps + second.steps, first.callablePath + second.callablePath,
          first.callsites + [call.callsite] + second.callsites, first.basePathIds + second.basePathIds,
          first.blocked || second.blocked, second.handlerSink)
  }

  lemma JoinedIsAssociative(a: Route, b: Route, c: Route, ab: CallEdge, bc: CallEdge)
    ensures Joined(Joined(a, b, ab), c, bc) == Joined(a, Joined(b, c, bc), ab)
  {
    var left, right := Joined(Joined(a, b, ab), c, bc), Joined(a, Joined(b, c, bc), ab);
    assert left.steps == right.steps;
    assert left.callablePath == right.callablePath;
    assert left.callsites == right.callsites;
    assert left.basePathIds == right.basePathIds;
  }

  // ----- chains -----

  /** Base routes are numbered in order and stay in one callable. */
  predicate IsBase(r: Route, i: nat) {
    r.basePathIds == [i] && r.callablePath == [r.originCallable] && r.callsites == []
    && r.sinkCallable == r.originCallable
  }

  predicate Numbered(bases: seq<Route>) {
    forall i | 0 <= i < |bases| :: IsBase(bases[i], i)
  }

  predicate InRange(bases: seq<Route>, chain: seq<nat>) {
    chain != [] && forall k | 0 <= k < |chain| :: chain[k] < |bases|
  }

  ghost function LinkAt(g: CallGraph, bases: seq<Route>, chain: seq<nat>, k: nat): Option<CallEdge>
    requires InRange(bases, chain) && k + 1 < |chain|
  {
    LinkCall(g, bases[chain[k]], bases[chain[k + 1]])
  }

  /** Base routes that each link to the next. */
  ghost predicate IsChain(g: CallGraph, bases: seq<Route>, chain: seq<nat>) {
    InRange(bases, chain) && forall k | 0 <= k < |chain| - 1 :: LinkAt(g, bases, chain, k).Some?
  }

  ghost function RouteOf(g: CallGraph, bases: seq<Route>, chain: seq<nat>): Route
    requires IsChain(g, bases, chain)
  {
    if |chain| == 1 then bases[chain[0]]
    else
      TailIsChain(g, bases, chain);
      Joined(bases[chain[0]], RouteOf(g, bases, chain[1..]), LinkAt(g, bases, chain, 0).value)
  }

  lemma TailIsChain(g: CallGraph, bases: seq<Route>, chain: seq<nat>)
    requires IsChain(g, bases, chain) && |chain| > 1
    ensures IsChain(g, bases, chain[1..])
  {
    SliceIsChain(g, bases, chain, 1, |chain|);
    assert chain[1..|chain|] == chain[1..];
  }

  lemma SliceIsChain(g: CallGraph, bases: seq<Route>, chain: seq<nat>, from: nat, to: nat)
    requires IsChain(g, bases, chain) && from < to <= |chain|
    ensures IsChain(g, bases, chain[from..to])
  {
    hide LinkCall;
    var part := chain[from..to];
    assert InRange(bases, part);
    forall k | 0 <= k < |part| - 1
      ensures LinkAt(g, bases, part, k).Some?
    {
      assert LinkAt(g, bases, chain, from + k).Some?;
    }
  }

  /** A route is that of its chain: it starts like the first, ends like the last, and counts its bases. */
  lemma {:induction false} RouteOfMeans(g: CallGraph, bases: seq<Route>, chain: seq<nat>)
    requires Numbered(bases) && IsChain(g, bases, chain)
    ensures var r, head, last := RouteOf(g, bases, chain), bases[chain[0]], bases[chain[|chain| - 1]];
            && r.originCallable == head.originCallable && r.origin == head.origin
            && r.sinkCallable == last.sinkCallable && r.sink == last.sink && r.handlerSink == last.handlerSink
            && r.basePathIds == chain
            && |r.callablePath| == |chain| && |r.callsites| == |chain| - 1
    decreases |chain|
  {
    hide LinkAt, RouteOf;
    assert IsBase(bases[chain[0]], chain[0]);
    RouteOfUnfolds(g, bases, chain);
    if |chain| == 1 {
      assert chain == [chain[0]];
    } else {
      RouteOfMeans(g, bases, chain[1..]);
      assert chain == [chain[0]] + chain[1..];
    }
  }

  /** Place by place: the callables it passes, the calls between them, and the steps it takes. */
  lemma {:induction false} RouteOfAt(g: CallGraph, bases: seq<Route>, chain: seq<nat>)
    requires Numbered(bases) && IsChain(g, bases, chain)
    ensures var r := RouteOf(g, bases, chain);
            && |r.callablePath| == |chain| && |r.callsites| == |chain| - 1
            && (forall k | 0 <= k < |chain| :: r.callablePath[k] == bases[chain[k]].originCallable)
            && (forall k | 0 <= k < |chain| - 1 :: r.callsites[k] == LinkAt(g, bases, chain, k).value.callsite)
            && r.steps == AllSteps(bases, chain)
    decreases |chain|
  {
    hide LinkCall;
    var r := RouteOf(g, bases, chain);
    assert IsBase(bases[chain[0]], chain[0]);
    if |chain| > 1 {
      TailIsChain(g, bases, chain);
      var tail := chain[1..];
      RouteOfAt(g, bases, tail);
      assert chain == [chain[0]] + tail;
      var rest := RouteOf(g, bases, tail);
      forall k | 0 <= k < |chain|
        ensures r.callablePath[k] == bases[chain[k]].originCallable
      {
        if k > 0 {
          assert r.callablePath[k] == rest.callablePath[k - 1] && tail[k - 1] == chain[k];
        }
      }
      forall k | 0 <= k < |chain| - 1
        ensures r.callsites[k] == LinkAt(g, bases, chain, k).value.callsite
      {
        if k > 0 {
          assert r.callsites[k] == rest.callsites[k - 1];
          assert LinkAt(g, bases, tail, k - 1) == LinkAt(g, bases, chain, k);
        }
      }
    }
  }

  /** A route is blocked exactly if one of its base routes is. */
  lemma {:induction false} BlockedIffOneIs(g: CallGraph, bases: seq<Route>, chain: seq<nat>)
    requires IsChain(g, bases, chain)
    ensures RouteOf(g, bases, chain).blocked <==> exists i :: i in chain && bases[i].blocked
    decreases |chain|
  {
    hide LinkAt;
    if |chain| > 1 {
      TailIsChain(g, bases, chain);
      BlockedIffOneIs(g, bases, chain[1..]);
      assert chain == [chain[0]] + chain[1..];
    } else {
      assert chain == [chain[0]];
    }
  }

  function AllSteps(bases: seq<Route>, chain: seq<nat>): seq<Step<Anchor>>
    requires InRange(bases, chain)
  {
    if |chain| == 1 then bases[chain[0]].steps else bases[chain[0]].steps + AllSteps(bases, chain[1..])
  }

  /** Linking looks only at where the first ends and the second starts. */
  lemma LinkCallEnds(g: CallGraph, first: Route, second: Route, first': Route, second': Route)
    requires first.sink == first'.sink && first.sinkCallable == first'.sinkCallable
    requires second.origin == second'.origin && second.originCallable == second'.originCallable
    ensures LinkCall(g, first, second) == LinkCall(g, first', second')
  {
  }

  lemma LinkOfRoutes(g: CallGraph, bases: seq<Route>, front: seq<nat>, back: seq<nat>)
    requires Numbered(bases) && IsChain(g, bases, front) && IsChain(g, bases, back)
    ensures LinkCall(g, RouteOf(g, bases, front), RouteOf(g, bases, back))
         == LinkAt(g, bases, front + back, |front| - 1)
  {
    hide LinkCall, RouteOf;
    RouteOfMeans(g, bases, front);
    RouteOfMeans(g, bases, back);
    LinkCallEnds(g, RouteOf(g, bases, front), RouteOf(g, bases, back), bases[front[|front| - 1]], bases[back[0]]);
  }

  /** The routes of two chains link exactly if the chains make one chain. */
  lemma LinkedIffChain(g: CallGraph, bases: seq<Route>, front: seq<nat>, back: seq<nat>)
    requires Numbered(bases) && IsChain(g, bases, front) && IsChain(g, bases, back)
    ensures LinkCall(g, RouteOf(g, bases, front), RouteOf(g, bases, back)).Some? <==> IsChain(g, bases, front + back)
  {
    hide LinkCall, RouteOf;
    LinkOfRoutes(g, bases, front, back);
    var chain := front + back;
    if LinkAt(g, bases, chain, |front| - 1).Some? {
      forall k | 0 <= k < |chain| - 1
        ensures LinkAt(g, bases, chain, k).Some?
      {
        if k < |front| - 1 {
          assert LinkAt(g, bases, front, k).Some?;
        } else if k >= |front| {
          assert LinkAt(g, bases, back, k - |front|).Some?;
        }
      }
    }
  }

  /** Joining the routes of two chains gives the route of the whole chain. */
  lemma {:induction false} JoinedIsRouteOf(g: CallGraph, bases: seq<Route>, front: seq<nat>, back: seq<nat>)
    requires Numbered(bases) && IsChain(g, bases, front) && IsChain(g, bases, back)
    requires LinkCall(g, RouteOf(g, bases, front), RouteOf(g, bases, back)).Some?
    ensures IsChain(g, bases, front + back)
    ensures var call := LinkCall(g, RouteOf(g, bases, front), RouteOf(g, bases, back)).value;
            RouteOf(g, bases, front + back) == Joined(RouteOf(g, bases, front), RouteOf(g, bases, back), call)
    decreases |front|
  {
    hide LinkCall, Joined, RouteOf;
    LinkedIffChain(g, bases, front, back);
    LinkOfRoutes(g, bases, front, back);
    var chain := front + back;
    RouteOfUnfolds(g, bases, chain);
    if |front| == 1 {
      RouteOfUnfolds(g, bases, front);
      assert chain[1..] == back;
    } else {
      RouteOfUnfolds(g, bases, front);
      TailIsChain(g, bases, front);
      TailIsChain(g, bases, chain);
      assert chain[1..] == front[1..] + back;
      LinkedIffChain(g, bases, front[1..], back);
      LinkOfRoutes(g, bases, front[1..], back);
      assert LinkAt(g, bases, chain[1..], |front| - 2) == LinkAt(g, bases, chain, |front| - 1);
      assert LinkAt(g, bases, front, 0) == LinkAt(g, bases, chain, 0);
      JoinedIsRouteOf(g, bases, front[1..], back);
      JoinedIsAssociative(bases[chain[0]], RouteOf(g, bases, front[1..]), RouteOf(g, bases, back),
                          LinkAt(g, bases, front, 0).value, LinkAt(g, bases, chain, |front| - 1).value);
    }
  }

  lemma RouteOfUnfolds(g: CallGraph, bases: seq<Route>, chain: seq<nat>)
    requires IsChain(g, bases, chain)
    ensures |chain| == 1 ==> RouteOf(g, bases, chain) == bases[chain[0]]
    ensures |chain| > 1 ==> IsChain(g, bases, chain[1..])
    ensures |chain| > 1 ==>
      RouteOf(g, bases, chain)
      == Joined(bases[chain[0]], RouteOf(g, bases, chain[1..]), LinkAt(g, bases, chain, 0).value)
  {
    if |chain| > 1 {
      TailIsChain(g, bases, chain);
    }
  }
}
