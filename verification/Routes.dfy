/** The bounded fixpoint that composes base routes, and when it is complete. */
module Routes {
  import opened Options
  import opened Ordering
  import opened Provenance
  import opened CallCycles
  import opened RouteSpec
  import opened RouteLinks

  // ----- what the fixpoint must find -----

  ghost predicate IsRoute(g: CallGraph, bases: seq<Route>, r: Route) {
    exists chain :: IsChain(g, bases, chain) && r == RouteOf(g, bases, chain)
  }

  /** A route goes along base routes that are linked by calls, and any that does is a route. */
  lemma IsRouteMeans(g: CallGraph, bases: seq<Route>, r: Route)
    requires Numbered(bases)
    ensures IsRoute(g, bases, r) <==>
            exists chain, calls :: LinkedBy(g, bases, chain, calls) && GoesAlong(bases, chain, calls, r)
  {
    hide IsChain, RouteOf, Numbered, Links, GoesAlong;
    if IsRoute(g, bases, r) {
      var chain :| IsChain(g, bases, chain) && r == RouteOf(g, bases, chain);
      RouteIffLinked(g, bases, chain, r);
    }
    if chain, calls :| LinkedBy(g, bases, chain, calls) && GoesAlong(bases, chain, calls, r) {
      RouteIffLinked(g, bases, chain, r);
    }
  }

  ghost predicate TooDeep(g: CallGraph, bases: seq<Route>) {
    exists chain :: IsChain(g, bases, chain) && |chain| > MAX_DEPTH
  }

  ghost predicate AllChains(g: CallGraph, bases: seq<Route>, chains: set<seq<nat>>) {
    forall chain | chain in chains :: IsChain(g, bases, chain) && |chain| <= MAX_DEPTH
  }

  ghost predicate TooMany(g: CallGraph, bases: seq<Route>) {
    exists chains :: AllChains(g, bases, chains) && |chains| > MAX_ROUTES
  }

  ghost predicate Exceeds(g: CallGraph, bases: seq<Route>) {
    TooDeep(g, bases) || TooMany(g, bases)
  }

  // ----- invariants of the fixpoint -----

  ghost predicate Distinct(routes: seq<Route>) {
    forall i, j | 0 <= i < j < |routes| :: routes[i].basePathIds != routes[j].basePathIds
  }

  /** Every route is that of a chain, which its base paths spell. */
  ghost predicate Proper(g: CallGraph, bases: seq<Route>, r: Route) {
    && IsChain(g, bases, r.basePathIds) && r == RouteOf(g, bases, r.basePathIds)
    && |r.basePathIds| == |r.callablePath| <= MAX_DEPTH
  }

  ghost predicate AllProper(g: CallGraph, bases: seq<Route>, routes: seq<Route>) {
    && (forall r | r in routes :: Proper(g, bases, r))
    && Distinct(routes) && |routes| <= MAX_ROUTES
  }

  /** The pair needs no more work: if it links, its composition is there. */
  ghost predicate Closed(g: CallGraph, first: Route, second: Route, routes: seq<Route>) {
    var call := LinkCall(g, first, second);
    call.Some? ==>
      |first.callablePath| + |second.callablePath| <= MAX_DEPTH && Joined(first, second, call.value) in routes
  }

  lemma ClosedStays(g: CallGraph, first: Route, second: Route, routes: seq<Route>, longer: seq<Route>)
    requires Closed(g, first, second, routes) && Extends(routes, longer)
    ensures Closed(g, first, second, longer)
  {
    hide LinkCall, Joined;
    assert routes <= longer;
  }

  ghost predicate Extends(routes: seq<Route>, longer: seq<Route>) {
    |routes| <= |longer| && longer[..|routes|] == routes
  }

  function IdsOf(routes: seq<Route>): set<seq<nat>> {
    set r | r in routes :: r.basePathIds
  }

  lemma {:induction false} IdsAreCounted(routes: seq<Route>)
    ensures |IdsOf(routes)| <= |routes|
    ensures Distinct(routes) ==> |IdsOf(routes)| == |routes|
    decreases |routes|
  {
    if routes != [] {
      var last := |routes| - 1;
      var front, r := routes[..last], routes[last];
      IdsAreCounted(front);
      assert routes == front + [r];
      assert IdsOf(routes) == IdsOf(front) + {r.basePathIds};
      assert Distinct(routes) ==> r.basePathIds !in IdsOf(front);
    }
  }

  // ----- one pair of routes -----

  method Link(g: CallGraph, index: CallIndex, marked: seq<MarkedCall>, first: Route, second: Route)
    returns (call: Option<CallEdge>)
    requires forall key :: Lookup(index, key) == CallsAt(g.calls, key)
    requires MarksCycles(g.calls, marked)
    ensures call == LinkCall(g, first, second)
  {
    hide OnCycle, CallsAt, MarksCycles;
    call := None;
    match first.sink {
      case CallArgument(callsite, _, _, argument, _) =>
        if second.origin.ParameterValue? && argument == second.origin.index {
          call := Exact(Lookup(index, KeyAt(first.sinkCallable, callsite)));
          ExactIsCall(g.calls, first.sinkCallable, callsite);
          if call.None? || call.value.target != second.originCallable
             || call.value.target !in g.parameterCounts || argument >= g.parameterCounts[call.value.target] {
            return None;
          }
        }
      case Return(_, _) =>
        if second.origin.CallResult? {
          call := Exact(Lookup(index, KeyAt(second.originCallable, second.origin.callsite)));
          ExactIsCall(g.calls, second.originCallable, second.origin.callsite);
          if call.None? || call.value.target != first.sinkCallable {
            return None;
          }
        }
      case Await(_, _) =>
    }
    if call.Some? {
      MarkMeans(g.calls, marked, call.value);
      if exists m :: m in marked && m.recursive && SameCall(m.call, call.value) {
        return None;
      }
    }
  }

  predicate SameCall(a: CallEdge, b: CallEdge) {
    a.caller == b.caller && a.callsite == b.callsite && a.target == b.target
  }

  ghost predicate MarksCycles(calls: seq<CallEdge>, marked: seq<MarkedCall>) {
    && |marked| == |calls|
    && forall i | 0 <= i < |calls| :: marked[i] == MarkedCall(calls[i], OnCycle(calls, calls[i]))
  }

  lemma MarkMeans(calls: seq<CallEdge>, marked: seq<MarkedCall>, call: CallEdge)
    requires MarksCycles(calls, marked) && call in calls
    ensures OnCycle(calls, call) <==> exists m :: m in marked && m.recursive && SameCall(m.call, call)
  {
    if OnCycle(calls, call) {
      var i :| 0 <= i < |calls| && calls[i] == call;
      assert marked[i] in marked && marked[i].recursive;
    }
    if m :| m in marked && m.recursive && SameCall(m.call, call) {
      var i :| 0 <= i < |marked| && marked[i] == m;
    }
  }

  /** The composition, unless it is too long. */
  function Compose(first: Route, second: Route, call: CallEdge): Option<Route> {
    if |first.callablePath + second.callablePath| > MAX_DEPTH then None else Some(Joined(first, second, call))
  }

  datatype Outcome = Unchanged | Added | DepthExceeded | Full

  method Step(g: CallGraph, ghost bases: seq<Route>, index: CallIndex, marked: seq<MarkedCall>,
              first: Route, second: Route, routes: seq<Route>)
    returns (longer: seq<Route>, outcome: Outcome)
    requires Numbered(bases) && AllProper(g, bases, routes)
    requires Proper(g, bases, first) && Proper(g, bases, second)
    requires forall key :: Lookup(index, key) == CallsAt(g.calls, key)
    requires MarksCycles(g.calls, marked)
    ensures AllProper(g, bases, longer) && Extends(routes, longer)
    ensures outcome == Added <==> |longer| > |routes|
    ensures outcome in {DepthExceeded, Full} ==> Exceeds(g, bases)
    ensures outcome in {Unchanged, Added} ==> Closed(g, first, second, longer)
  {
    hide LinkCall, Joined, Numbered, IsChain, RouteOf, MarksCycles, Exceeds, AllProper, CallsAt;
    var call := Link(g, index, marked, first, second);
    if call.None? {
      return routes, Unchanged;
    }
    var composed := Compose(first, second, call.value);
    ComposedIsProper(g, bases, first, second);
    if composed.None? {
      DeepExceeds(g, bases, first.basePathIds + second.basePathIds);
      return routes, DepthExceeded;
    }
    if composed.value in routes {
      return routes, Unchanged;
    }
    if |routes| >= MAX_ROUTES {
      ManyExceed(g, bases, routes, composed.value);
      return routes, Full;
    }
    ProperSnoc(g, bases, routes, composed.value);
    return routes + [composed.value], Added;
  }

  lemma DeepExceeds(g: CallGraph, bases: seq<Route>, chain: seq<nat>)
    requires IsChain(g, bases, chain) && |chain| > MAX_DEPTH
    ensures Exceeds(g, bases)
  {
    hide IsChain;
  }

  /**
   * Two routes that link have one chain, and composing them gives its route, proper again; or nothing
   * exactly if the chain is too deep.
   */
  lemma ComposedIsProper(g: CallGraph, bases: seq<Route>, first: Route, second: Route)
    requires Numbered(bases) && Proper(g, bases, first) && Proper(g, bases, second)
    requires LinkCall(g, first, second).Some?
    ensures var chain := first.basePathIds + second.basePathIds;
            var composed := Compose(first, second, LinkCall(g, first, second).value);
            && IsChain(g, bases, chain)
            && (composed.None? <==> |chain| > MAX_DEPTH)
            && (composed.Some? ==> composed.value == RouteOf(g, bases, chain) && Proper(g, bases, composed.value))
  {
    hide LinkCall, IsChain, RouteOf, Numbered;
    JoinedIsRouteOf(g, bases, first.basePathIds, second.basePathIds);
  }

  lemma ManyExceed(g: CallGraph, bases: seq<Route>, routes: seq<Route>, r: Route)
    requires AllProper(g, bases, routes) && Proper(g, bases, r) && r !in routes && |routes| >= MAX_ROUTES
    ensures Exceeds(g, bases)
  {
    hide IsChain, RouteOf;
    IdsAreCounted(routes);
    NewIds(g, bases, routes, r);
    var chains := IdsOf(routes) + {r.basePathIds};
    assert AllChains(g, bases, chains) && |chains| > MAX_ROUTES;
  }

  lemma NewIds(g: CallGraph, bases: seq<Route>, routes: seq<Route>, r: Route)
    requires AllProper(g, bases, routes) && Proper(g, bases, r) && r !in routes
    ensures r.basePathIds !in IdsOf(routes)
  {
    hide IsChain, RouteOf;
  }

  lemma ProperSnoc(g: CallGraph, bases: seq<Route>, routes: seq<Route>, r: Route)
    requires AllProper(g, bases, routes) && Proper(g, bases, r) && r !in routes && |routes| < MAX_ROUTES
    ensures AllProper(g, bases, routes + [r])
  {
    hide IsChain, RouteOf, Proper;
    NewIds(g, bases, routes, r);
    assert forall i | 0 <= i < |routes| :: routes[i].basePathIds in IdsOf(routes);
  }

  // ----- one pass over all pairs -----

  /** The pairs of a pass that come before this place. */
  predicate Before(k: nat, l: nat, i: nat, j: nat) {
    k < i || (k == i && l < j)
  }

  ghost predicate ClosedBefore(g: CallGraph, snapshot: seq<Route>, i: nat, j: nat, routes: seq<Route>) {
    forall k, l | 0 <= k < |snapshot| && 0 <= l < |snapshot| && Before(k, l, i, j) ::
      Closed(g, snapshot[k], snapshot[l], routes)
  }

  lemma ClosedSnoc(g: CallGraph, snapshot: seq<Route>, i: nat, j: nat, routes: seq<Route>, longer: seq<Route>)
    requires i < |snapshot| && j < |snapshot| && ClosedBefore(g, snapshot, i, j, routes) && Extends(routes, longer)
    requires Closed(g, snapshot[i], snapshot[j], longer)
    ensures ClosedBefore(g, snapshot, i, j + 1, longer)
  {
    hide Closed, Extends;
    forall k, l | 0 <= k < |snapshot| && 0 <= l < |snapshot| && Before(k, l, i, j + 1)
      ensures Closed(g, snapshot[k], snapshot[l], longer)
    {
      if Before(k, l, i, j) {
        ClosedStays(g, snapshot[k], snapshot[l], routes, longer);
      }
    }
  }

  lemma ExtendsFurther(a: seq<Route>, b: seq<Route>, c: seq<Route>)
    requires Extends(a, b) && Extends(b, c)
    ensures Extends(a, c)
  {
    assert c[..|a|] == b[..|a|];
  }

  /** Composes every pair of the routes there are at the start, or stops when there is no room. */
  method Pass(g: CallGraph, ghost bases: seq<Route>, index: CallIndex, marked: seq<MarkedCall>,
              snapshot: seq<Route>, already: bool)
    returns (routes: seq<Route>, changed: bool, incomplete: bool)
    requires Numbered(bases) && AllProper(g, bases, snapshot)
    requires forall key :: Lookup(index, key) == CallsAt(g.calls, key)
    requires MarksCycles(g.calls, marked)
    ensures AllProper(g, bases, routes) && Extends(snapshot, routes)
    ensures changed <==> |routes| > |snapshot|
    ensures already ==> incomplete
    ensures incomplete ==> already || Exceeds(g, bases)
    ensures !incomplete ==> ClosedBefore(g, snapshot, |snapshot|, 0, routes)
  {
    hide Numbered, Proper, MarksCycles, Exceeds, Closed, CallsAt, Extends, ClosedBefore;
    routes, changed, incomplete := snapshot, false, already;
    NothingComposed(g, snapshot);
    var i := 0;
    while i < |snapshot|
      invariant 0 <= i <= |snapshot|
      invariant AllProper(g, bases, routes) && Extends(snapshot, routes)
      invariant changed <==> |routes| > |snapshot|
      invariant (already ==> incomplete) && (incomplete ==> already || Exceeds(g, bases))
      invariant !incomplete ==> ClosedBefore(g, snapshot, i, 0, routes)
    {
      var j := 0;
      while j < |snapshot|
        invariant 0 <= j <= |snapshot|
        invariant AllProper(g, bases, routes) && Extends(snapshot, routes)
        invariant changed <==> |routes| > |snapshot|
        invariant (already ==> incomplete) && (incomplete ==> already || Exceeds(g, bases))
        invariant !incomplete ==> ClosedBefore(g, snapshot, i, j, routes)
      {
        assert snapshot[i] in snapshot && snapshot[j] in snapshot;
        var longer, outcome := Step(g, bases, index, marked, snapshot[i], snapshot[j], routes);
        ExtendsIsLonger(snapshot, routes);
        ExtendsFurther(snapshot, routes, longer);
        ExtendsIsLonger(routes, longer);
        if outcome in {Unchanged, Added} && !incomplete {
          ClosedSnoc(g, snapshot, i, j, routes, longer);
        }
        routes := longer;
        changed := changed || outcome == Added;
        incomplete := incomplete || outcome in {DepthExceeded, Full};
        if outcome == Full {
          ExtendsIsLonger(snapshot, routes);
          return;
        }
        j := j + 1;
      }
      if !incomplete {
        RowIsDone(g, snapshot, i, routes);
      }
      i := i + 1;
    }
    ExtendsIsLonger(snapshot, routes);
  }

  lemma ExtendsIsLonger(routes: seq<Route>, longer: seq<Route>)
    requires Extends(routes, longer)
    ensures |routes| <= |longer| && (|routes| == |longer| ==> routes == longer)
    ensures forall r | r in routes :: r in longer
  {
    assert routes <= longer;
  }

  lemma NothingComposed(g: CallGraph, snapshot: seq<Route>)
    ensures Extends(snapshot, snapshot) && ClosedBefore(g, snapshot, 0, 0, snapshot)
  {
  }

  lemma RowIsDone(g: CallGraph, snapshot: seq<Route>, i: nat, routes: seq<Route>)
    requires ClosedBefore(g, snapshot, i, |snapshot|, routes)
    ensures ClosedBefore(g, snapshot, i + 1, 0, routes)
  {
    hide Closed;
    forall k, l | 0 <= k < |snapshot| && 0 <= l < |snapshot| && Before(k, l, i + 1, 0)
      ensures Closed(g, snapshot[k], snapshot[l], routes)
    {
      assert Before(k, l, i, |snapshot|);
    }
  }

  // ----- the fixpoint -----

  /** With every pair closed, the routes are those of all chains, none of which is too long. */
  lemma {:induction false} ClosedHasChain(g: CallGraph, bases: seq<Route>, routes: seq<Route>, chain: seq<nat>)
    requires Numbered(bases) && AllProper(g, bases, routes) && ClosedBefore(g, routes, |routes|, 0, routes)
    requires forall r | r in bases :: r in routes
    requires IsChain(g, bases, chain)
    ensures RouteOf(g, bases, chain) in routes && |chain| <= MAX_DEPTH
    decreases |chain|
  {
    hide LinkCall, Joined, Numbered, Proper, Closed;
    RouteOfUnfolds(g, bases, chain);
    if |chain| > 1 {
      ClosedHasChain(g, bases, routes, chain[1..]);
      var first, second := bases[chain[0]], RouteOf(g, bases, chain[1..]);
      ClosedPair(g, routes, first, second);
      HeadLinks(g, bases, chain);
      ClosedMeans(g, first, second, routes);
      BaseLength(bases, chain[0]);
      RouteOfMeans(g, bases, chain[1..]);
    }
  }

  lemma ClosedMeans(g: CallGraph, first: Route, second: Route, routes: seq<Route>)
    requires Closed(g, first, second, routes) && LinkCall(g, first, second).Some?
    ensures |first.callablePath| + |second.callablePath| <= MAX_DEPTH
    ensures Joined(first, second, LinkCall(g, first, second).value) in routes
  {
    hide LinkCall, Joined;
  }

  lemma BaseLength(bases: seq<Route>, i: nat)
    requires Numbered(bases) && i < |bases|
    ensures |bases[i].callablePath| == 1 && bases[i].basePathIds == [i]
  {
    assert IsBase(bases[i], i);
  }

  lemma ClosedPair(g: CallGraph, routes: seq<Route>, first: Route, second: Route)
    requires ClosedBefore(g, routes, |routes|, 0, routes) && first in routes && second in routes
    ensures Closed(g, first, second, routes)
  {
    hide Closed;
    var k :| 0 <= k < |routes| && routes[k] == first;
    var l :| 0 <= l < |routes| && routes[l] == second;
    assert Before(k, l, |routes|, 0);
  }

  lemma HeadLinks(g: CallGraph, bases: seq<Route>, chain: seq<nat>)
    requires Numbered(bases) && IsChain(g, bases, chain) && |chain| > 1 && IsChain(g, bases, chain[1..])
    ensures LinkCall(g, bases[chain[0]], RouteOf(g, bases, chain[1..])) == LinkAt(g, bases, chain, 0)
    ensures LinkAt(g, bases, chain, 0).Some?
  {
    hide LinkCall, RouteOf;
    RouteOfMeans(g, bases, chain[1..]);
    LinkCallEnds(g, bases[chain[0]], RouteOf(g, bases, chain[1..]), bases[chain[0]], bases[chain[1]]);
  }

  lemma ClosedIsComplete(g: CallGraph, bases: seq<Route>, routes: seq<Route>)
    requires Numbered(bases) && AllProper(g, bases, routes) && ClosedBefore(g, routes, |routes|, 0, routes)
    requires forall r | r in bases :: r in routes
    ensures !Exceeds(g, bases)
    ensures forall r :: r in routes <==> IsRoute(g, bases, r)
  {
    hide IsChain, RouteOf, Numbered, ClosedBefore;
    forall chain | IsChain(g, bases, chain)
      ensures RouteOf(g, bases, chain) in routes && |chain| <= MAX_DEPTH && chain in IdsOf(routes)
    {
      ClosedHasChain(g, bases, routes, chain);
      RouteOfMeans(g, bases, chain);
    }
    forall chains | AllChains(g, bases, chains)
      ensures |chains| <= MAX_ROUTES
    {
      IdsAreCounted(routes);
      CountSubset(chains, IdsOf(routes));
    }
  }

  lemma {:induction false} CountSubset<T>(a: set<T>, b: set<T>)
    requires a <= b
    ensures |a| <= |b|
    decreases |a|
  {
    if a != {} {
      var x :| x in a;
      CountSubset(a - {x}, b - {x});
    }
  }

  lemma BasesAreProper(g: CallGraph, bases: seq<Route>)
    requires Numbered(bases)
    ensures |bases| <= MAX_ROUTES ==> AllProper(g, bases, bases)
    ensures |bases| > MAX_ROUTES ==> Exceeds(g, bases)
  {
    forall i | 0 <= i < |bases|
      ensures Proper(g, bases, bases[i])
    {
      assert IsBase(bases[i], i);
    }
    assert forall i | 0 <= i < |bases| :: bases[i].basePathIds[0] == i;
    if |bases| > MAX_ROUTES {
      IdsAreCounted(bases);
      assert AllChains(g, bases, IdsOf(bases));
    }
  }

  /**
   * The routes of a program. Unless the result is incomplete they are exactly the routes of all chains,
   * and it is incomplete exactly if it was before, a chain is too deep or there are too many.
   */
  method ComposeRoutes(g: CallGraph, bases: seq<Route>, already: bool)
    returns (routes: seq<Route>, incomplete: bool, marked: seq<MarkedCall>, recursive: set<CallableId>)
    requires Numbered(bases)
    ensures forall r | r in routes :: IsRoute(g, bases, r) && |r.callablePath| <= MAX_DEPTH
    ensures Distinct(routes) && |routes| <= MAX_ROUTES
    ensures incomplete <==> already || TooDeep(g, bases) || TooMany(g, bases)
    ensures !incomplete ==> forall r :: r in routes <==> IsRoute(g, bases, r)
    ensures MarksCycles(g.calls, marked)
    ensures forall c :: c in recursive <==>
              exists e :: e in g.calls && OnCycle(g.calls, e) && (c == e.caller || c == e.target)
  {
    hide Numbered, Proper, IsChain, RouteOf, OnCycle, CallsAt, ClosedBefore, Extends, TooDeep, TooMany;
    var index := BuildIndex(g.calls);
    marked, recursive := MarkRecursive(g.calls);
    BasesAreProper(g, bases);
    if |bases| > MAX_ROUTES {
      routes, incomplete := bases[..MAX_ROUTES], true;
      Truncated(g, bases);
      return;
    }
    routes, incomplete := Fixpoint(g, bases, index, marked, already);
    ProperIsRoute(g, bases, routes);
  }

  method Fixpoint(g: CallGraph, bases: seq<Route>, index: CallIndex, marked: seq<MarkedCall>, already: bool)
    returns (routes: seq<Route>, incomplete: bool)
    requires Numbered(bases) && AllProper(g, bases, bases)
    requires forall key :: Lookup(index, key) == CallsAt(g.calls, key)
    requires MarksCycles(g.calls, marked)
    ensures AllProper(g, bases, routes)
    ensures incomplete <==> already || Exceeds(g, bases)
    ensures !incomplete ==> forall r :: r in routes <==> IsRoute(g, bases, r)
  {
    hide Numbered, Proper, IsRoute, CallsAt, ClosedBefore, Exceeds, Extends, MarksCycles;
    routes, incomplete := bases, already;
    var changed := true;
    while changed
      invariant AllProper(g, bases, routes) && |routes| <= MAX_ROUTES
      invariant forall r | r in bases :: r in routes
      invariant (already ==> incomplete) && (incomplete ==> changed && (already || Exceeds(g, bases)))
      invariant !changed ==> ClosedBefore(g, routes, |routes|, 0, routes)
      decreases MAX_ROUTES - |routes|, changed
    {
      ghost var snapshot := routes;
      routes, changed, incomplete := Pass(g, bases, index, marked, routes, incomplete);
      ExtendsIsLonger(snapshot, routes);
      if incomplete {
        return;
      }
    }
    ClosedIsComplete(g, bases, routes);
  }

  lemma ProperIsRoute(g: CallGraph, bases: seq<Route>, routes: seq<Route>)
    requires AllProper(g, bases, routes)
    ensures forall r | r in routes :: IsRoute(g, bases, r) && |r.callablePath| <= MAX_DEPTH
  {
    hide IsChain, RouteOf;
  }

  lemma Truncated(g: CallGraph, bases: seq<Route>)
    requires Numbered(bases) && |bases| > MAX_ROUTES
    ensures forall r | r in bases[..MAX_ROUTES] :: IsRoute(g, bases, r) && |r.callablePath| <= MAX_DEPTH
    ensures Distinct(bases[..MAX_ROUTES])
  {
    forall i | 0 <= i < |bases|
      ensures IsRoute(g, bases, bases[i]) && |bases[i].callablePath| == 1
    {
      assert IsBase(bases[i], i);
      assert IsChain(g, bases, [i]);
      assert RouteOf(g, bases, [i]) == bases[i];
    }
    assert forall i | 0 <= i < |bases| :: bases[i].basePathIds[0] == i;
  }

  // ----- base routes -----

  /** What is known of one callable: the paths of values in it, and the origins that it mishandles. */
  datatype ValueFlow = ValueFlow(callable: CallableId, parameterCount: nat, handler: bool,
                                 paths: seq<ValuePath<Anchor>>, rejections: seq<Origin<Anchor>>)

  predicate Rejects(flow: ValueFlow, origin: Origin<Anchor>) {
    exists o :: o in flow.rejections && SameOrigin(o, origin)
  }

  /** The route is that of one path of one flow, and blocked exactly if the flow rejects its origin. */
  predicate StandsFor(base: Route, flow: ValueFlow, path: ValuePath<Anchor>) {
    && base.originCallable == flow.callable && base.origin == path.origin && base.sink == path.sink
    && base.steps == path.steps && base.handlerSink == flow.handler
    && (base.blocked <==> Rejects(flow, path.origin))
  }

  ghost predicate FromFlows(flows: seq<ValueFlow>, base: Route) {
    exists flow, path :: flow in flows && path in flow.paths && StandsFor(base, flow, path)
  }

  ghost predicate HasBase(bases: seq<Route>, flow: ValueFlow, path: ValuePath<Anchor>) {
    exists base :: base in bases && StandsFor(base, flow, path)
  }

  /** Base routes are listed by where they start, then by where they end, then by how many callables they pass. */
  predicate RouteBefore(a: Route, b: Route) {
    || !TextBefore(b.originCallable, a.originCallable)
    || (a.originCallable == b.originCallable &&
         (|| !TextBefore(b.sinkCallable, a.sinkCallable)
          || (a.sinkCallable == b.sinkCallable && |a.callablePath| <= |b.callablePath|)))
  }

  lemma RouteBeforeIsComparable()
    ensures Comparable(RouteBefore)
  {
    forall a: Route, b: Route
      ensures RouteBefore(a, b) || RouteBefore(b, a)
    {
      TextBeforeIsTotal(a.originCallable, b.originCallable);
      TextBeforeIsTotal(a.sinkCallable, b.sinkCallable);
    }
    forall a: Route, b: Route, c: Route | RouteBefore(a, b) && RouteBefore(b, c)
      ensures RouteBefore(a, c)
    {
      TextBeforeIsStrict(a.originCallable, b.originCallable, c.originCallable);
      TextBeforeIsStrict(a.sinkCallable, b.sinkCallable, c.sinkCallable);
    }
  }

  /** Texts compared the other way round. */
  lemma TextBeforeIsStrict(a: string, b: string, c: string)
    ensures (a == b || !TextBefore(b, a)) && (b == c || !TextBefore(c, b)) ==> a == c || !TextBefore(c, a)
    ensures (a == b || !TextBefore(b, a)) && (b == c || !TextBefore(c, b)) && a == c ==> a == b == c
  {
    TextBeforeIsTotal(a, b);
    TextBeforeIsTotal(b, c);
    if TextBefore(c, a) && TextBefore(a, b) {
      TextBeforeIsTransitive(c, a, b);
    }
    if TextBefore(b, c) && TextBefore(c, a) {
      TextBeforeIsTransitive(b, c, a);
    }
  }

  /** The route without its number. */
  function Plain(r: Route): Route {
    r.(basePathIds := [])
  }

  predicate IsPlain(r: Route) {
    r.basePathIds == [] && IsBase(r.(basePathIds := [0]), 0)
  }

  /** The base routes of all paths, sorted, without repetitions side by side, and numbered. */
  method BaseRoutes(flows: seq<ValueFlow>) returns (bases: seq<Route>)
    ensures Numbered(bases)
    ensures forall base | base in bases :: FromFlows(flows, base)
    ensures forall flow, path | flow in flows && path in flow.paths :: HasBase(bases, flow, path)
    ensures InOrder(RouteBefore, bases)
    ensures forall i | 0 < i < |bases| :: Plain(bases[i - 1]) != Plain(bases[i])
  {
    hide StandsFor, FromFlows, HasBase, RouteBefore, IsPlain;
    var plain := PlainRoutes(flows);
    RouteBeforeIsComparable();
    SortMeans(RouteBefore, plain);
    var sorted := Sort(RouteBefore, plain);
    UniqueMeans(RouteBefore, sorted);
    var distinct := Unique(sorted);
    bases := seq(|distinct|, i requires 0 <= i < |distinct| => distinct[i].(basePathIds := [i]));
    NumberedRoutes(flows, plain, distinct, bases);
  }

  /** A number changes nothing about a route but its number. */
  lemma NumberIsAdded(flows: seq<ValueFlow>, r: Route, i: nat)
    requires IsPlain(r) && FromFlows(flows, r)
    ensures var base := r.(basePathIds := [i]); IsBase(base, i) && FromFlows(flows, base) && Plain(base) == r
    ensures forall flow, path :: StandsFor(r, flow, path) ==> StandsFor(r.(basePathIds := [i]), flow, path)
  {
    hide Rejects;
    var flow, path :| flow in flows && path in flow.paths && StandsFor(r, flow, path);
    assert StandsFor(r.(basePathIds := [i]), flow, path);
  }

  lemma NumberedRoutes(flows: seq<ValueFlow>, plain: seq<Route>, distinct: seq<Route>, bases: seq<Route>)
    requires forall r | r in plain :: IsPlain(r) && FromFlows(flows, r)
    requires forall flow, path | flow in flows && path in flow.paths :: HasBase(plain, flow, path)
    requires forall r :: r in distinct <==> r in plain
    requires |bases| == |distinct| && forall i | 0 <= i < |bases| :: bases[i] == distinct[i].(basePathIds := [i])
    requires InOrder(RouteBefore, distinct) && forall i | 0 < i < |distinct| :: distinct[i - 1] != distinct[i]
    ensures Numbered(bases)
    ensures forall base | base in bases :: FromFlows(flows, base)
    ensures forall flow, path | flow in flows && path in flow.paths :: HasBase(bases, flow, path)
    ensures InOrder(RouteBefore, bases)
    ensures forall i | 0 < i < |bases| :: Plain(bases[i - 1]) != Plain(bases[i])
  {
    hide IsPlain, IsBase, StandsFor, FromFlows, TextBefore;
    forall i | 0 <= i < |bases|
      ensures IsBase(bases[i], i) && FromFlows(flows, bases[i]) && Plain(bases[i]) == distinct[i]
    {
      assert distinct[i] in plain;
      NumberIsAdded(flows, distinct[i], i);
    }
    forall flow, path | flow in flows && path in flow.paths
      ensures HasBase(bases, flow, path)
    {
      assert HasBase(plain, flow, path);
      var r :| r in plain && StandsFor(r, flow, path);
      var i :| 0 <= i < |distinct| && distinct[i] == r;
      NumberIsAdded(flows, r, i);
      assert bases[i] in bases;
    }
    forall i, j | 0 <= i < j < |bases|
      ensures RouteBefore(bases[i], bases[j])
    {
      assert RouteBefore(distinct[i], distinct[j]);
    }
  }

  method PlainRoutes(flows: seq<ValueFlow>) returns (plain: seq<Route>)
    ensures forall r | r in plain :: IsPlain(r) && FromFlows(flows, r)
    ensures forall flow, path | flow in flows && path in flow.paths :: HasBase(plain, flow, path)
  {
    hide StandsFor, IsPlain;
    plain := [];
    var i := 0;
    while i < |flows|
      invariant 0 <= i <= |flows|
      invariant forall r | r in plain :: IsPlain(r) && FromFlows(flows, r)
      invariant forall k, path | 0 <= k < i && path in flows[k].paths :: HasBase(plain, flows[k], path)
    {
      var flow, j := flows[i], 0;
      while j < |flow.paths|
        invariant 0 <= j <= |flow.paths|
        invariant forall r | r in plain :: IsPlain(r) && FromFlows(flows, r)
        invariant forall k, path | 0 <= k < i && path in flows[k].paths :: HasBase(plain, flows[k], path)
        invariant forall l | 0 <= l < j :: HasBase(plain, flow, flow.paths[l])
      {
        var route := PlainRoute(flow, flow.paths[j]);
        assert flow in flows && flow.paths[j] in flow.paths;
        assert FromFlows(flows, route);
        ghost var before := plain;
        plain := plain + [route];
        HasBaseStays(before, route);
        assert route in plain;
        assert HasBase(plain, flow, flow.paths[j]);
        j := j + 1;
      }
      i := i + 1;
    }
  }

  lemma HasBaseStays(bases: seq<Route>, base: Route)
    ensures forall flow, path | HasBase(bases, flow, path) :: HasBase(bases + [base], flow, path)
  {
    hide StandsFor;
    forall flow, path | HasBase(bases, flow, path)
      ensures HasBase(bases + [base], flow, path)
    {
      var b :| b in bases && StandsFor(b, flow, path);
      assert b in bases + [base];
    }
  }

  function PlainRoute(flow: ValueFlow, path: ValuePath<Anchor>): (r: Route)
    ensures StandsFor(r, flow, path) && IsPlain(r)
  {
    Route(flow.callable, path.origin, flow.callable, path.sink, path.steps, [flow.callable], [], [],
          exists o :: o in flow.rejections && SameOrigin(o, path.origin), flow.handler)
  }

  /** A later flow of the same callable counts. */
  ghost predicate CountIsLast(flows: seq<ValueFlow>, counts: map<CallableId, nat>, c: CallableId) {
    && (c in counts <==> exists k :: 0 <= k < |flows| && flows[k].callable == c)
    && (c in counts ==> exists k :: IsLast(flows, k, c) && counts[c] == flows[k].parameterCount)
  }

  ghost predicate IsLast(flows: seq<ValueFlow>, k: int, c: CallableId) {
    0 <= k < |flows| && flows[k].callable == c && forall l | k < l < |flows| :: flows[l].callable != c
  }

  method ParameterCounts(flows: seq<ValueFlow>) returns (counts: map<CallableId, nat>)
    ensures forall c :: CountIsLast(flows, counts, c)
  {
    counts := map[];
    var i := 0;
    while i < |flows|
      invariant 0 <= i <= |flows|
      invariant forall c :: CountIsLast(flows[..i], counts, c)
    {
      ghost var before, longer := counts, flows[..i + 1];
      counts := counts[flows[i].callable := flows[i].parameterCount];
      forall c
        ensures CountIsLast(longer, counts, c)
      {
        assert CountIsLast(flows[..i], before, c);
        if c == flows[i].callable {
          assert IsLast(longer, i, c);
        } else if c in before {
          var k :| IsLast(flows[..i], k, c) && before[c] == flows[..i][k].parameterCount;
          assert IsLast(longer, k, c);
        }
      }
      i := i + 1;
    }
    assert flows[..i] == flows;
  }

  /** A route of the program is blocked exactly if it passes a path whose flow rejects where it starts. */
  lemma BlockedIffRejected(g: CallGraph, flows: seq<ValueFlow>, bases: seq<Route>, chain: seq<nat>)
    requires IsChain(g, bases, chain) && forall base | base in bases :: FromFlows(flows, base)
    ensures RouteOf(g, bases, chain).blocked <==>
      exists i, flow, path :: i in chain && flow in flows && path in flow.paths
        && StandsFor(bases[i], flow, path) && Rejects(flow, path.origin)
  {
    hide RouteOf, IsChain, Rejects;
    BlockedIffOneIs(g, bases, chain);
    assert InRange(bases, chain) by { ChainInRange(g, bases, chain); }
    forall i | i in chain
      ensures FromFlows(flows, bases[i])
    {
      assert bases[i] in bases;
    }
    if RouteOf(g, bases, chain).blocked {
      var i :| i in chain && bases[i].blocked;
      var flow, path :| flow in flows && path in flow.paths && StandsFor(bases[i], flow, path);
    }
  }

  lemma ChainInRange(g: CallGraph, bases: seq<Route>, chain: seq<nat>)
    requires IsChain(g, bases, chain)
    ensures InRange(bases, chain)
  {
  }

  /** From the flows and calls of a program to its routes. */
  method BuildRoutes(flows: seq<ValueFlow>, calls: seq<CallEdge>, already: bool)
    returns (routes: seq<Route>, incomplete: bool, ghost g: CallGraph, ghost bases: seq<Route>)
    ensures g.calls == calls && forall c :: CountIsLast(flows, g.parameterCounts, c)
    ensures Numbered(bases) && forall base | base in bases :: FromFlows(flows, base)
    ensures forall flow, path | flow in flows && path in flow.paths :: HasBase(bases, flow, path)
    ensures incomplete <==> already || TooDeep(g, bases) || TooMany(g, bases)
    ensures forall r | r in routes :: IsRoute(g, bases, r) && |r.callablePath| <= MAX_DEPTH
    ensures Distinct(routes) && |routes| <= MAX_ROUTES
    ensures !incomplete ==> forall r :: r in routes <==> IsRoute(g, bases, r)
  {
    hide CountIsLast, FromFlows, HasBase, Numbered, TooDeep, TooMany, IsRoute, Distinct;
    var counts := ParameterCounts(flows);
    var graph := CallGraph(calls, counts);
    var found := BaseRoutes(flows);
    var marked, recursive;
    routes, incomplete, marked, recursive := ComposeRoutes(graph, found, already);
    g, bases := graph, found;
  }
}
