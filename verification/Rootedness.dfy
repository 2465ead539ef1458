/**
 * Which guest callables are rooted: started by the runtime or awaited, in acceptable positions, all
 * the way up. The search keeps a cache of answers and cuts cycles.
 */
module Rootedness {
  import opened Options
  import opened Grounding

  type CallableKey = nat
  type Callsite = nat

  datatype CallPosition = Synchronous | SequentialAwait | TailReturn

  /** An activation of a callable: where from, whether dispatch is exact, and in which position. */
  datatype Call = Call(caller: Option<CallableKey>, callsite: Callsite, target: Option<CallableKey>,
                       exact: bool, position: Option<CallPosition>)

  datatype AggregateRoot = AggregateRoot(caller: CallableKey, children: seq<(Callsite, CallableKey)>)

  /**
   * The graph that is searched. `skeletons` says of each callable with a control skeleton whether it
   * has a finalization edge.
   */
  datatype Graph = Graph(skeletons: map<CallableKey, bool>, inbound: map<CallableKey, seq<Call>>,
                         handlers: set<CallableKey>, awaited: set<CallableKey>, roots: seq<AggregateRoot>)
  {
    function CallsTo(c: CallableKey): seq<Call> {
      if c in inbound then inbound[c] else []
    }
  }

  predicate IsAggregateChild(g: Graph, call: Call, callable: CallableKey)
    requires call.caller.Some?
  {
    exists r | r in g.roots :: r.caller == call.caller.value && (call.callsite, callable) in r.children
  }

  /** What is asked of one activation besides its caller being rooted. */
  predicate CallFits(g: Graph, callable: CallableKey, call: Call) {
    && call.exact
    && call.target == Some(callable)
    && call.caller.Some?
    && match call.position
       case Some(SequentialAwait) => true
       case Some(TailReturn) => call.caller.value in g.skeletons && !g.skeletons[call.caller.value]
       case Some(Synchronous) => IsAggregateChild(g, call, callable)
       case None => false
  }

  predicate Fits(g: Graph, callable: CallableKey) {
    && callable in g.skeletons
    && (forall call | call in g.CallsTo(callable) :: CallFits(g, callable, call))
    && (callable in g.handlers || callable in g.awaited || g.CallsTo(callable) != [])
  }

  function Callers(g: Graph, callable: CallableKey): set<CallableKey> {
    set call | call in g.CallsTo(callable) && call.caller.Some? :: call.caller.value
  }

  function Rules(g: Graph): System<CallableKey> {
    System(c => Fits(g, c), c => Callers(g, c))
  }

  /** Rooted: acceptable, with every caller rooted, without infinite regress. */
  ghost predicate Rooted(g: Graph, callable: CallableKey) {
    Grounded(Rules(g), callable)
  }

  /** Rootedness, read without the search. */
  lemma RootedUnfolds(g: Graph, callable: CallableKey)
    ensures Rooted(g, callable) <==>
      && Fits(g, callable)
      && forall call | call in g.CallsTo(callable) && call.caller.Some? :: Rooted(g, call.caller.value)
  {
    hide Fits, Grounded;
    GroundedUnfolds(Rules(g), callable);
    if forall d | d in Callers(g, callable) :: Grounded(Rules(g), d) {
      forall call | call in g.CallsTo(callable) && call.caller.Some?
        ensures Rooted(g, call.caller.value)
      {
        assert call.caller.value in Callers(g, callable);
      }
    }
  }

  /**
   * The activation is awaited in sequence, or returned by a caller that has nothing to finalize, or one of the
   * children that the caller passes to an aggregate root.
   */
  ghost predicate WellPlaced(g: Graph, callable: CallableKey, call: Call, caller: CallableKey) {
    || call.position == Some(SequentialAwait)
    || (call.position == Some(TailReturn) && (caller, false) in g.skeletons.Items)
    || (call.position == Some(Synchronous)
        && exists i, k :: 0 <= i < |g.roots| && g.roots[i].caller == caller
             && 0 <= k < |g.roots[i].children| && g.roots[i].children[k] == (call.callsite, callable))
  }

  /** Rooted, read place by place: every activation is exact, well placed and has a rooted caller. */
  lemma RootedMeans(g: Graph, callable: CallableKey)
    ensures var calls := g.CallsTo(callable);
            Rooted(g, callable) <==>
              && callable in g.skeletons
              && (callable in g.handlers || callable in g.awaited || |calls| > 0)
              && forall call | call in calls ::
                   call.exact && call.target == Some(callable) && call.caller.Some?
                   && WellPlaced(g, callable, call, call.caller.value) && Rooted(g, call.caller.value)
  {
    hide CallFits, WellPlaced, Grounded, Rooted;
    RootedUnfolds(g, callable);
    forall call | call in g.CallsTo(callable)
      ensures CallFits(g, callable, call) <==>
              call.exact && call.target == Some(callable) && call.caller.Some?
              && WellPlaced(g, callable, call, call.caller.value)
    {
      PlacedIffFits(g, callable, call);
    }
  }

  lemma PlacedIffFits(g: Graph, callable: CallableKey, call: Call)
    ensures CallFits(g, callable, call) <==>
            call.exact && call.target == Some(callable) && call.caller.Some?
            && WellPlaced(g, callable, call, call.caller.value)
  {
    if call.caller.Some? {
      AggregateMeans(g, call, callable);
    }
  }

  lemma AggregateMeans(g: Graph, call: Call, callable: CallableKey)
    requires call.caller.Some?
    ensures IsAggregateChild(g, call, callable) <==>
            exists i, k :: 0 <= i < |g.roots| && g.roots[i].caller == call.caller.value
              && 0 <= k < |g.roots[i].children| && g.roots[i].children[k] == (call.callsite, callable)
  {
    if IsAggregateChild(g, call, callable) {
      var r :| r in g.roots && r.caller == call.caller.value && (call.callsite, callable) in r.children;
      var i :| 0 <= i < |g.roots| && g.roots[i] == r;
      var k :| 0 <= k < |r.children| && r.children[k] == (call.callsite, callable);
      assert g.roots[i].children[k] == (call.callsite, callable);
    }
    if i, k :| 0 <= i < |g.roots| && g.roots[i].caller == call.caller.value
               && 0 <= k < |g.roots[i].children| && g.roots[i].children[k] == (call.callsite, callable) {
      assert g.roots[i] in g.roots;
    }
  }

  ghost predicate CallRooted(g: Graph, call: Call, callable: CallableKey) {
    CallFits(g, callable, call) && Rooted(g, call.caller.value)
  }

  lemma RootedByCalls(g: Graph, callable: CallableKey)
    ensures var calls := g.CallsTo(callable);
            Rooted(g, callable) <==>
              && callable in g.skeletons
              && (forall k | 0 <= k < |calls| :: CallRooted(g, calls[k], callable))
              && (callable in g.handlers || callable in g.awaited || calls != [])
  {
    hide CallFits, Grounded;
    RootedUnfolds(g, callable);
    var calls := g.CallsTo(callable);
    if forall k | 0 <= k < |calls| :: CallRooted(g, calls[k], callable) {
      forall call | call in calls
        ensures CallRooted(g, call, callable)
      {
        var k :| 0 <= k < |calls| && calls[k] == call;
        assert CallRooted(g, calls[k], callable);
      }
    }
    if Rooted(g, callable) {
      forall k | 0 <= k < |calls|
        ensures CallRooted(g, calls[k], callable)
      {
        assert calls[k] in calls;
        CallParts(g, callable, calls[k]);
      }
    }
  }

  class Search {
    const graph: Graph
    var cache: map<CallableKey, bool>
    var visiting: set<CallableKey>

    constructor (graph: Graph)
      ensures this.graph == graph && Sound() && visiting == {}
    {
      this.graph := graph;
      cache, visiting := map[], {};
    }

    /** Every cached answer is right, also one found while a cycle was being cut. */
    ghost predicate Sound()
      reads this
    {
      forall c | c in cache :: cache[c] == Rooted(graph, c)
    }

    /** The callables being visited: each is waiting for the answer on the next, the last for `next`. */
    ghost predicate Waiting(stack: seq<CallableKey>, next: CallableKey)
      reads this
    {
      && (visiting == set c | c in stack)
      && IsPath(Rules(graph), stack + [next])
    }

    method CallableRooted(callable: CallableKey, ghost stack: seq<CallableKey>) returns (rooted: bool)
      requires Sound() && Waiting(stack, callable)
      modifies this
      ensures Sound() && visiting == old(visiting)
      ensures rooted == Rooted(graph, callable)
      decreases graph.skeletons.Keys - visiting
    {
      hide Fits, Grounded, CallFits;
      if callable in cache {
        return cache[callable];
      }
      RootedUnfolds(graph, callable);
      if callable !in graph.skeletons {
        FitsParts(graph, callable);
        return false;
      }
      if callable in visiting {
        CutIsSound(graph, stack, callable);
        return false;
      }
      visiting := visiting + {callable};
      ghost var longer := stack + [callable];
      var inbound := graph.CallsTo(callable);
      var inboundRooted := true;
      var i := 0;
      RootedByCalls(graph, callable);
      while i < |inbound| && inboundRooted
        invariant 0 <= i <= |inbound|
        invariant Sound() && visiting == old(visiting) + {callable}
        invariant inboundRooted ==> forall k | 0 <= k < i :: CallRooted(graph, inbound[k], callable)
        invariant !inboundRooted ==> exists k | 0 <= k < i :: !CallRooted(graph, inbound[k], callable)
      {
        var call := inbound[i];
        CallParts(graph, callable, call);
        inboundRooted :=
          call.exact && call.target == Some(callable) && PositionFits(call, callable) && call.caller.Some?;
        if inboundRooted {
          assert call.caller.value in Callers(graph, callable);
          PathSnoc(Rules(graph), longer, call.caller.value);
          inboundRooted := CallableRooted(call.caller.value, longer);
        }
        assert CallRooted(graph, call, callable) == inboundRooted;
        i := i + 1;
      }
      rooted := inboundRooted
        && (callable in graph.handlers || callable in graph.awaited || inbound != []);
      visiting := visiting - {callable};
      cache := cache[callable := rooted];
    }

    /** Whether every callable on every route is rooted; all the searches share the cache. */
    method RoutesRooted(routes: seq<seq<CallableKey>>) returns (rooted: bool)
      requires Sound() && visiting == {}
      modifies this
      ensures Sound() && visiting == {}
      ensures rooted <==> forall r, c | r in routes && c in r :: Rooted(graph, c)
    {
      hide Grounded, Rooted;
      var i := 0;
      while i < |routes|
        invariant 0 <= i <= |routes| && Sound() && visiting == {}
        invariant forall k, c | 0 <= k < i && c in routes[k] :: Rooted(graph, c)
      {
        var j := 0;
        while j < |routes[i]|
          invariant 0 <= j <= |routes[i]| && Sound() && visiting == {}
          invariant forall m | 0 <= m < j :: Rooted(graph, routes[i][m])
        {
          assert [] + [routes[i][j]] == [routes[i][j]];
          var one := CallableRooted(routes[i][j], []);
          if !one {
            assert routes[i] in routes && routes[i][j] in routes[i];
            return false;
          }
          j := j + 1;
        }
        i := i + 1;
      }
      return true;
    }

    predicate PositionFits(call: Call, callable: CallableKey) {
      match call.position
      case Some(SequentialAwait) => true
      case Some(TailReturn) =>
        call.caller.Some? && call.caller.value in graph.skeletons && !graph.skeletons[call.caller.value]
      case Some(Synchronous) => call.caller.Some? && IsAggregateChild(graph, call, callable)
      case None => false
    }
  }

  lemma FitsParts(g: Graph, callable: CallableKey)
    ensures Fits(g, callable) <==>
      && callable in g.skeletons
      && (forall call | call in g.CallsTo(callable) :: CallFits(g, callable, call))
      && (callable in g.handlers || callable in g.awaited || g.CallsTo(callable) != [])
  {
  }

  lemma CallParts(g: Graph, callable: CallableKey, call: Call)
    ensures CallFits(g, callable, call) <==>
      && call.exact && call.target == Some(callable) && call.caller.Some?
      && match call.position
         case Some(SequentialAwait) => true
         case Some(TailReturn) => call.caller.value in g.skeletons && !g.skeletons[call.caller.value]
         case Some(Synchronous) => IsAggregateChild(g, call, callable)
         case None => false
  {
  }

  /** A callable met again while it is being visited is on a cycle of callers, so it is not rooted. */
  lemma CutIsSound(g: Graph, stack: seq<CallableKey>, callable: CallableKey)
    requires IsPath(Rules(g), stack + [callable]) && callable in stack
    ensures !Rooted(g, callable)
  {
    var p := stack + [callable];
    var i :| 0 <= i < |stack| && stack[i] == callable;
    PathSlice(Rules(g), p, i, |p|);
    CycleIsUngrounded(Rules(g), p[i..]);
  }

  /**
   * Rootedness in terms of chains of callers: no chain upwards from the callable reaches one that is
   * unacceptable, and none comes back to itself.
   */
  lemma RootedIffNoBadChain(g: Graph, callable: CallableKey)
    ensures Rooted(g, callable) <==> !exists p :: Witness(Rules(g), p) && p[0] == callable
  {
    var universe := {callable} + set c, d | c in g.inbound && d in Callers(g, c) :: d;
    forall m, d | m in universe && d in Rules(g).deps(m)
      ensures d in universe
    {
      assert m in g.inbound;
    }
    GroundedIffNoWitness(Rules(g), callable, universe);
  }
}
