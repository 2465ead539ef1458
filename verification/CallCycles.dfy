/** The calls between callables: looking one up by its place, and which of them are recursive. */
module CallCycles {
  import opened Options
  import opened Grounding
  import opened Provenance

  datatype CallEdge = CallEdge(caller: CallableId, callsite: Anchor, target: CallableId,
                               dispatchExact: bool, argumentsSafe: bool)

  // ----- looking up a call -----

  datatype CallKey = CallKey(caller: CallableId, module_: string, start: nat, end: nat)

  function KeyAt(caller: CallableId, callsite: Anchor): CallKey {
    CallKey(caller, callsite.module_, callsite.start, callsite.end)
  }

  /** All calls at a place. */
  function CallsAt(calls: seq<CallEdge>, key: CallKey): seq<CallEdge> {
    if calls == [] then []
    else
      var last := calls[|calls| - 1];
      CallsAt(calls[..|calls| - 1], key) + (if KeyAt(last.caller, last.callsite) == key then [last] else [])
  }

  lemma {:induction false} CallsAtExact(calls: seq<CallEdge>, key: CallKey)
    ensures forall c :: c in CallsAt(calls, key) <==> c in calls && KeyAt(c.caller, c.callsite) == key
  {
    if calls != [] {
      CallsAtExact(calls[..|calls| - 1], key);
      assert calls == calls[..|calls| - 1] + [calls[|calls| - 1]];
    }
  }

  type CallIndex = map<CallKey, seq<CallEdge>>

  function Lookup(index: CallIndex, key: CallKey): seq<CallEdge> {
    if key in index then index[key] else []
  }

  method BuildIndex(calls: seq<CallEdge>) returns (index: CallIndex)
    ensures forall key :: Lookup(index, key) == CallsAt(calls, key)
  {
    index := map[];
    var i := 0;
    while i < |calls|
      invariant 0 <= i <= |calls|
      invariant forall key :: Lookup(index, key) == CallsAt(calls[..i], key)
    {
      var key := KeyAt(calls[i].caller, calls[i].callsite);
      assert calls[..i + 1][..i] == calls[..i];
      index := index[key := Lookup(index, key) + [calls[i]]];
      i := i + 1;
    }
    assert calls[..i] == calls;
  }

  /** The call at a place, if there is just one and it is known exactly. */
  function Exact(found: seq<CallEdge>): Option<CallEdge> {
    if |found| == 1 && found[0].dispatchExact && found[0].argumentsSafe then Some(found[0]) else None
  }

  lemma ExactIsCall(calls: seq<CallEdge>, caller: CallableId, callsite: Anchor)
    ensures var call := Exact(CallsAt(calls, KeyAt(caller, callsite)));
            call.Some? ==> call.value in calls && call.value.caller == caller
  {
    CallsAtExact(calls, KeyAt(caller, callsite));
  }

  // ----- recursive calls -----

  function TargetsOf(calls: seq<CallEdge>, caller: CallableId): set<CallableId> {
    set c | c in calls && c.caller == caller :: c.target
  }

  function Calling(calls: seq<CallEdge>): System<CallableId> {
    System(c => true, c => TargetsOf(calls, c))
  }

  ghost predicate Joins(calls: seq<CallEdge>, path: seq<CallableId>, from: CallableId, to: CallableId) {
    IsPath(Calling(calls), path) && path[0] == from && path[|path| - 1] == to
  }

  /** The call lies on a directed cycle of calls: there is a way back from its target to its caller. */
  ghost predicate OnCycle(calls: seq<CallEdge>, call: CallEdge) {
    exists way :: Joins(calls, way, call.target, call.caller)
  }

  /** There is a way of one call or more. */
  ghost predicate Leads(calls: seq<CallEdge>, from: CallableId, to: CallableId) {
    exists way :: Joins(calls, way, from, to) && |way| > 1
  }

  lemma LeadsInOne(calls: seq<CallEdge>, from: CallableId, to: CallableId)
    requires to in TargetsOf(calls, from)
    ensures Leads(calls, from, to)
  {
    hide TargetsOf;
    var way := [from, to];
    assert DependsOn(Calling(calls), from, to);
    assert Joins(calls, way, from, to);
  }

  lemma LeadsOn(calls: seq<CallEdge>, from: CallableId, next: CallableId, to: CallableId)
    requires next in TargetsOf(calls, from) && Leads(calls, next, to)
    ensures Leads(calls, from, to)
  {
    hide TargetsOf;
    var way :| Joins(calls, way, next, to) && |way| > 1;
    PathCons(Calling(calls), from, way);
    assert Joins(calls, [from] + way, from, to);
  }

  lemma OnCycleMeans(calls: seq<CallEdge>, call: CallEdge)
    ensures OnCycle(calls, call) <==> call.caller == call.target || Leads(calls, call.target, call.caller)
  {
    hide TargetsOf;
    if OnCycle(calls, call) {
      var way :| Joins(calls, way, call.target, call.caller);
      assert |way| > 1 || call.caller == call.target;
    }
    if call.caller == call.target {
      assert Joins(calls, [call.target], call.target, call.caller);
    }
    if Leads(calls, call.target, call.caller) {
      var way :| Joins(calls, way, call.target, call.caller) && |way| > 1;
    }
  }

  /** None of these callables calls the target, and all they call is settled too. */
  ghost predicate Settled(calls: seq<CallEdge>, some: set<CallableId>, all: set<CallableId>, target: CallableId) {
    forall c | c in some :: TargetsOf(calls, c) <= all && target !in TargetsOf(calls, c)
  }

  lemma {:induction false} SettledNeverLeads(calls: seq<CallEdge>, all: set<CallableId>, target: CallableId,
                                             way: seq<CallableId>)
    requires Settled(calls, all, all, target) && way != [] && way[0] in all && |way| > 1
    requires IsPath(Calling(calls), way)
    ensures way[|way| - 1] != target
    decreases |way|
  {
    hide TargetsOf;
    assert DependsOn(Calling(calls), way[0], way[1]);
    if |way| > 2 {
      PathSlice(Calling(calls), way, 1, |way|);
      assert way[1..][|way[1..]| - 1] == way[|way| - 1];
      SettledNeverLeads(calls, all, target, way[1..]);
    }
  }

  function AllTargets(calls: seq<CallEdge>): set<CallableId> {
    set c | c in calls :: c.target
  }

  lemma TargetsAreKnown(calls: seq<CallEdge>, caller: CallableId)
    ensures TargetsOf(calls, caller) <= AllTargets(calls)
  {
  }

  type Adjacency = map<CallableId, set<CallableId>>

  ghost predicate Adjoins(adjacency: Adjacency, calls: seq<CallEdge>) {
    forall c :: Next(adjacency, c) == TargetsOf(calls, c)
  }

  function Next(adjacency: Adjacency, c: CallableId): set<CallableId> {
    if c in adjacency then adjacency[c] else {}
  }

  method BuildAdjacency(calls: seq<CallEdge>) returns (adjacency: Adjacency)
    ensures Adjoins(adjacency, calls)
  {
    adjacency := map[];
    var i := 0;
    while i < |calls|
      invariant 0 <= i <= |calls|
      invariant Adjoins(adjacency, calls[..i])
    {
      var call := calls[i];
      assert calls[..i + 1] == calls[..i] + [call];
      ghost var before := adjacency;
      adjacency := adjacency[call.caller := Next(adjacency, call.caller) + {call.target}];
      forall c
        ensures Next(adjacency, c) == TargetsOf(calls[..i + 1], c)
      {
        assert Next(before, c) == TargetsOf(calls[..i], c);
      }
      i := i + 1;
    }
    assert calls[..i] == calls;
  }

  /** Depth-first search for the target with one set of callables that have been visited. */
  method Reaches(ghost calls: seq<CallEdge>, adjacency: Adjacency, current: CallableId, target: CallableId,
                 visited: set<CallableId>)
    returns (found: bool, visited': set<CallableId>)
    requires Adjoins(adjacency, calls) && visited <= AllTargets(calls)
    ensures visited <= visited' <= AllTargets(calls)
    ensures found ==> Leads(calls, current, target)
    ensures !found ==> Settled(calls, visited' - visited + {current}, visited', target)
    decreases AllTargets(calls) - visited
  {
    hide Leads, TargetsOf, AllTargets;
    visited' := visited;
    assert Next(adjacency, current) == TargetsOf(calls, current);
    TargetsAreKnown(calls, current);
    var pending := Next(adjacency, current);
    while pending != {}
      invariant pending <= TargetsOf(calls, current)
      invariant visited <= visited' <= AllTargets(calls)
      invariant target !in TargetsOf(calls, current) - pending
      invariant TargetsOf(calls, current) - pending <= visited'
      invariant Settled(calls, visited' - visited, visited', target)
      decreases pending
    {
      var next :| next in pending;
      pending := pending - {next};
      if next == target {
        LeadsInOne(calls, current, target);
        return true, visited';
      }
      if next !in visited' {
        ghost var before := visited';
        found, visited' := Reaches(calls, adjacency, next, target, visited' + {next});
        if found {
          LeadsOn(calls, current, next, target);
          return;
        }
        assert visited' - visited == (before - visited) + (visited' - (before + {next})) + {next};
      }
    }
    found := false;
  }

  datatype MarkedCall = MarkedCall(call: CallEdge, recursive: bool)

  /** A call is marked exactly if it lies on a cycle; the ends of marked calls are returned. */
  method MarkRecursive(calls: seq<CallEdge>) returns (marked: seq<MarkedCall>, recursive: set<CallableId>)
    ensures |marked| == |calls|
    ensures forall i | 0 <= i < |calls| :: marked[i] == MarkedCall(calls[i], OnCycle(calls, calls[i]))
    ensures forall c :: c in recursive <==>
              exists e :: e in calls && OnCycle(calls, e) && (c == e.caller || c == e.target)
  {
    hide OnCycle, Leads;
    var adjacency := BuildAdjacency(calls);
    marked, recursive := [], {};
    var i := 0;
    while i < |calls|
      invariant 0 <= i <= |calls| && |marked| == i
      invariant forall k | 0 <= k < i :: marked[k] == MarkedCall(calls[k], OnCycle(calls, calls[k]))
      invariant forall c :: c in recursive <==>
                  exists k :: 0 <= k < i && OnCycle(calls, calls[k]) && (c == calls[k].caller || c == calls[k].target)
    {
      var found := IsRecursive(calls, adjacency, calls[i]);
      marked := marked + [MarkedCall(calls[i], found)];
      if found {
        recursive := recursive + {calls[i].caller, calls[i].target};
      }
      i := i + 1;
    }
  }

  method IsRecursive(ghost calls: seq<CallEdge>, adjacency: Adjacency, call: CallEdge) returns (recursive: bool)
    requires Adjoins(adjacency, calls)
    ensures recursive == OnCycle(calls, call)
  {
    hide OnCycle, TargetsOf;
    OnCycleMeans(calls, call);
    if call.caller == call.target {
      return true;
    }
    var visited;
    recursive, visited := Reaches(calls, adjacency, call.target, call.caller, {});
    if !recursive && Leads(calls, call.target, call.caller) {
      var way :| Joins(calls, way, call.target, call.caller) && |way| > 1;
      SettledNeverLeads(calls, visited + {call.target}, call.caller, way);
    }
  }
}
