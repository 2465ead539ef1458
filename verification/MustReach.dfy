/**
 * Control skeletons of callables, and the test that every continuation of one block reaches another.
 */
module MustReach {
  import opened Options
  import opened Ordering
  import opened Grounding

  type BlockId = nat

  datatype EdgeKind = Normal | Jump | Backedge | Finalize | ImplicitError | ExplicitError | Join | Unreachable

  /** An edge of the whole control-flow graph; edges into other functions have no kind. */
  datatype CfgEdge = CfgEdge(target: BlockId, kind: Option<EdgeKind>)

  datatype CfgBlock = CfgBlock(unreachable: bool, edges: seq<CfgEdge>)

  type Cfg = map<BlockId, CfgBlock>

  function EdgesOf(cfg: Cfg, b: BlockId): seq<CfgEdge> {
    if b in cfg then cfg[b].edges else []
  }

  datatype Edge = Edge(target: BlockId, kind: EdgeKind)

  datatype Block = Block(id: BlockId, unreachable: bool, successors: seq<Edge>)

  datatype Skeleton = Skeleton(entry: BlockId, blocks: seq<Block>)

  // ----- the blocks of a callable -----

  function Targets(cfg: Cfg, b: BlockId): set<BlockId> {
    set e | e in EdgesOf(cfg, b) && e.kind.Some? :: e.target
  }

  function Steps(cfg: Cfg): System<BlockId> {
    System(b => true, b => Targets(cfg, b))
  }

  ghost predicate Reaches(cfg: Cfg, from: BlockId, to: BlockId) {
    exists p :: IsPath(Steps(cfg), p) && p[0] == from && p[|p| - 1] == to
  }

  function AllTargets(cfg: Cfg): set<BlockId> {
    set b, t | b in cfg && t in Targets(cfg, b) :: t
  }

  /** Breadth-first search: exactly the blocks reachable from the entry without leaving the function. */
  method ReachableBlocks(cfg: Cfg, entry: BlockId) returns (reachable: set<BlockId>)
    ensures forall b :: b in reachable <==> Reaches(cfg, entry, b)
  {
    hide Reaches, Targets;
    ghost var universe := {entry} + AllTargets(cfg);
    reachable := {};
    var pending := [entry];
    ReachesItself(cfg, entry);
    while pending != []
      invariant forall b | b in reachable || b in pending :: b in universe && Reaches(cfg, entry, b)
      invariant entry in reachable || entry in pending
      invariant forall b, t | b in reachable && t in Targets(cfg, b) :: t in reachable || t in pending
      decreases universe - reachable, |pending|
    {
      var block := pending[0];
      pending := pending[1..];
      if block in reachable {
        continue;
      }
      ghost var before := reachable;
      reachable := reachable + {block};
      pending := Enqueue(cfg, block, pending);
      forall t | t in Targets(cfg, block)
        ensures t in universe && Reaches(cfg, entry, t)
      {
        ReachesFurther(cfg, entry, block, t);
        TargetsAreKnown(cfg, block, t);
      }
      assert universe - reachable == (universe - before) - {block};
    }
    forall b | Reaches(cfg, entry, b)
      ensures b in reachable
    {
      ClosedHoldsReachable(cfg, entry, b, reachable);
    }
  }

  method Enqueue(cfg: Cfg, block: BlockId, pending: seq<BlockId>) returns (longer: seq<BlockId>)
    ensures forall b :: b in longer <==> b in pending || b in Targets(cfg, block)
  {
    var edges := EdgesOf(cfg, block);
    longer := pending;
    var i := 0;
    while i < |edges|
      invariant 0 <= i <= |edges|
      invariant forall b | b in longer :: b in pending || b in Targets(cfg, block)
      invariant forall b | b in pending :: b in longer
      invariant forall k | 0 <= k < i && edges[k].kind.Some? :: edges[k].target in longer
    {
      if edges[i].kind.Some? {
        assert edges[i].target in Targets(cfg, block);
        longer := longer + [edges[i].target];
      }
      i := i + 1;
    }
  }

  lemma TargetsAreKnown(cfg: Cfg, b: BlockId, t: BlockId)
    requires t in Targets(cfg, b)
    ensures t in AllTargets(cfg)
  {
  }

  lemma ReachesItself(cfg: Cfg, b: BlockId)
    ensures Reaches(cfg, b, b)
  {
    assert IsPath(Steps(cfg), [b]);
  }

  lemma ReachesFurther(cfg: Cfg, from: BlockId, via: BlockId, to: BlockId)
    requires Reaches(cfg, from, via) && to in Targets(cfg, via)
    ensures Reaches(cfg, from, to)
  {
    var p :| IsPath(Steps(cfg), p) && p[0] == from && p[|p| - 1] == via;
    PathSnoc(Steps(cfg), p, to);
  }

  lemma ClosedHoldsReachable(cfg: Cfg, from: BlockId, to: BlockId, closed: set<BlockId>)
    requires from in closed && Reaches(cfg, from, to)
    requires forall b, t | b in closed && t in Targets(cfg, b) :: t in closed
    ensures to in closed
  {
    var p :| IsPath(Steps(cfg), p) && p[0] == from && p[|p| - 1] == to;
    var i := 0;
    while i < |p| - 1
      invariant 0 <= i < |p| && p[i] in closed
    {
      assert DependsOn(Steps(cfg), p[i], p[i + 1]);
      i := i + 1;
    }
  }

  // ----- the skeleton -----

  /** The blocks in ascending order; a block's place is its local identity. */
  method Number(blocks: set<BlockId>) returns (order: seq<BlockId>)
    ensures forall b :: b in order <==> b in blocks
    ensures Ascending(order)
  {
    order := [];
    var rest := blocks;
    while rest != {}
      invariant rest <= blocks
      invariant forall b :: b in order <==> b in blocks - rest
      invariant Ascending(order) && forall a, b | a in order && b in rest :: a < b
      decreases rest
    {
      var least := Least(rest);
      assert forall k | 0 <= k < |order| :: order[k] in order;
      order := order + [least];
      rest := rest - {least};
    }
  }

  predicate Ascending(order: seq<BlockId>) {
    forall i, j | 0 <= i < j < |order| :: order[i] < order[j]
  }

  method Least(s: set<BlockId>) returns (least: BlockId)
    requires s != {}
    ensures least in s && forall b | b in s :: least <= b
  {
    least :| least in s;
    var rest := s - {least};
    while rest != {}
      invariant least in s && rest <= s && forall b | b in s && b !in rest :: least <= b
      decreases rest
    {
      var b :| b in rest;
      if b < least {
        least := b;
      }
      rest := rest - {b};
    }
  }

  /** e is the image of an edge of the graph under the numbering. */
  predicate Image(order: seq<BlockId>, from: CfgEdge, e: Edge) {
    from.kind == Some(e.kind) && e.target < |order| && order[e.target] == from.target
  }

  /** The edges that stay inside the function, one for one and in the order of the graph. */
  predicate Images(order: seq<BlockId>, edges: seq<CfgEdge>, images: seq<Edge>) {
    if edges == [] then images == []
    else if edges[0].kind.None? then Images(order, edges[1..], images)
    else images != [] && Image(order, edges[0], images[0]) && Images(order, edges[1..], images[1..])
  }

  function Rank(kind: EdgeKind): nat {
    match kind
    case Normal => 0
    case Jump => 1
    case Backedge => 2
    case Finalize => 3
    case ImplicitError => 4
    case ExplicitError => 5
    case Join => 6
    case Unreachable => 7
  }

  /** Successors are listed by their target, then by their kind. */
  predicate EdgeBefore(a: Edge, b: Edge) {
    a.target < b.target || (a.target == b.target && Rank(a.kind) <= Rank(b.kind))
  }

  lemma EdgeBeforeIsOrder()
    ensures TotalOrder(EdgeBefore)
  {
    assert forall a: Edge, b: Edge :: Rank(a.kind) == Rank(b.kind) ==> a.kind == b.kind;
  }

  /** The edges that stay inside the function, each as often, in the order of successors. */
  ghost predicate AreSuccessors(order: seq<BlockId>, edges: seq<CfgEdge>, successors: seq<Edge>) {
    && InOrder(EdgeBefore, successors)
    && exists images :: Images(order, edges, images) && multiset(images) == multiset(successors)
  }

  /** The skeleton of a callable is its reachable part, renumbered with nothing added or lost. */
  ghost predicate IsSkeleton(cfg: Cfg, entry: BlockId, order: seq<BlockId>, s: Skeleton) {
    && Ascending(order)
    && (forall b :: b in order <==> Reaches(cfg, entry, b))
    && s.entry < |order| && order[s.entry] == entry
    && |s.blocks| == |order|
    && forall i | 0 <= i < |order| :: IsBlock(cfg, order, i, s.blocks[i])
  }

  ghost predicate IsBlock(cfg: Cfg, order: seq<BlockId>, i: nat, b: Block)
    requires i < |order|
  {
    && b.id == i
    && b.unreachable == (order[i] in cfg && cfg[order[i]].unreachable)
    && AreSuccessors(order, EdgesOf(cfg, order[i]), b.successors)
  }

  method CollectSkeleton(cfg: Cfg, entry: BlockId) returns (s: Skeleton, order: seq<BlockId>)
    ensures IsSkeleton(cfg, entry, order, s)
  {
    hide Reaches;
    var reachable := ReachableBlocks(cfg, entry);
    order := Number(reachable);
    ReachesItself(cfg, entry);
    var local: map<BlockId, nat> := map[];
    var i := 0;
    while i < |order|
      invariant 0 <= i <= |order|
      invariant forall k | 0 <= k < i :: order[k] in local
      invariant forall b | b in local :: local[b] < |order| && order[local[b]] == b
    {
      local := local[order[i] := i];
      i := i + 1;
    }
    var blocks := [];
    i := 0;
    while i < |order|
      invariant 0 <= i <= |order| && |blocks| == i
      invariant forall k | 0 <= k < i :: IsBlock(cfg, order, k, blocks[k])
    {
      forall t | t in Targets(cfg, order[i])
        ensures t in local
      {
        ReachesFurther(cfg, entry, order[i], t);
        assert t in order;
      }
      var successors := Successors(cfg, order, local, order[i]);
      blocks := blocks + [Block(i, order[i] in cfg && cfg[order[i]].unreachable, successors)];
      i := i + 1;
    }
    s := Skeleton(local[entry], blocks);
  }

  method Successors(cfg: Cfg, ghost order: seq<BlockId>, local: map<BlockId, nat>, b: BlockId)
    returns (successors: seq<Edge>)
    requires forall k | k in local :: local[k] < |order| && order[local[k]] == k
    requires forall t | t in Targets(cfg, b) :: t in local
    ensures AreSuccessors(order, EdgesOf(cfg, b), successors)
  {
    var edges := EdgesOf(cfg, b);
    var images := [];
    var i := |edges|;
    while i > 0
      invariant 0 <= i <= |edges|
      invariant Images(order, edges[i..], images)
    {
      i := i - 1;
      assert edges[i..][0] == edges[i] && edges[i..][1..] == edges[i + 1..];
      if edges[i].kind.Some? {
        assert edges[i].target in Targets(cfg, b);
        var image := Edge(local[edges[i].target], edges[i].kind.value);
        assert ([image] + images)[1..] == images;
        images := [image] + images;
      }
    }
    assert edges[0..] == edges;
    EdgeBeforeIsOrder();
    SortIsInOrder(EdgeBefore, images);
    SortIsPermutation(EdgeBefore, images);
    successors := Sort(EdgeBefore, images);
  }

  // ----- every continuation reaches the sink -----

  function Find(s: Skeleton, id: BlockId): Option<Block> {
    FindIn(s.blocks, id)
  }

  function FindIn(blocks: seq<Block>, id: BlockId): (r: Option<Block>)
    ensures r.Some? ==> r.value in blocks && r.value.id == id
  {
    if blocks == [] then None
    else if blocks[0].id == id then Some(blocks[0])
    else FindIn(blocks[1..], id)
  }

  function LiveTargets(successors: seq<Edge>): set<BlockId> {
    set e | e in successors && e.kind != Unreachable :: e.target
  }

  /** A block from which control goes on. */
  predicate GoesOn(s: Skeleton, id: BlockId) {
    var b := Find(s, id);
    b.Some? && !b.value.unreachable && LiveTargets(b.value.successors) != {}
  }

  /** The continuations of a block, up to the sink. */
  function Continuations(s: Skeleton, sink: BlockId): System<BlockId> {
    System(b => b == sink || GoesOn(s, b),
           b => if b == sink || !GoesOn(s, b) then {} else LiveTargets(Find(s, b).value.successors))
  }

  method ReachesSink(s: Skeleton, current: BlockId, sink: BlockId, visiting: set<BlockId>, ghost stack: seq<BlockId>,
                     ghost universe: set<BlockId>) returns (r: bool)
    requires visiting == set b | b in stack
    requires IsPath(Continuations(s, sink), stack + [current])
    requires current in universe && visiting <= universe
    requires forall b, t | b in universe && t in Continuations(s, sink).deps(b) :: t in universe
    ensures r == Grounded(Continuations(s, sink), current)
    decreases universe - visiting
  {
    hide Grounded, GoesOn, Find;
    ghost var rules := Continuations(s, sink);
    GroundedUnfolds(rules, current);
    if current == sink {
      return true;
    }
    if current in visiting {
      CutIsSound(rules, stack, current);
      return false;
    }
    GoesOnParts(s, current);
    var block := Find(s, current);
    if block.None? || block.value.unreachable {
      return false;
    }
    ghost var live := LiveTargets(block.value.successors);
    var any, i := false, 0;
    while i < |block.value.successors|
      invariant 0 <= i <= |block.value.successors|
      invariant any <==> exists k | 0 <= k < i :: block.value.successors[k].kind != Unreachable
      invariant forall k | 0 <= k < i && block.value.successors[k].kind != Unreachable ::
                  Grounded(rules, block.value.successors[k].target)
    {
      var edge := block.value.successors[i];
      if edge.kind != Unreachable {
        assert edge.target in live;
        assert GoesOn(s, current);
        PathSnoc(rules, stack + [current], edge.target);
        var ok := ReachesSink(s, edge.target, sink, visiting + {current}, stack + [current], universe);
        if !ok {
          return false;
        }
        any := true;
      }
      i := i + 1;
    }
    if any {
      var k :| 0 <= k < |block.value.successors| && block.value.successors[k].kind != Unreachable;
      assert block.value.successors[k].target in live;
    }
    r := any;
  }

  lemma GoesOnParts(s: Skeleton, id: BlockId)
    ensures GoesOn(s, id) <==>
      Find(s, id).Some? && !Find(s, id).value.unreachable && LiveTargets(Find(s, id).value.successors) != {}
  {
  }

  lemma CutIsSound(rules: System<BlockId>, stack: seq<BlockId>, current: BlockId)
    requires IsPath(rules, stack + [current]) && current in stack
    ensures !Grounded(rules, current)
  {
    var p := stack + [current];
    var i :| 0 <= i < |stack| && stack[i] == current;
    PathSlice(rules, p, i, |p|);
    CycleIsUngrounded(rules, p[i..]);
  }

  ghost function Universe(s: Skeleton, source: BlockId): set<BlockId> {
    {source} + set b, t | b in s.blocks && t in LiveTargets(b.successors) :: t
  }

  lemma UniverseIsClosed(s: Skeleton, source: BlockId, sink: BlockId)
    ensures forall b, t | b in Universe(s, source) && t in Continuations(s, sink).deps(b) :: t in Universe(s, source)
  {
    forall b, t | b in Universe(s, source) && t in Continuations(s, sink).deps(b)
      ensures t in Universe(s, source)
    {
      assert Find(s, b).value in s.blocks;
    }
  }

  /**
   * The test: yes exactly when the blocks differ and no way on from the source, stopping at the sink,
   * gets stuck in a dead end, an unreachable or missing block, or comes back to where it was.
   */
  method ContinuationsReachSink(s: Skeleton, source: BlockId, sink: BlockId) returns (r: bool)
    ensures r <==> MustReachSink(s, source, sink)
  {
    hide Grounded, Witness;
    if source == sink {
      return false;
    }
    UniverseIsClosed(s, source, sink);
    assert [] + [source] == [source];
    r := ReachesSink(s, source, sink, {}, [], Universe(s, source));
    GroundedIffNoWitness(Continuations(s, sink), source, Universe(s, source));
  }

  ghost predicate MustReachSink(s: Skeleton, source: BlockId, sink: BlockId) {
    source != sink && !exists p :: Witness(Continuations(s, sink), p) && p[0] == source
  }

  // ----- the answer on the skeleton is the answer on the graph -----

  function CfgLiveTargets(cfg: Cfg, b: BlockId): set<BlockId> {
    set e | e in EdgesOf(cfg, b) && e.kind.Some? && e.kind != Some(Unreachable) :: e.target
  }

  predicate CfgGoesOn(cfg: Cfg, b: BlockId) {
    !(b in cfg && cfg[b].unreachable) && CfgLiveTargets(cfg, b) != {}
  }

  function CfgContinuations(cfg: Cfg, sink: BlockId): System<BlockId> {
    System(b => b == sink || CfgGoesOn(cfg, b),
           b => if b == sink || !CfgGoesOn(cfg, b) then {} else CfgLiveTargets(cfg, b))
  }

  lemma {:induction false} ImagesLive(order: seq<BlockId>, edges: seq<CfgEdge>, images: seq<Edge>)
    requires Images(order, edges, images)
    ensures forall e | e in images && e.kind != Unreachable ::
              e.target < |order| && CfgEdge(order[e.target], Some(e.kind)) in edges
    ensures forall from | from in edges && from.kind.Some? :: exists e :: e in images && Image(order, from, e)
  {
    if edges != [] {
      if edges[0].kind.None? {
        ImagesLive(order, edges[1..], images);
      } else {
        ImagesLive(order, edges[1..], images[1..]);
        assert images[0] in images;
      }
      forall from | from in edges && from.kind.Some?
        ensures exists e :: e in images && Image(order, from, e)
      {
        if from != edges[0] {
          assert from in edges[1..];
        }
      }
    }
  }

  lemma SuccessorsLive(order: seq<BlockId>, edges: seq<CfgEdge>, successors: seq<Edge>)
    requires AreSuccessors(order, edges, successors)
    ensures forall e | e in successors && e.kind != Unreachable ::
              e.target < |order| && CfgEdge(order[e.target], Some(e.kind)) in edges
    ensures forall from | from in edges && from.kind.Some? :: exists e :: e in successors && Image(order, from, e)
  {
    var images :| Images(order, edges, images) && multiset(images) == multiset(successors);
    ImagesLive(order, edges, images);
    assert forall e :: e in images <==> e in multiset(images);
    assert forall e :: e in successors <==> e in multiset(successors);
  }

  lemma {:induction false} FindByPlace(blocks: seq<Block>, first: nat, i: nat)
    requires i < |blocks| && forall k | 0 <= k < |blocks| :: blocks[k].id == first + k
    ensures FindIn(blocks, first + i) == Some(blocks[i])
  {
    if i > 0 {
      FindByPlace(blocks[1..], first + 1, i - 1);
    }
  }

  /** One step in the skeleton is one step in the graph. */
  lemma StepsAgree(cfg: Cfg, entry: BlockId, order: seq<BlockId>, s: Skeleton, i: BlockId)
    requires IsSkeleton(cfg, entry, order, s) && i < |order|
    ensures Find(s, i).Some?
    ensures GoesOn(s, i) <==> CfgGoesOn(cfg, order[i])
    ensures forall t | t in LiveTargets(Find(s, i).value.successors) ::
              t < |order| && order[t] in CfgLiveTargets(cfg, order[i])
    ensures forall t | t in CfgLiveTargets(cfg, order[i]) ::
              exists j :: j in LiveTargets(Find(s, i).value.successors) && j < |order| && order[j] == t
  {
    assert forall k | 0 <= k < |order| :: IsBlock(cfg, order, k, s.blocks[k]);
    FindByPlace(s.blocks, 0, i);
    var b := s.blocks[i];
    assert IsBlock(cfg, order, i, b);
    SuccessorsLive(order, EdgesOf(cfg, order[i]), b.successors);
    forall t | t in LiveTargets(b.successors)
      ensures t < |order| && order[t] in CfgLiveTargets(cfg, order[i])
    {
      var e :| e in b.successors && e.kind != Unreachable && e.target == t;
      assert CfgEdge(order[t], Some(e.kind)) in EdgesOf(cfg, order[i]);
    }
    forall t | t in CfgLiveTargets(cfg, order[i])
      ensures exists j :: j in LiveTargets(b.successors) && j < |order| && order[j] == t
    {
      var from :|
        from in EdgesOf(cfg, order[i]) && from.kind.Some? && from.kind != Some(Unreachable) && from.target == t;
      var e :| e in b.successors && Image(order, from, e);
      assert e.target in LiveTargets(b.successors);
    }
  }

  lemma {:induction false} WithinAgrees(cfg: Cfg, entry: BlockId, order: seq<BlockId>, s: Skeleton,
                                        sink: BlockId, i: BlockId, k: nat)
    requires IsSkeleton(cfg, entry, order, s) && i < |order| && sink < |order|
    ensures Within(Continuations(s, sink), i, k) <==> Within(CfgContinuations(cfg, order[sink]), order[i], k)
    decreases k
  {
    hide GoesOn, CfgGoesOn, Find, LiveTargets, CfgLiveTargets, IsSkeleton;
    if k > 0 {
      StepsAgree(cfg, entry, order, s, i);
      OrderIsInjective(cfg, entry, order, s, i, sink);
      if i != sink && GoesOn(s, i) {
        GoesOnParts(s, i);
        var rules, cfgRules := Continuations(s, sink), CfgContinuations(cfg, order[sink]);
        forall j | j in rules.deps(i)
          ensures j < |order| && Within(rules, j, k - 1) == Within(cfgRules, order[j], k - 1)
        {
          WithinAgrees(cfg, entry, order, s, sink, j, k - 1);
        }
        var live, cfgLive := LiveTargets(Find(s, i).value.successors), CfgLiveTargets(cfg, order[i]);
        assert rules.deps(i) == live && cfgRules.deps(order[i]) == cfgLive;
        if Within(rules, i, k) {
          forall t | t in cfgLive
            ensures Within(cfgRules, t, k - 1)
          {
            var j :| j in live && j < |order| && order[j] == t;
          }
        }
        if Within(cfgRules, order[i], k) {
          forall j | j in live
            ensures Within(rules, j, k - 1)
          {
            assert order[j] in cfgLive;
          }
        }
      }
    }
  }

  lemma OrderIsInjective(cfg: Cfg, entry: BlockId, order: seq<BlockId>, s: Skeleton, i: BlockId, j: BlockId)
    requires IsSkeleton(cfg, entry, order, s) && i < |order| && j < |order|
    ensures order[i] == order[j] <==> i == j
  {
  }

  /** Testing the skeleton of a callable is testing its part of the control-flow graph. */
  lemma SkeletonAgrees(cfg: Cfg, entry: BlockId, order: seq<BlockId>, s: Skeleton, source: BlockId, sink: BlockId)
    requires IsSkeleton(cfg, entry, order, s) && source < |order| && sink < |order|
    ensures Grounded(Continuations(s, sink), source) <==> Grounded(CfgContinuations(cfg, order[sink]), order[source])
  {
    forall k: nat
      ensures Within(Continuations(s, sink), source, k)
         <==> Within(CfgContinuations(cfg, order[sink]), order[source], k)
    {
      WithinAgrees(cfg, entry, order, s, sink, source, k);
    }
  }
}
