/**
 * The free chunks of a heap: bins of bitwise trees whose nodes are rings of equal chunks, the order in
 * which they are visited, and a scan of them within bounds.
 */
module FreeChunks {
  import opened Options
  import opened Pages

  const CAPACITY := 128
  const TREE_BINS := 32
  const SIZE_T_BITS := 32
  const SMALL_LIMIT := 256

  /** What is stored at an address: a header, and the links of a chunk in a tree. */
  datatype Chunk = Chunk(size: nat, inUse: bool, index: nat, fd: nat, child0: nat, child1: nat)

  datatype Heap = Heap(memory: nat -> Chunk, initialized: bool, top: nat, topSize: nat, dv: nat, dvSize: nat,
                       marked: seq<bool>, bins: seq<nat>, binOf: nat -> nat)

  /** A tree: the ring of its root in order, and its two subtrees. */
  datatype Tree = Empty | Node(ring: seq<nat>, child0: Tree, child1: Tree)
  {
    function Height(): nat {
      match this
      case Empty => 0
      case Node(_, c0, c1) => 1 + (if c0.Height() < c1.Height() then c1.Height() else c0.Height())
    }
  }

  // ----- well-formed heaps -----

  ghost predicate Ring(h: Heap, ring: seq<nat>) {
    && ring != []
    && (forall k | 0 <= k < |ring| :: ring[k] != 0 && h.memory(ring[k]).fd == ring[if k + 1 < |ring| then k + 1 else 0])
    && (forall k | 0 < k < |ring| :: ring[k] != ring[0])
  }

  /** The pointer leads to the tree, in the given bin. */
  ghost predicate Represents(h: Heap, bin: nat, p: nat, t: Tree)
    decreases t
  {
    match t
    case Empty => p == 0
    case Node(ring, c0, c1) =>
      && Ring(h, ring) && ring[0] == p && h.memory(p).index == bin
      && (forall a | a in ring :: h.binOf(h.memory(a).size) == bin)
      && Represents(h, bin, h.memory(p).child0, c0)
      && Represents(h, bin, h.memory(p).child1, c1)
  }

  ghost predicate Monotone(h: Heap) {
    && (forall s :: h.binOf(s) < TREE_BINS)
    && (forall s, s' | s <= s' :: h.binOf(s) <= h.binOf(s'))
  }

  /** The bins hold these trees. */
  ghost predicate HasTrees(h: Heap, trees: seq<Tree>) {
    && |trees| == |h.bins| == |h.marked| == TREE_BINS
    && forall b | 0 <= b < TREE_BINS :: HasTree(h, b, trees[b])
  }

  ghost predicate HasTree(h: Heap, b: nat, t: Tree)
    requires b < |h.bins| && b < |h.marked|
  {
    && Represents(h, b, h.bins[b], t) && t.Height() <= SIZE_T_BITS
    && (h.marked[b] <==> t.Node?)
  }

  /** A free chunk whose header agrees with its size. */
  ghost predicate IsFree(h: Heap, c: Free) {
    IsAddressable(c) && h.memory(c.address).size == c.size && !h.memory(c.address).inUse
  }

  predicate Disjoint(a: Free, b: Free) {
    a.End() <= b.address || b.End() <= a.address
  }

  ghost predicate AllDisjoint(chunks: seq<Free>) {
    forall i, j | 0 <= i < j < |chunks| :: Disjoint(chunks[i], chunks[j])
  }

  /**
   * A well-formed heap: these trees, and chunks in small bins, are all there is beside the top and the
   * designated victim; free chunks do not overlap.
   */
  ghost predicate WellFormed(h: Heap, trees: seq<Tree>, small: seq<Free>) {
    && HasTrees(h, trees) && Monotone(h)
    && (forall c | c in small :: c.size < SMALL_LIMIT)
    && (forall c | c in AllFree(h, trees, small) :: IsFree(h, c))
    && AllDisjoint(AllFree(h, trees, small))
  }

  function AllFree(h: Heap, trees: seq<Tree>, small: seq<Free>): seq<Free>
    requires |trees| == TREE_BINS
  {
    Single(h) + BinChunks(h, trees, 0, TREE_BINS) + small
  }

  // ----- the order of visits -----

  /** The top and the designated victim. */
  function Single(h: Heap): seq<Free> {
    (if h.top != 0 then [Free(h.top, h.topSize)] else [])
    + (if h.dvSize != 0 then [Free(h.dv, h.dvSize)] else [])
  }

  function RingChunks(h: Heap, ring: seq<nat>): seq<Free> {
    if ring == [] then [] else [Free(ring[0], h.memory(ring[0]).size)] + RingChunks(h, ring[1..])
  }

  function TreeChunks(h: Heap, t: Tree): seq<Free> {
    match t
    case Empty => []
    case Node(ring, c0, c1) => RingChunks(h, ring) + TreeChunks(h, c1) + TreeChunks(h, c0)
  }

  /** The trees on a stack, from its top. */
  function StackChunks(h: Heap, stack: seq<Tree>): seq<Free> {
    if stack == [] then []
    else TreeChunks(h, stack[|stack| - 1]) + StackChunks(h, stack[..|stack| - 1])
  }

  /** The bins from first up to, not including, end; the last one first. */
  function BinChunks(h: Heap, trees: seq<Tree>, first: nat, end: nat): seq<Free>
    requires end <= |trees|
  {
    if end <= first then [] else TreeChunks(h, trees[end - 1]) + BinChunks(h, trees, first, end - 1)
  }

  function FirstBin(h: Heap, page: nat): nat { h.binOf(Minimum(page)) }

  /** All that is visited when no bound stops it. */
  function Visits(h: Heap, trees: seq<Tree>, page: nat): seq<Free>
    requires |trees| == TREE_BINS
  {
    Single(h) + BinChunks(h, trees, FirstBin(h, page), TREE_BINS)
  }

  // ----- which free chunks are visited -----

  lemma {:induction false} BinChunksSplit(h: Heap, trees: seq<Tree>, first: nat, middle: nat, end: nat)
    requires first <= middle <= end <= |trees|
    ensures BinChunks(h, trees, first, end) == BinChunks(h, trees, middle, end) + BinChunks(h, trees, first, middle)
    decreases end
  {
    if middle < end {
      BinChunksSplit(h, trees, first, middle, end - 1);
    }
  }

  lemma {:induction false} RingChunksAt(h: Heap, ring: seq<nat>, c: Free)
    requires c in RingChunks(h, ring)
    ensures c.address in ring && c.size == h.memory(c.address).size
  {
    if c != RingChunks(h, ring)[0] {
      RingChunksAt(h, ring[1..], c);
    }
  }

  lemma {:induction false} TreeChunksInBin(h: Heap, bin: nat, p: nat, t: Tree, c: Free)
    requires Represents(h, bin, p, t) && c in TreeChunks(h, t)
    ensures h.binOf(c.size) == bin
    decreases t
  {
    if c in RingChunks(h, t.ring) {
      RingChunksAt(h, t.ring, c);
    } else if c in TreeChunks(h, t.child0) {
      TreeChunksInBin(h, bin, h.memory(p).child0, t.child0, c);
    } else {
      TreeChunksInBin(h, bin, h.memory(p).child1, t.child1, c);
    }
  }

  lemma {:induction false} LowBinsAreSmall(h: Heap, trees: seq<Tree>, end: nat, c: Free)
    requires HasTrees(h, trees) && end <= TREE_BINS && c in BinChunks(h, trees, 0, end)
    ensures h.binOf(c.size) < end
    decreases end
  {
    hide Represents, TreeChunks;
    assert HasTree(h, end - 1, trees[end - 1]);
    if c in TreeChunks(h, trees[end - 1]) {
      TreeChunksInBin(h, end - 1, h.bins[end - 1], trees[end - 1], c);
    } else {
      LowBinsAreSmall(h, trees, end - 1, c);
    }
  }

  /** How often a chunk occurs. */
  function Count(chunks: seq<Free>, c: Free): nat {
    multiset(chunks)[c]
  }

  lemma DisjointOccurOnce(chunks: seq<Free>, c: Free)
    requires AllDisjoint(chunks) && c in chunks && (forall d | d in chunks :: d.size > 0)
    ensures Count(chunks, c) == 1
  {
    var k :| 0 <= k < |chunks| && chunks[k] == c;
    assert chunks == chunks[..k] + [c] + chunks[k + 1..];
    forall i | 0 <= i < |chunks| && i != k
      ensures chunks[i] != c
    {
      assert Disjoint(chunks[if i < k then i else k], chunks[if i < k then k else i]);
    }
    assert c !in chunks[..k] && c !in chunks[k + 1..];
  }

  /** Every free chunk that is big enough to hold a page between its margins is visited once. */
  lemma BigChunksAreVisited(h: Heap, trees: seq<Tree>, small: seq<Free>, page: nat, c: Free)
    requires WellFormed(h, trees, small) && IsPageSize(page)
    requires c in AllFree(h, trees, small) && c.size >= Minimum(page)
    ensures Count(Visits(h, trees, page), c) == 1
  {
    hide TreeChunks, Represents, Single, IsFree, HasTree;
    var first := FirstBin(h, page);
    BinChunksSplit(h, trees, 0, first, TREE_BINS);
    var low := BinChunks(h, trees, 0, first);
    assert AllFree(h, trees, small) == Visits(h, trees, page) + low + small;
    if c in low {
      LowBinsAreSmall(h, trees, first, c);
      assert false;
    }
    assert c in Visits(h, trees, page);
    VisitsAreDisjoint(h, trees, small, page);
    DisjointOccurOnce(Visits(h, trees, page), c);
  }

  lemma VisitsAreDisjoint(h: Heap, trees: seq<Tree>, small: seq<Free>, page: nat)
    requires WellFormed(h, trees, small)
    ensures AllDisjoint(Visits(h, trees, page))
    ensures forall c | c in Visits(h, trees, page) :: IsFree(h, c) && IsAddressable(c)
  {
    hide TreeChunks, Represents, Single, HasTree;
    var first := FirstBin(h, page);
    BinChunksSplit(h, trees, 0, first, TREE_BINS);
    var all, visits := AllFree(h, trees, small), Visits(h, trees, page);
    assert all == visits + (BinChunks(h, trees, 0, first) + small);
    assert forall k | 0 <= k < |visits| :: visits[k] == all[k];
    assert forall c | c in visits :: c in all;
  }

  // ----- a scan within bounds -----

  datatype Status = Complete | Partial | Trapped

  datatype Progress = Progress(visited: nat, ranges: seq<Range>)

  function Ranges(chunks: seq<Free>, page: nat): seq<Range>
    requires page > 0
  {
    if chunks == [] then []
    else
      var payload := Payload(chunks[|chunks| - 1], page);
      Ranges(chunks[..|chunks| - 1], page) + (if payload.Some? then [payload.value] else [])
  }

  predicate Full(p: Progress, limit: nat) {
    |p.ranges| == CAPACITY || p.visited == limit
  }

  function Take(p: Progress, c: Free, page: nat): Progress
    requires page > 0
  {
    var payload := Payload(c, page);
    Progress(p.visited + 1, if payload.Some? then p.ranges + [payload.value] else p.ranges)
  }

  datatype Outcome = Outcome(progress: Progress, status: Status)

  /** Visits one chunk after the other, and stops when a bound is reached. */
  function Scan(chunks: seq<Free>, page: nat, limit: nat, p: Progress): Outcome
    requires page > 0
  {
    if chunks == [] then Outcome(p, Complete)
    else
      var next := Take(p, chunks[0], page);
      if Full(next, limit) then Outcome(next, Partial) else Scan(chunks[1..], page, limit, next)
  }

  /** How far a scan gets, and what it has then. */
  lemma {:induction false} ScanMeans(chunks: seq<Free>, page: nat, limit: nat, done: seq<Free>, p: Progress)
    requires page > 0 && p == Progress(|done|, Ranges(done, page)) && !Full(p, limit)
    requires |p.ranges| <= CAPACITY && p.visited <= limit
    ensures var all, o := done + chunks, Scan(chunks, page, limit, p);
            && |done| <= o.progress.visited <= |all| && o.progress.visited <= limit
            && o.progress.ranges == Ranges(all[..o.progress.visited], page)
            && |o.progress.ranges| <= CAPACITY
            && o.status == (if Full(o.progress, limit) then Partial else Complete)
            && (o.status == Complete ==> o.progress.visited == |all|)
    decreases |chunks|
  {
    hide Payload;
    var all := done + chunks;
    if chunks == [] {
      assert all[..|done|] == done;
    } else {
      var next, longer := Take(p, chunks[0], page), done + [chunks[0]];
      assert longer[..|done|] == done && longer + chunks[1..] == all;
      assert all[..|longer|] == longer;
      if !Full(next, limit) {
        ScanMeans(chunks[1..], page, limit, longer, next);
      }
    }
  }

  lemma {:induction false} RangesAreFew(chunks: seq<Free>, page: nat)
    requires page > 0
    ensures |Ranges(chunks, page)| <= |chunks|
  {
    hide Payload;
    if chunks != [] {
      RangesAreFew(chunks[..|chunks| - 1], page);
    }
  }

  /** The chunk whose payload the range is. */
  ghost predicate Holds(c: Free, page: nat, r: Range)
    requires page > 0
  {
    Payload(c, page) == Some(r)
  }

  /** The ranges are those of the chunks that hold any. */
  lemma {:induction false} RangesExact(chunks: seq<Free>, page: nat)
    requires page > 0
    ensures forall r :: r in Ranges(chunks, page) <==> exists c :: c in chunks && Holds(c, page, r)
    decreases |chunks|
  {
    hide Payload;
    if chunks != [] {
      var last := |chunks| - 1;
      var front, c := chunks[..last], chunks[last];
      RangesExact(front, page);
      assert chunks == front + [c];
      forall r
        ensures r in Ranges(chunks, page) <==> r in Ranges(front, page) || Holds(c, page, r)
      {
      }
    }
  }

  predicate Apart(a: Range, b: Range) {
    a.end <= b.start || b.end <= a.start
  }

  lemma InsideDisjointIsApart(c: Free, d: Free, r: Range, r': Range)
    requires Disjoint(c, d) && IsInside(r, c) && IsInside(r', d)
    ensures Apart(r, r')
  {
  }

  predicate AllApart(rs: seq<Range>) {
    forall i, j | 0 <= i < j < |rs| :: Apart(rs[i], rs[j])
  }

  lemma NoneApart()
    ensures AllApart([])
  {
  }

  lemma ApartSnoc(rs: seq<Range>, r: Range)
    requires AllApart(rs) && forall r' | r' in rs :: Apart(r', r)
    ensures AllApart(rs + [r])
  {
    hide Apart;
  }

  /** The ranges of disjoint chunks are whole pages and disjoint. */
  lemma {:induction false} RangesAreDisjoint(chunks: seq<Free>, page: nat)
    requires IsPageSize(page) && AllDisjoint(chunks) && forall c | c in chunks :: IsAddressable(c)
    ensures forall r | r in Ranges(chunks, page) :: IsWholePages(r, page)
    ensures AllApart(Ranges(chunks, page))
    decreases |chunks|
  {
    hide Holds, Payload, Apart, AllApart, IsWholePages;
    if chunks == [] {
      NoneApart();
    } else {
      var last := |chunks| - 1;
      var front, c := chunks[..last], chunks[last];
      RangesAreDisjoint(front, page);
      RangesExact(front, page);
      assert Ranges(front, page) + [] == Ranges(front, page);
      if Payload(c, page).Some? {
        PayloadIsInside(c, page);
        var r := Payload(c, page).value;
        forall r' | r' in Ranges(front, page)
          ensures Apart(r', r)
        {
          var d :| d in front && Holds(d, page, r');
          var k :| 0 <= k < last && chunks[k] == d;
          assert Disjoint(d, c);
          HoldsMeans(d, page, r');
          PayloadIsInside(d, page);
          InsideDisjointIsApart(d, c, r', r);
        }
        ApartSnoc(Ranges(front, page), r);
        assert Ranges(chunks, page) == Ranges(front, page) + [r];
      }
    }
  }

  lemma HoldsMeans(c: Free, page: nat, r: Range)
    requires page > 0
    ensures Holds(c, page, r) <==> Payload(c, page) == Some(r)
  {
  }
}
