/** The enumeration of free payload: it walks the trees of a heap with a stack of fixed size. */
module Allocator {
  import opened SizeT
  import opened Pages
  import opened FreeChunks

  const MAX_VISITS := 4096

  lemma ScanStep(c: Free, rest: seq<Free>, page: nat, limit: nat, p: Progress)
    requires page > 0
    ensures Scan([c] + rest, page, limit, p) ==
            var next := Take(p, c, page);
            if Full(next, limit) then Outcome(next, Partial) else Scan(rest, page, limit, next)
  {
    assert ([c] + rest)[0] == c && ([c] + rest)[1..] == rest;
  }

  lemma RingStep(h: Heap, ring: seq<nat>, k: nat, rest: seq<Free>)
    requires k < |ring|
    ensures RingChunks(h, ring[k..]) + rest
         == [Free(ring[k], h.memory(ring[k]).size)] + (RingChunks(h, ring[k + 1..]) + rest)
  {
    assert ring[k..][0] == ring[k] && ring[k..][1..] == ring[k + 1..];
  }

  lemma {:induction false} RingHas(h: Heap, ring: seq<nat>, k: nat)
    requires k < |ring|
    ensures Free(ring[k], h.memory(ring[k]).size) in RingChunks(h, ring)
    decreases |ring|
  {
    if k > 0 {
      RingHas(h, ring[1..], k - 1);
    }
  }

  lemma StackPush(h: Heap, stack: seq<Tree>, t: Tree)
    ensures StackChunks(h, stack + [t]) == TreeChunks(h, t) + StackChunks(h, stack)
  {
    assert (stack + [t])[..|stack|] == stack;
  }

  ghost predicate AllAreFree(h: Heap, chunks: seq<Free>) {
    forall c | c in chunks :: IsFree(h, c)
  }

  function PushTree(stack: seq<Tree>, t: Tree): seq<Tree> {
    if t.Node? then stack + [t] else stack
  }

  lemma PushedChunks(h: Heap, stack: seq<Tree>, t: Tree)
    ensures StackChunks(h, PushTree(stack, t)) == TreeChunks(h, t) + StackChunks(h, stack)
  {
    if t.Node? {
      StackPush(h, stack, t);
    }
  }

  lemma TreeUnfolds(h: Heap, t: Tree)
    requires t.Node?
    ensures TreeChunks(h, t) == RingChunks(h, t.ring) + TreeChunks(h, t.child1) + TreeChunks(h, t.child0)
  {
  }

  /** A tree on top of a stack is its ring, and its subtrees pushed in place of it. */
  lemma StackPop(h: Heap, stack: seq<Tree>, t: Tree)
    requires t.Node?
    ensures TreeChunks(h, t) + StackChunks(h, stack)
         == RingChunks(h, t.ring) + StackChunks(h, PushTree(PushTree(stack, t.child0), t.child1))
  {
    hide TreeChunks, StackChunks, RingChunks, PushTree;
    TreeUnfolds(h, t);
    PushedChunks(h, stack, t.child0);
    PushedChunks(h, PushTree(stack, t.child0), t.child1);
  }

  class FreePayload {
    var count: nat
    var visited: nat
    const ranges: array<Range>

    constructor ()
      ensures Valid() && fresh(ranges) && View() == Progress(0, [])
    {
      count, visited := 0, 0;
      ranges := new Range[CAPACITY](_ => Range(0, 0));
    }

    ghost predicate Valid()
      reads this
    {
      ranges.Length == CAPACITY && count <= CAPACITY
    }

    ghost function View(): Progress
      reads this, ranges
      requires Valid()
    {
      Progress(visited, ranges[..count])
    }

    /** Counts a visit and appends what can be discarded of the chunk. */
    method VisitChunk(h: Heap, chunk: nat, size: nat, page: nat)
      requires Valid() && count < CAPACITY && page > 0
      requires IsFree(h, Free(chunk, size))
      modifies this, ranges
      ensures Valid() && View() == Take(old(View()), Free(chunk, size), page)
    {
      visited := visited + 1;
      if size < PREFIX + SUFFIX + page {
        return;
      }
      assert !h.memory(chunk).inUse && size == h.memory(chunk).size && chunk <= MAX_SIZE_T - size;
      var start := AlignDown(WrapAdd(WrapAdd(chunk, PREFIX), page - 1), page);
      var end := AlignDown(WrapAdd(WrapAdd(chunk, size), -SUFFIX), page);
      if start < end {
        ranges[count] := Range(start, end);
        count := count + 1;
      }
    }

    predicate IsFull(limit: nat)
      reads this
    {
      count == CAPACITY || visited == limit
    }

    /** Visits the chunks that share a node, in the order of their ring. */
    method VisitRing(h: Heap, node: nat, page: nat, limit: nat, ghost ring: seq<nat>, ghost rest: seq<Free>)
      returns (full: bool)
      requires Valid() && !IsFull(limit) && page > 0
      requires Ring(h, ring) && ring[0] == node && AllAreFree(h, RingChunks(h, ring))
      modifies this, ranges
      ensures Valid() && full == IsFull(limit)
      ensures Scan(RingChunks(h, ring) + rest, page, limit, old(View()))
           == if full then Outcome(View(), Partial) else Scan(rest, page, limit, View())
    {
      hide Take, RingChunks, IsFree, Scan;
      var sibling := node;
      ghost var k := 0;
      ghost var whole := Scan(RingChunks(h, ring) + rest, page, limit, View());
      assert ring[0..] == ring;
      while true
        invariant 0 <= k < |ring| && sibling == ring[k] && Valid() && !IsFull(limit)
        invariant whole == Scan(RingChunks(h, ring[k..]) + rest, page, limit, View())
        decreases |ring| - k
      {
        ghost var c := Free(sibling, h.memory(sibling).size);
        RingHas(h, ring, k);
        RingStep(h, ring, k, rest);
        ScanStep(c, RingChunks(h, ring[k + 1..]) + rest, page, limit, View());
        VisitChunk(h, sibling, h.memory(sibling).size, page);
        if IsFull(limit) {
          return true;
        }
        assert h.memory(ring[k]).fd == ring[if k + 1 < |ring| then k + 1 else 0];
        sibling := h.memory(sibling).fd;
        assert sibling != 0;
        k := k + 1;
        if sibling == node {
          break;
        }
      }
      NothingLeft(h, page, limit, View());
      assert ring[|ring|..] == [] && [] + rest == rest;
      full := false;
    }

    /** Visits a tree with a stack of pending nodes that never overflows. */
    method VisitTree(h: Heap, bin: nat, root: nat, page: nat, limit: nat, ghost t: Tree, ghost rest: seq<Free>)
      returns (full: bool)
      requires Valid() && !IsFull(limit) && page > 0
      requires Represents(h, bin, root, t) && t.Node? && t.Height() <= SIZE_T_BITS && AllAreFree(h, TreeChunks(h, t))
      modifies this, ranges
      ensures Valid() && full == IsFull(limit)
      ensures Scan(TreeChunks(h, t) + rest, page, limit, old(View()))
           == if full then Outcome(View(), Partial) else Scan(rest, page, limit, View())
    {
      hide Take, RingChunks, StackChunks, TreeChunks, Scan, IsFree, OnStack, Represents, Ring;
      var pending := new nat[SIZE_T_BITS](_ => 0);
      var depth := 0;
      pending[depth] := root;
      depth := depth + 1;
      ghost var stack := [t];
      ghost var whole := Scan(TreeChunks(h, t) + rest, page, limit, View());
      StackOfOne(h, bin, root, t);
      assert pending[..depth] == [root];
      while depth > 0
        invariant Valid() && !IsFull(limit) && fresh(pending)
        invariant depth == |stack| <= pending.Length && OnStack(h, bin, pending[..depth], stack)
        invariant AllAreFree(h, StackChunks(h, stack))
        invariant whole == Scan(StackChunks(h, stack) + rest, page, limit, View())
        decreases |StackChunks(h, stack)|
      {
        ghost var top, below := stack[depth - 1], stack[..depth - 1];
        assert stack == below + [top];
        TopOfStack(h, bin, pending[..depth], stack);
        StackPush(h, below, top);
        StackPop(h, below, top);
        depth := depth - 1;
        var node := pending[depth];
        assert pending[..depth + 1][..depth] == pending[..depth];
        assert node != 0 && h.memory(node).index == bin;
        depth, stack := PushChild(h, bin, pending, depth, h.memory(node).child0, below, top.child0);
        depth, stack := PushChild(h, bin, pending, depth, h.memory(node).child1, stack, top.child1);
        assert StackChunks(h, below + [top]) + rest == RingChunks(h, top.ring) + (StackChunks(h, stack) + rest);
        full := VisitRing(h, node, page, limit, top.ring, StackChunks(h, stack) + rest);
        if full {
          return;
        }
        RingHas(h, top.ring, 0);
      }
      NothingLeft(h, page, limit, View());
      assert [] + rest == rest;
      full := false;
    }

    /** Pushes a child, if there is one. */
    method PushChild(ghost h: Heap, ghost bin: nat, pending: array<nat>, depth: nat, child: nat,
                     ghost stack: seq<Tree>, ghost t: Tree)
      returns (depth': nat, ghost stack': seq<Tree>)
      requires pending.Length == SIZE_T_BITS && depth == |stack| <= SIZE_T_BITS
      requires OnStack(h, bin, pending[..depth], stack)
      requires Represents(h, bin, child, t) && t.Height() <= SIZE_T_BITS - depth
      modifies pending
      ensures depth' == |stack'| <= SIZE_T_BITS && OnStack(h, bin, pending[..depth'], stack')
      ensures stack' == PushTree(stack, t)
    {
      hide OnStack, Represents;
      depth', stack' := depth, stack;
      PushOn(h, bin, pending[..depth], stack, child, t);
      if child != 0 {
        assert depth < SIZE_T_BITS;
        ghost var before := pending[..depth];
        pending[depth] := child;
        depth', stack' := depth + 1, stack + [t];
        assert pending[..depth'] == before + [child];
      }
    }

    /** Enumerates the free payload of a heap: all of it, or as much as the bounds allow. */
    method Enumerate(h: Heap, page: nat, limit: nat, ghost trees: seq<Tree>, ghost small: seq<Free>)
      returns (status: Status)
      requires ranges.Length == CAPACITY && (h.initialized ==> WellFormed(h, trees, small))
      modifies this, ranges
      ensures status == Trapped <==> !IsPageSize(page) || limit == 0 || limit > MAX_VISITS
      ensures status == Trapped ==> count == old(count) && visited == old(visited) && ranges[..] == old(ranges[..])
      ensures status != Trapped ==> Valid()
      ensures status != Trapped && !h.initialized ==> Outcome(View(), status) == Outcome(Progress(0, []), Complete)
      ensures status != Trapped && h.initialized ==>
                Outcome(View(), status) == Scan(Visits(h, trees, page), page, limit, Progress(0, []))
    {
      hide Scan, Take, BinChunks, AllFree, IsFree, Payload;
      PageSizes(page);
      if page < 4096 || !IsPowerOfTwo(page) || page > 65536 || limit == 0 || limit > MAX_VISITS {
        return Trapped;
      }
      count, visited := 0, 0;
      if !h.initialized {
        return Complete;
      }
      var first := h.binOf(PREFIX + SUFFIX + page);
      ghost var bins := BinChunks(h, trees, first, TREE_BINS);
      ghost var whole := Scan(Visits(h, trees, page), page, limit, View());
      VisitsAreDisjoint(h, trees, small, page);
      SingleIsVisited(h, trees, page);
      var full := VisitIfAny(h, h.top != 0, h.top, h.topSize, page, limit,
                             (if h.dvSize != 0 then [Free(h.dv, h.dvSize)] else []) + bins);
      if full {
        return Partial;
      }
      full := VisitIfAny(h, h.dvSize != 0, h.dv, h.dvSize, page, limit, bins);
      if full {
        return Partial;
      }
      full := VisitBins(h, first, page, limit, trees);
      status := if full then Partial else Complete;
    }

    /** Visits a chunk that is not in a bin, if it is there. */
    method VisitIfAny(h: Heap, any: bool, chunk: nat, size: nat, page: nat, limit: nat, ghost rest: seq<Free>)
      returns (full: bool)
      requires Valid() && !IsFull(limit) && page > 0
      requires any ==> IsFree(h, Free(chunk, size))
      modifies this, ranges
      ensures Valid() && full == IsFull(limit)
      ensures Scan((if any then [Free(chunk, size)] else []) + rest, page, limit, old(View()))
           == if full then Outcome(View(), Partial) else Scan(rest, page, limit, View())
    {
      hide Scan, Take, IsFree;
      assert [] + rest == rest;
      if any {
        ScanStep(Free(chunk, size), rest, page, limit, View());
        VisitChunk(h, chunk, size, page);
      }
      full := count == CAPACITY || visited == limit;
    }

    /** Visits the marked bins from the last one down to the first that can hold big chunks. */
    method VisitBins(h: Heap, first: nat, page: nat, limit: nat, ghost trees: seq<Tree>)
      returns (full: bool)
      requires Valid() && !IsFull(limit) && page > 0 && first < TREE_BINS
      requires HasTrees(h, trees) && AllAreFree(h, BinChunks(h, trees, first, TREE_BINS))
      modifies this, ranges
      ensures Valid() && full == IsFull(limit)
      ensures Scan(BinChunks(h, trees, first, TREE_BINS), page, limit, old(View()))
           == Outcome(View(), if full then Partial else Complete)
    {
      hide Scan, IsFree, TreeChunks, IsFull, Represents;
      var index := TREE_BINS;
      ghost var whole := Scan(BinChunks(h, trees, first, TREE_BINS), page, limit, View());
      while index > first
        invariant first <= index <= TREE_BINS && Valid() && !IsFull(limit)
        invariant AllAreFree(h, BinChunks(h, trees, first, index))
        invariant whole == Scan(BinChunks(h, trees, first, index), page, limit, View())
      {
        index := index - 1;
        ghost var rest := BinChunks(h, trees, first, index);
        assert BinChunks(h, trees, first, index + 1) == TreeChunks(h, trees[index]) + rest;
        assert HasTree(h, index, trees[index]);
        if !h.marked[index] {
          NothingLeft(h, page, limit, View());
          assert [] + rest == rest;
        } else {
          full := VisitTree(h, index, h.bins[index], page, limit, trees[index], rest);
          if full {
            return;
          }
        }
      }
      full := false;
      NothingLeft(h, page, limit, View());
    }
  }

  lemma SingleIsVisited(h: Heap, trees: seq<Tree>, page: nat)
    requires |trees| == TREE_BINS
    ensures Visits(h, trees, page)
         == (if h.top != 0 then [Free(h.top, h.topSize)] else [])
            + ((if h.dvSize != 0 then [Free(h.dv, h.dvSize)] else [])
               + BinChunks(h, trees, FirstBin(h, page), TREE_BINS))
    ensures h.top != 0 ==> Free(h.top, h.topSize) in Visits(h, trees, page)
    ensures h.dvSize != 0 ==> Free(h.dv, h.dvSize) in Visits(h, trees, page)
    ensures forall c | c in BinChunks(h, trees, FirstBin(h, page), TREE_BINS) :: c in Visits(h, trees, page)
  {
  }

  // ----- what an enumeration is good for -----

  /** Some range holds the page. */
  ghost predicate Covers(ranges: seq<Range>, p: nat, page: nat) {
    exists r :: r in ranges && r.start <= p && p + page <= r.end
  }

  /**
   * Whatever stops it, an enumeration counts its visits within their limit, and returns at most as many
   * ranges: whole pages that are disjoint, each between the margins of one free chunk.
   */
  lemma EnumerationIsSafe(h: Heap, trees: seq<Tree>, small: seq<Free>, page: nat, limit: nat)
    requires WellFormed(h, trees, small) && IsPageSize(page) && 0 < limit <= MAX_VISITS
    ensures var o := Scan(Visits(h, trees, page), page, limit, Progress(0, []));
            var rs := o.progress.ranges;
            && |rs| <= o.progress.visited <= limit && |rs| <= CAPACITY
            && (o.status == Complete || |rs| == CAPACITY || o.progress.visited == limit)
            && (forall r | r in rs :: IsWholePages(r, page) && r.end <= MAX_SIZE_T
                  && exists c :: c in AllFree(h, trees, small) && Holds(c, page, r) && IsInside(r, c))
            && (forall i, j | 0 <= i < j < |rs| :: Apart(rs[i], rs[j]))
  {
    hide Scan, Visits, AllFree, Payload, Ranges, HasTree, Monotone, AllDisjoint, IsFree;
    var visits := Visits(h, trees, page);
    VisitsAreDisjoint(h, trees, small, page);
    VisitsAreAll(h, trees, small, page);
    NothingLeft(h, page, limit, Progress(0, []));
    ScanMeans(visits, page, limit, [], Progress(0, []));
    assert [] + visits == visits;
    var o := Scan(visits, page, limit, Progress(0, []));
    var done := visits[..o.progress.visited];
    PrefixIsDisjoint(visits, o.progress.visited);
    RangesAreFew(done, page);
    RangesExact(done, page);
    RangesAreDisjoint(done, page);
    forall r | r in o.progress.ranges
      ensures exists c :: c in AllFree(h, trees, small) && Holds(c, page, r) && IsInside(r, c)
      ensures r.end <= MAX_SIZE_T
    {
      var c :| c in done && Holds(c, page, r);
      PayloadIsInside(c, page);
      assert c in visits && c in AllFree(h, trees, small);
    }
  }

  /** A complete enumeration has visited every big free chunk, and covers every page that fits into one. */
  lemma CompleteCoversAll(h: Heap, trees: seq<Tree>, small: seq<Free>, page: nat, limit: nat, c: Free, p: nat)
    requires WellFormed(h, trees, small) && IsPageSize(page) && 0 < limit <= MAX_VISITS
    requires Scan(Visits(h, trees, page), page, limit, Progress(0, [])).status == Complete
    requires c in AllFree(h, trees, small) && IsAddressable(c)
    requires p % page == 0 && c.address + PREFIX <= p && p + page + SUFFIX <= c.End()
    ensures var visits := Visits(h, trees, page);
            var o := Scan(visits, page, limit, Progress(0, []));
            o.progress.visited == |visits| && Count(visits, c) == 1 && Covers(o.progress.ranges, p, page)
  {
    hide Scan, Visits, AllFree, Payload, Ranges, HasTree, Monotone, AllDisjoint, IsFree;
    var visits := Visits(h, trees, page);
    NothingLeft(h, page, limit, Progress(0, []));
    ScanMeans(visits, page, limit, [], Progress(0, []));
    assert [] + visits == visits && visits[..|visits|] == visits;
    BigChunksAreVisited(h, trees, small, page, c);
    RangesExact(visits, page);
    PayloadHasPage(c, page, p);
    HoldsMeans(c, page, Payload(c, page).value);
  }

  lemma NothingLeft(h: Heap, page: nat, limit: nat, p: Progress)
    requires page > 0
    ensures RingChunks(h, []) == [] && TreeChunks(h, Empty) == [] && StackChunks(h, []) == []
    ensures Ranges([], page) == [] && Scan([], page, limit, p) == Outcome(p, Complete)
  {
  }

  lemma PrefixIsDisjoint(chunks: seq<Free>, n: nat)
    requires n <= |chunks| && AllDisjoint(chunks)
    ensures AllDisjoint(chunks[..n])
  {
  }

  lemma VisitsAreAll(h: Heap, trees: seq<Tree>, small: seq<Free>, page: nat)
    requires WellFormed(h, trees, small)
    ensures forall c | c in Visits(h, trees, page) :: c in AllFree(h, trees, small)
  {
    BinChunksSplit(h, trees, 0, FirstBin(h, page), TREE_BINS);
  }

  lemma StackOfOne(h: Heap, bin: nat, root: nat, t: Tree)
    requires Represents(h, bin, root, t) && t.Node? && t.Height() <= SIZE_T_BITS
    ensures StackChunks(h, [t]) == TreeChunks(h, t) && OnStack(h, bin, [root], [t])
  {
    StackPush(h, [], t);
    assert [] + [t] == [t];
  }

  /** The pending nodes are those of the trees, which get lower toward the top. */
  ghost predicate OnStack(h: Heap, bin: nat, pending: seq<nat>, stack: seq<Tree>) {
    && |pending| == |stack|
    && forall i | 0 <= i < |stack| ::
         stack[i].Node? && stack[i].Height() <= SIZE_T_BITS - i && Represents(h, bin, pending[i], stack[i])
  }

  /** What is known of the node on top of the stack. */
  lemma TopOfStack(h: Heap, bin: nat, pending: seq<nat>, stack: seq<Tree>)
    requires OnStack(h, bin, pending, stack) && stack != []
    ensures var d := |stack| - 1; IsNode(h, bin, pending[d], stack[d]) && stack[d].Height() <= SIZE_T_BITS - d
    ensures OnStack(h, bin, pending[..|stack| - 1], stack[..|stack| - 1])
  {
  }

  ghost predicate IsNode(h: Heap, bin: nat, p: nat, t: Tree) {
    && p != 0 && t.Node? && t.ring != [] && Ring(h, t.ring) && t.ring[0] == p && h.memory(p).index == bin
    && Represents(h, bin, h.memory(p).child0, t.child0)
    && Represents(h, bin, h.memory(p).child1, t.child1)
  }

  /** Pushing a subtree, if there is one, leaves the stack in order and within its size. */
  lemma PushOn(h: Heap, bin: nat, pending: seq<nat>, stack: seq<Tree>, p: nat, t: Tree)
    requires OnStack(h, bin, pending, stack) && Represents(h, bin, p, t) && t.Height() <= SIZE_T_BITS - |stack|
    ensures p != 0 <==> t.Node?
    ensures p != 0 ==> |stack| < SIZE_T_BITS && OnStack(h, bin, pending + [p], stack + [t])
  {
  }
}
