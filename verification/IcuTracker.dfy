/** Accounting of the blocks that ICU holds: a doubly linked list through the blocks themselves. */
module IcuTracker {
  import opened Options
  import opened SizeT

  const HEADER_BYTES := 32

  /** What malloc does with a request, and what realloc does. */
  datatype Reallocation = InPlace | Moved | Refused

  // ----- the accounting, on values -----

  /** The sizes of the live blocks in the order of the list, and the injection of faults. */
  datatype Account = Account(sizes: seq<nat>, attempts: nat, failAt: nat, injected: bool)
  {
    function Attempt(): Account {
      this.(attempts := attempts + 1, injected := injected || (failAt != 0 && attempts + 1 == failAt))
    }

    predicate NextFails() {
      failAt != 0 && attempts + 1 == failAt
    }

    predicate Grants(bytes: nat) {
      !NextFails() && bytes <= MAX_SIZE_T - HEADER_BYTES
    }
  }

  /** A call of ICU, on a live block or on null, and what the C library makes of it. */
  datatype Call =
    | Allocating(bytes: nat, granted: bool)
    | Freeing(block: Option<nat>)
    | Reallocating(block: Option<nat>, bytes: nat, outcome: Reallocation)

  /** What a call does to the account. */
  function Apply(a: Account, call: Call): Account
    requires OnLive(a, call)
  {
    match call
    case Allocating(bytes, granted) => Grown(a, bytes, granted)
    case Freeing(None) => a
    case Freeing(Some(k)) => a.(sizes := Without(a.sizes, k))
    case Reallocating(None, bytes, outcome) => Grown(a, bytes, outcome != Refused)
    case Reallocating(Some(k), bytes, outcome) =>
      if bytes == 0 then a.(sizes := Without(a.sizes, k))
      else if outcome != Refused && a.Grants(bytes) then a.Attempt().(sizes := a.sizes[k := bytes])
      else a.Attempt()
  }

  function Grown(a: Account, bytes: nat, granted: bool): Account {
    if granted && a.Grants(bytes) then a.Attempt().(sizes := [bytes] + a.sizes) else a.Attempt()
  }

  predicate OnLive(a: Account, call: Call) {
    && (call.Freeing? && call.block.Some? ==> call.block.value < |a.sizes|)
    && (call.Reallocating? && call.block.Some? ==> call.block.value < |a.sizes|)
  }

  /** The C library grants memory only where there is room beside the live blocks. */
  predicate HasRoom(a: Account, call: Call)
    requires OnLive(a, call)
  {
    match call
    case Allocating(bytes, granted) => granted ==> Sum(a.sizes) + bytes <= MAX_SIZE_T
    case Freeing(_) => true
    case Reallocating(block, bytes, outcome) =>
      outcome != Refused ==> Sum(a.sizes) - (if block.Some? then a.sizes[block.value] else 0) + bytes <= MAX_SIZE_T
  }

  predicate Feasible(a: Account, calls: seq<Call>)
    decreases |calls|
  {
    calls == [] || (OnLive(a, calls[0]) && HasRoom(a, calls[0]) && Feasible(Apply(a, calls[0]), calls[1..]))
  }

  function ApplyAll(a: Account, calls: seq<Call>): Account
    requires Feasible(a, calls)
    decreases |calls|
  {
    if calls == [] then a else ApplyAll(Apply(a, calls[0]), calls[1..])
  }

  /** Freeing a block that was just granted leaves the sizes as they were. */
  lemma FreeUndoesAllocate(a: Account, bytes: nat)
    requires a.Grants(bytes)
    ensures Apply(Apply(a, Allocating(bytes, true)), Freeing(Some(0))).sizes == a.sizes
  {
    var grown := Apply(a, Allocating(bytes, true));
    assert Without(grown.sizes, 0) == a.sizes;
  }

  /** Wherever a block is, resizing it counts like freeing it and allocating another one. */
  lemma ReallocateIsFreeAndAllocate(a: Account, k: nat, bytes: nat)
    requires k < |a.sizes| && bytes != 0 && a.Grants(bytes)
    ensures var resized := Apply(a, Reallocating(Some(k), bytes, Moved));
            var replaced := Apply(Apply(a, Freeing(Some(k))), Allocating(bytes, true));
            && multiset(resized.sizes) == multiset(replaced.sizes)
            && Sum(resized.sizes) == Sum(replaced.sizes)
            && resized == Apply(a, Reallocating(Some(k), bytes, InPlace))
  {
    var rest := Without(a.sizes, k);
    var resized := a.sizes[k := bytes];
    assert resized == resized[..k] + [bytes] + resized[k + 1..];
    assert rest == resized[..k] + resized[k + 1..];
    SumUpdate(a.sizes, k, bytes);
    SumWithout(a.sizes, k);
    SumCons(bytes, rest);
  }

  function Sum(sizes: seq<nat>): nat {
    if sizes == [] then 0 else sizes[0] + Sum(sizes[1..])
  }

  lemma SumCons(bytes: nat, sizes: seq<nat>)
    ensures Sum([bytes] + sizes) == bytes + Sum(sizes)
  {
    assert ([bytes] + sizes)[1..] == sizes;
  }

  function Without<T>(s: seq<T>, k: nat): seq<T>
    requires k < |s|
  {
    s[..k] + s[k + 1..]
  }

  lemma {:induction false} SumWithout(sizes: seq<nat>, k: nat)
    requires k < |sizes|
    ensures Sum(sizes) == Sum(Without(sizes, k)) + sizes[k]
    decreases |sizes|
  {
    if k > 0 {
      SumWithout(sizes[1..], k - 1);
      assert Without(sizes, k)[1..] == Without(sizes[1..], k - 1);
    } else {
      assert Without(sizes, 0) == sizes[1..];
    }
  }

  lemma {:induction false} SumUpdate(sizes: seq<nat>, k: nat, bytes: nat)
    requires k < |sizes|
    ensures Sum(sizes[k := bytes]) == Sum(sizes) - sizes[k] + bytes
  {
    SumWithout(sizes, k);
    SumWithout(sizes[k := bytes], k);
    assert Without(sizes, k) == Without(sizes[k := bytes], k);
  }

  // ----- the blocks -----

  class IcuAllocation {
    var bytes: nat
    var previous: IcuAllocation?
    var next: IcuAllocation?
    var faultIndex: nat
    var attempt: nat

    constructor ()
    {
    }
  }

  function Before(list: seq<IcuAllocation>, i: nat): IcuAllocation?
    requires i < |list|
  {
    if i > 0 then list[i - 1] else null
  }

  function After(list: seq<IcuAllocation>, i: nat): IcuAllocation?
    requires i < |list|
  {
    if i + 1 < |list| then list[i + 1] else null
  }

  predicate Distinct(list: seq<IcuAllocation>) {
    forall i, j | 0 <= i < j < |list| :: list[i] != list[j]
  }

  /** Taking out an element makes its neighbours each other's neighbours. */
  lemma WithoutNeighbours(list: seq<IcuAllocation>, k: nat, i: nat)
    requires k < |list| && i < |list| - 1
    ensures var rest, j := Without(list, k), if i < k then i else i + 1;
            && |rest| == |list| - 1 && rest[i] == list[j]
            && Before(rest, i) == (if i == k then Before(list, k) else Before(list, j))
            && After(rest, i) == (if i + 1 == k then After(list, k) else After(list, j))
  {
  }

  lemma WithoutIsDistinct(list: seq<IcuAllocation>, k: nat)
    requires k < |list| && Distinct(list)
    ensures Distinct(Without(list, k)) && |Without(list, k)| == |list| - 1
    ensures |list| > 1 ==> Without(list, k)[0] == if k == 0 then list[1] else list[0]
  {
  }

  ghost predicate LinkedAt(list: seq<IcuAllocation>, i: nat)
    requires i < |list|
    reads list`previous, list`next
  {
    list[i].previous == Before(list, i) && list[i].next == After(list, i)
  }

  class Tracker {
    var requestedBytes: nat
    var allocationCount: nat
    var liveAllocations: IcuAllocation?
    var allocationAttempts: nat
    var failAtAllocation: nat
    var faultInjected: bool
    ghost var live: seq<IcuAllocation>
    ghost var sizes: seq<nat>

    constructor (failAt: nat)
      ensures Valid() && live == [] && View() == Account([], 0, failAt, false)
    {
      requestedBytes, allocationCount, liveAllocations := 0, 0, null;
      allocationAttempts, failAtAllocation, faultInjected := 0, failAt, false;
      live, sizes := [], [];
    }

    /** The list holds exactly the live blocks, each once, with links that are inverse to each other. */
    ghost predicate Linked()
      reads this`live, this`liveAllocations, live`previous, live`next
    {
      && liveAllocations == (if live == [] then null else live[0])
      && Distinct(live) && forall i | 0 <= i < |live| :: LinkedAt(live, i)
    }

    ghost predicate Sized()
      reads this`live, this`sizes, live`bytes
    {
      |sizes| == |live| && forall i | 0 <= i < |live| :: live[i].bytes == sizes[i]
    }

    /** The counters agree with the list, and the live blocks fit into memory together. */
    ghost predicate Counted()
      reads this`live, this`sizes, this`allocationCount, this`requestedBytes
    {
      allocationCount == |live| && requestedBytes == Sum(sizes) <= MAX_SIZE_T
    }

    ghost predicate Valid()
      reads this, live
    {
      Linked() && Sized() && Counted()
    }

    ghost function View(): Account
      reads this
    {
      Account(sizes, allocationAttempts, failAtAllocation, faultInjected)
    }

    /** Whether this request is the one that fails on purpose. */
    method FailAllocation() returns (fails: bool)
      modifies this`allocationAttempts, this`faultInjected
      ensures View() == old(View()).Attempt() && fails == old(View()).NextFails()
    {
      allocationAttempts := allocationAttempts + 1;
      fails := failAtAllocation != 0 && allocationAttempts == failAtAllocation;
      if fails {
        faultInjected := true;
      }
    }

    /** Puts a block in front of the list. */
    method PushFront(allocation: IcuAllocation)
      requires Linked() && Sized() && allocation !in live
      modifies this`live, this`sizes, this`liveAllocations, live`previous, allocation`previous, allocation`next
      ensures Linked() && live == [allocation] + old(live)
      ensures Sized() && sizes == [allocation.bytes] + old(sizes)
    {
      allocation.previous := null;
      allocation.next := liveAllocations;
      if liveAllocations != null {
        liveAllocations.previous := allocation;
      }
      liveAllocations := allocation;
      ghost var was := live;
      live, sizes := [allocation] + was, [allocation.bytes] + sizes;
      forall i | 0 <= i < |live|
        ensures LinkedAt(live, i)
      {
        if i > 0 {
          assert old(LinkedAt(was, i - 1)) && live[i] == was[i - 1];
        }
      }
    }

    /** Takes a block out of the list. */
    method Unlink(allocation: IcuAllocation, ghost k: nat)
      requires Linked() && k < |live| && live[k] == allocation
      modifies this`live, this`liveAllocations, live`previous, live`next
      ensures Linked() && live == Without(old(live), k)
    {
      hide Without;
      assert LinkedAt(live, k);
      if allocation.previous != null {
        allocation.previous.next := allocation.next;
      } else {
        liveAllocations := allocation.next;
      }
      if allocation.next != null {
        allocation.next.previous := allocation.previous;
      }
      ghost var was := live;
      live := Without(was, k);
      WithoutIsDistinct(was, k);
      forall i | 0 <= i < |live|
        ensures LinkedAt(live, i)
      {
        var j := if i < k then i else i + 1;
        WithoutNeighbours(was, k, i);
        assert old(LinkedAt(was, j));
      }
    }

    /** Lets the neighbours of a block that may have moved point to it. */
    method Relink(allocation: IcuAllocation, ghost k: nat)
      requires Linked() && k < |live| && (allocation == live[k] || allocation !in live)
      requires Sized() && allocation.bytes == live[k].bytes
      requires allocation.previous == live[k].previous && allocation.next == live[k].next
      modifies this`live, this`liveAllocations, live`previous, live`next
      ensures Linked() && Distinct(live) && live == old(live)[k := allocation]
      ensures Sized()
    {
      assert LinkedAt(live, k);
      if allocation.previous != null {
        allocation.previous.next := allocation;
      } else {
        liveAllocations := allocation;
      }
      if allocation.next != null {
        allocation.next.previous := allocation;
      }
      ghost var was := live;
      live := was[k := allocation];
      forall i | 0 <= i < |live|
        ensures LinkedAt(live, i)
      {
        assert old(LinkedAt(was, i));
      }
    }

    /** A new block at the head of the list, or null. Memory is granted only where there is room. */
    method Allocate(bytes: nat, granted: bool) returns (memory: IcuAllocation?)
      requires Valid() && (granted ==> Sum(sizes) + bytes <= MAX_SIZE_T)
      modifies this, live
      ensures Valid()
      ensures memory != null <==> granted && old(View()).Grants(bytes)
      ensures memory == null ==> live == old(live) && View() == old(View()).Attempt()
      ensures memory != null ==> fresh(memory) && live == [memory] + old(live)
      ensures memory != null ==> View() == old(View()).Attempt().(sizes := [bytes] + old(sizes))
    {
      hide Linked, Sized, Sum, Without;
      var fails := FailAllocation();
      if fails || bytes > MAX_SIZE_T - HEADER_BYTES || !granted {
        return null;
      }
      memory := Insert(bytes);
    }

    method Insert(bytes: nat) returns (allocation: IcuAllocation)
      requires Valid() && Sum(sizes) + bytes <= MAX_SIZE_T
      modifies this, live
      ensures Valid() && fresh(allocation) && live == [allocation] + old(live)
      ensures View() == old(View()).(sizes := [bytes] + old(sizes))
    {
      hide Linked, Sized, Sum;
      allocation := new IcuAllocation();
      allocation.bytes := bytes;
      allocation.faultIndex := failAtAllocation;
      allocation.attempt := allocationAttempts;
      SumCons(bytes, sizes);
      PushFront(allocation);
      requestedBytes := WrapAdd(requestedBytes, bytes);
      allocationCount := allocationCount + 1;
    }

    /** Takes a live block out of the list. */
    method Free(memory: IcuAllocation?, ghost k: nat)
      requires Valid() && (memory != null ==> k < |live| && live[k] == memory)
      modifies this, live
      ensures Valid()
      ensures memory == null ==> live == old(live) && View() == old(View())
      ensures memory != null ==> live == Without(old(live), k)
      ensures memory != null ==> View() == old(View()).(sizes := Without(old(sizes), k))
    {
      hide Linked, Sum;
      if memory == null {
        return;
      }
      var allocation: IcuAllocation := memory;
      SumWithout(sizes, k);
      assert allocationCount != 0 && allocation.bytes <= requestedBytes;
      requestedBytes := requestedBytes - allocation.bytes;
      allocationCount := allocationCount - 1;
      Unlink(allocation, k);
      sizes := Without(sizes, k);
    }

    /** Resizes a live block, which keeps its place in the list even if it moves. */
    method Reallocate(memory: IcuAllocation?, bytes: nat, outcome: Reallocation, ghost k: nat)
      returns (result: IcuAllocation?)
      requires Valid() && (memory != null ==> k < |live| && live[k] == memory)
      requires outcome != Refused ==> Sum(sizes) - (if memory != null then sizes[k] else 0) + bytes <= MAX_SIZE_T
      modifies this, live
      ensures Valid()
      ensures result != null <==> (memory == null || bytes != 0) && outcome != Refused && old(View()).Grants(bytes)
      ensures memory == null && result == null ==> live == old(live) && View() == old(View()).Attempt()
      ensures memory == null && result != null ==>
                fresh(result) && live == [result] + old(live)
                && View() == old(View()).Attempt().(sizes := [bytes] + old(sizes))
      ensures memory != null && bytes == 0 ==>
                live == Without(old(live), k) && View() == old(View()).(sizes := Without(old(sizes), k))
      ensures memory != null && bytes != 0 && result == null ==>
                live == old(live) && View() == old(View()).Attempt()
      ensures memory != null && bytes != 0 && result != null ==>
                live == old(live)[k := result] && (result == memory || fresh(result))
                && View() == old(View()).Attempt().(sizes := old(sizes)[k := bytes])
    {
      hide Linked, Sum, Without;
      if memory == null {
        result := Allocate(bytes, outcome != Refused);
        return;
      }
      if bytes == 0 {
        Free(memory, k);
        return null;
      }
      var fails := FailAllocation();
      if fails || bytes > MAX_SIZE_T - HEADER_BYTES || outcome == Refused {
        return null;
      }
      result := Resize(memory, bytes, outcome, k);
    }

    method Resize(previous: IcuAllocation, bytes: nat, outcome: Reallocation, ghost k: nat)
      returns (allocation: IcuAllocation)
      requires Valid() && k < |live| == |sizes| && live[k] == previous && previous.bytes == sizes[k]
      requires outcome != Refused
      requires Sum(sizes) - sizes[k] + bytes <= MAX_SIZE_T
      modifies this, live
      ensures Valid() && live == old(live)[k := allocation] && (allocation == previous || fresh(allocation))
      ensures View() == old(View()).(sizes := old(sizes)[k := bytes])
    {
      hide Sum, Linked, Sized, Distinct;
      var oldBytes := previous.bytes;
      SumUpdate(sizes, k, bytes);
      SumWithout(sizes, k);
      allocation := MoveBlock(previous, outcome);
      Relink(allocation, k);
      assert allocationCount != 0 && oldBytes <= requestedBytes;
      SetBytes(allocation, bytes, k);
      requestedBytes := WrapAdd(requestedBytes - oldBytes, bytes);
    }

    method SetBytes(allocation: IcuAllocation, bytes: nat, ghost k: nat)
      requires Sized() && Distinct(live) && k < |live| && live[k] == allocation
      modifies this`sizes, allocation`bytes
      ensures Sized() && sizes == old(sizes)[k := bytes] && allocation.bytes == bytes
    {
      allocation.bytes := bytes;
      sizes := sizes[k := bytes];
    }

    /** The live block at a place of the list. */
    method BlockAt(k: nat) returns (block: IcuAllocation)
      requires Linked() && k < |live|
      ensures block == live[k]
    {
      assert LinkedAt(live, 0);
      block := liveAllocations;
      var i := 0;
      while i < k
        invariant i <= k && block == live[i]
      {
        assert LinkedAt(live, i);
        block := block.next;
        i := i + 1;
      }
    }

    method Perform(call: Call)
      requires Valid() && OnLive(View(), call) && HasRoom(View(), call)
      modifies this, live
      ensures Valid() && View() == Apply(old(View()), call)
      ensures forall k | 0 <= k < |live| :: live[k] in old(live) || fresh(live[k])
    {
      hide Linked, Sum, Counted;
      var block: IcuAllocation? := null;
      match call {
        case Allocating(bytes, granted) =>
          var memory := Allocate(bytes, granted);
        case Freeing(b) =>
          if b.Some? {
            block := BlockAt(b.value);
          }
          Free(block, if b.Some? then b.value else 0);
        case Reallocating(b, bytes, outcome) =>
          if b.Some? {
            block := BlockAt(b.value);
          }
          var memory := Reallocate(block, bytes, outcome, if b.Some? then b.value else 0);
      }
    }

    /** After any calls on live blocks, the list and the counters are right, and nothing has aborted. */
    method Run(calls: seq<Call>)
      requires Valid() && Feasible(View(), calls)
      modifies this, live
      ensures Valid() && View() == ApplyAll(old(View()), calls)
    {
      hide Linked, Sized, Counted, Apply, HasRoom, OnLive;
      ghost var whole := ApplyAll(View(), calls);
      var i := 0;
      while i < |calls|
        invariant 0 <= i <= |calls| && Valid() && Feasible(View(), calls[i..])
        invariant whole == ApplyAll(View(), calls[i..])
        invariant forall k | 0 <= k < |live| :: live[k] in old(live) || fresh(live[k])
      {
        assert calls[i..][0] == calls[i] && calls[i..][1..] == calls[i + 1..];
        Perform(calls[i]);
        i := i + 1;
      }
    }
  }

  /** The contents of the block, header included, at the same address or at a new one. */
  method MoveBlock(block: IcuAllocation, outcome: Reallocation) returns (moved: IcuAllocation)
    requires outcome != Refused
    ensures moved == block || fresh(moved)
    ensures moved.bytes == block.bytes && moved.previous == block.previous && moved.next == block.next
  {
    if outcome == InPlace {
      return block;
    }
    moved := new IcuAllocation();
    moved.bytes, moved.previous, moved.next := block.bytes, block.previous, block.next;
    moved.faultIndex, moved.attempt := block.faultIndex, block.attempt;
  }
}
