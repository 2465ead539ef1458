/** Which callable owns a stretch of source. */
module Ownership {
  import opened Options
  import opened Provenance

  datatype Owner = Owner(id: CallableId, range: Range)

  predicate Holds(range: Range, start: nat, end: nat) {
    range.start <= start && end <= range.end
  }

  function Width(range: Range): int {
    range.end - range.start
  }

  predicate Disjoint(a: Range, b: Range) {
    a.end <= b.start || b.end <= a.start
  }

  /** Apart or one inside the other, and not the same. */
  predicate Compatible(a: Range, b: Range) {
    && (Disjoint(a, b) || Holds(a, b.start, b.end) || Holds(b, a.start, a.end))
    && a != b
  }

  /** The ranges nest like a forest. */
  ghost predicate Nested(owners: seq<Owner>) {
    forall i, j | 0 <= i < j < |owners| :: Compatible(owners[i].range, owners[j].range)
  }

  method ValidateOwnerRanges(owners: seq<Owner>) returns (ok: bool)
    ensures ok <==> Nested(owners)
  {
    var i := 0;
    while i < |owners|
      invariant 0 <= i <= |owners|
      invariant forall k, l | 0 <= k < i && k < l < |owners| :: Compatible(owners[k].range, owners[l].range)
    {
      var j := i + 1;
      while j < |owners|
        invariant i < j <= |owners|
        invariant forall l | i < l < j :: Compatible(owners[i].range, owners[l].range)
      {
        var left, right := owners[i].range, owners[j].range;
        if !Disjoint(left, right) && !Holds(left, right.start, right.end) && !Holds(right, left.start, left.end) {
          assert !Compatible(owners[i].range, owners[j].range);
          return false;
        }
        if left.start == right.start && left.end == right.end {
          assert !Compatible(owners[i].range, owners[j].range);
          return false;
        }
        j := j + 1;
      }
      i := i + 1;
    }
    ok := true;
  }

  datatype Ownership = Unowned | OwnedBy(owner: Owner) | Ambiguous

  predicate HoldsAt(owners: seq<Owner>, i: nat, start: nat, end: nat)
    requires i < |owners|
  {
    Holds(owners[i].range, start, end)
  }

  /** Two owners are as wide as each other when the second is met, and none before it is narrower. */
  ghost predicate Clashes(owners: seq<Owner>, start: nat, end: nat) {
    exists i, j | 0 <= i < j < |owners| :: ClashesAt(owners, start, end, i, j)
  }

  ghost predicate ClashesAt(owners: seq<Owner>, start: nat, end: nat, i: nat, j: nat)
    requires i < j < |owners|
  {
    && HoldsAt(owners, i, start, end) && HoldsAt(owners, j, start, end)
    && Width(owners[i].range) == Width(owners[j].range)
    && forall k | 0 <= k < j && HoldsAt(owners, k, start, end) :: Width(owners[i].range) <= Width(owners[k].range)
  }

  /** Narrowest of those that hold the stretch. */
  predicate IsInnermost(owners: seq<Owner>, start: nat, end: nat, owner: Owner) {
    && owner in owners && Holds(owner.range, start, end)
    && forall o | o in owners && Holds(o.range, start, end) :: o == owner || Width(owner.range) < Width(o.range)
  }

  method InnermostOwner(owners: seq<Owner>, start: nat, end: nat) returns (r: Ownership)
    ensures r.Ambiguous? <==> Clashes(owners, start, end)
    ensures r.Unowned? <==> forall o | o in owners :: !Holds(o.range, start, end)
    ensures r.OwnedBy? ==> IsInnermost(owners, start, end, r.owner)
  {
    hide Holds;
    var selected: Option<nat> := None;
    var i := 0;
    while i < |owners|
      invariant 0 <= i <= |owners|
      invariant selected.None? <==> forall k | 0 <= k < i :: !HoldsAt(owners, k, start, end)
      invariant selected.Some? ==> selected.value < i && HoldsAt(owners, selected.value, start, end)
      invariant selected.Some? ==> forall k | 0 <= k < i && k != selected.value && HoldsAt(owners, k, start, end) ::
                  Width(owners[selected.value].range) < Width(owners[k].range)
      invariant forall k, l | 0 <= k < l < i :: !ClashesAt(owners, start, end, k, l)
    {
      assert HoldsAt(owners, i, start, end) <==> Holds(owners[i].range, start, end);
      if Holds(owners[i].range, start, end) {
        if selected.Some? && Width(owners[selected.value].range) == Width(owners[i].range) {
          assert ClashesAt(owners, start, end, selected.value, i);
          return Ambiguous;
        }
        if selected.None? || Width(owners[i].range) < Width(owners[selected.value].range) {
          selected := Some(i);
        }
      }
      i := i + 1;
    }
    if selected.None? {
      assert forall k | 0 <= k < |owners| :: !Holds(owners[k].range, start, end) by { NoneHolds(owners, start, end); }
      return Unowned;
    }
    SelectedIsInnermost(owners, start, end, selected.value);
    r := OwnedBy(owners[selected.value]);
  }

  lemma NoneHolds(owners: seq<Owner>, start: nat, end: nat)
    requires forall k | 0 <= k < |owners| :: !HoldsAt(owners, k, start, end)
    ensures forall k | 0 <= k < |owners| :: !Holds(owners[k].range, start, end)
  {
    forall k | 0 <= k < |owners|
      ensures !Holds(owners[k].range, start, end)
    {
      assert !HoldsAt(owners, k, start, end);
    }
  }

  lemma SelectedIsInnermost(owners: seq<Owner>, start: nat, end: nat, s: nat)
    requires s < |owners| && HoldsAt(owners, s, start, end)
    requires forall k | 0 <= k < |owners| && k != s && HoldsAt(owners, k, start, end) ::
               Width(owners[s].range) < Width(owners[k].range)
    ensures IsInnermost(owners, start, end, owners[s])
  {
    forall o | o in owners && Holds(o.range, start, end)
      ensures o == owners[s] || Width(owners[s].range) < Width(o.range)
    {
      var k :| 0 <= k < |owners| && owners[k] == o;
      assert HoldsAt(owners, k, start, end);
    }
  }

  // ----- nested ranges leave no doubt -----

  /** Two of the ranges that hold a stretch with something in it lie one inside the other. */
  lemma HoldersNest(a: Range, b: Range, start: nat, end: nat)
    requires Compatible(a, b) && Holds(a, start, end) && Holds(b, start, end) && start < end
    ensures (Holds(a, b.start, b.end) && Width(b) < Width(a)) || (Holds(b, a.start, a.end) && Width(a) < Width(b))
  {
  }

  /** Once the ranges are validated, no stretch with something in it has an ambiguous owner. */
  lemma NestedNeverClashes(owners: seq<Owner>, start: nat, end: nat)
    requires Nested(owners) && start < end
    ensures !Clashes(owners, start, end)
  {
    hide Compatible, Width, Holds;
    forall i, j | 0 <= i < j < |owners|
      ensures !ClashesAt(owners, start, end, i, j)
    {
      if ClashesAt(owners, start, end, i, j) {
        HoldersNest(owners[i].range, owners[j].range, start, end);
      }
    }
  }

  /** The owner does not depend on the order of the owners, and lies inside every other range that holds the stretch. */
  lemma OwnerIsUnique(owners: seq<Owner>, others: seq<Owner>, start: nat, end: nat, a: Owner, b: Owner)
    requires Nested(owners) && start < end && forall o :: o in owners <==> o in others
    requires IsInnermost(owners, start, end, a) && IsInnermost(others, start, end, b)
    ensures a == b
    ensures forall o | o in owners && Holds(o.range, start, end) :: Holds(o.range, a.range.start, a.range.end)
  {
    var i :| 0 <= i < |owners| && owners[i] == a;
    forall o | o in owners && Holds(o.range, start, end)
      ensures Holds(o.range, a.range.start, a.range.end)
    {
      var j :| 0 <= j < |owners| && owners[j] == o;
      if i < j {
        HoldersNest(owners[i].range, owners[j].range, start, end);
      } else if j < i {
        HoldersNest(owners[j].range, owners[i].range, start, end);
      }
    }
  }

  /** An empty stretch where two callables of one size meet is ambiguous, however well they nest. */
  lemma EmptyStretchCanClash()
    ensures var owners := [Owner("a", Range(0, 5)), Owner("b", Range(5, 10))];
            Nested(owners) && Clashes(owners, 5, 5)
  {
    var owners := [Owner("a", Range(0, 5)), Owner("b", Range(5, 10))];
    assert ClashesAt(owners, 5, 5, 0, 1);
  }

  /** Two different callables that meet at the stretch, which is empty, and are of one size. */
  ghost predicate MeetsTwins(owners: seq<Owner>, start: nat, end: nat) {
    exists i, j | 0 <= i < j < |owners| :: TwinsAt(owners, start, end, i, j)
  }

  ghost predicate TwinsAt(owners: seq<Owner>, start: nat, end: nat, i: nat, j: nat)
    requires i < j < |owners|
  {
    HoldsAt(owners, i, start, end) && HoldsAt(owners, j, start, end) && Width(owners[i].range) == Width(owners[j].range)
  }

  /** Exactly the stretches where twins meet can be ambiguous in some order of the owners. */
  lemma ClashesInSomeOrder(owners: seq<Owner>, start: nat, end: nat)
    requires Nested(owners)
    ensures MeetsTwins(owners, start, end) <==>
              exists others :: multiset(others) == multiset(owners) && Clashes(others, start, end)
    ensures MeetsTwins(owners, start, end) ==> start >= end
  {
    hide Holds, Width, Compatible;
    if MeetsTwins(owners, start, end) {
      var i, j :| 0 <= i < j < |owners| && TwinsAt(owners, start, end, i, j);
      var others := Fronted(owners, i, j);
      assert ClashesAt(others, start, end, 0, 1);
      assert Clashes(others, start, end);
      if start < end {
        HoldersNest(owners[i].range, owners[j].range, start, end);
      }
    }
    if others :| multiset(others) == multiset(owners) && Clashes(others, start, end) {
      var i, j :| 0 <= i < j < |others| && ClashesAt(others, start, end, i, j);
      var k, l := TwoPlaces(owners, others, i, j);
      assert TwinsAt(owners, start, end, k, l);
    }
  }

  /** The same owners with two of them in front. */
  lemma Fronted(owners: seq<Owner>, i: nat, j: nat) returns (others: seq<Owner>)
    requires i < j < |owners|
    ensures multiset(others) == multiset(owners) && |others| >= 2 && others[0] == owners[i] && others[1] == owners[j]
  {
    others := [owners[i], owners[j]] + owners[..i] + owners[i + 1..j] + owners[j + 1..];
    assert owners == owners[..i] + [owners[i]] + owners[i + 1..j] + [owners[j]] + owners[j + 1..];
  }

  /** Two elements of one order stand at two places of the other. */
  lemma TwoPlaces(owners: seq<Owner>, others: seq<Owner>, i: nat, j: nat) returns (k: nat, l: nat)
    requires i < j < |others| && multiset(others) == multiset(owners)
    ensures k < l < |owners|
    ensures (owners[k] == others[i] && owners[l] == others[j]) || (owners[k] == others[j] && owners[l] == others[i])
  {
    var a, b := others[i], others[j];
    assert a in multiset(others);
    k :| k < |owners| && owners[k] == a;
    var left, rest := others[..i] + others[i + 1..], owners[..k] + owners[k + 1..];
    WithoutOne(others, i);
    WithoutOne(owners, k);
    assert left[j - 1] == b;
    assert b in multiset(left);
    var m :| 0 <= m < |rest| && rest[m] == b;
    l := if m < k then m else m + 1;
    if l < k {
      k, l := l, k;
    }
  }

  lemma WithoutOne(owners: seq<Owner>, k: nat)
    requires k < |owners|
    ensures multiset(owners[..k] + owners[k + 1..]) == multiset(owners) - multiset{owners[k]}
  {
    assert owners == owners[..k] + [owners[k]] + owners[k + 1..];
  }
}
