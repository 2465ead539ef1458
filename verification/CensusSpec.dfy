/** What a census of diagnostics says about the results that were reported. */
module CensusSpec {
  import opened Options
  import opened Ordering

  /** The diagnostics of each result, as far as it has been reported. */
  type Reports<Key> = seq<Option<seq<Key>>>

  function CountIn<Key(==)>(ds: seq<Key>, k: Key): nat {
    if ds == [] then 0 else (if ds[0] == k then 1 else 0) + CountIn(ds[1..], k)
  }

  function KeysOf<Key>(ds: seq<Key>): set<Key> {
    set k | k in ds
  }

  function Occurrences<Key(==)>(results: Reports<Key>, k: Key): nat {
    if results == [] then 0
    else (if results[0].Some? then CountIn(results[0].value, k) else 0) + Occurrences(results[1..], k)
  }

  function Exports<Key(==)>(results: Reports<Key>, k: Key): nat {
    if results == [] then 0
    else (if results[0].Some? && k in results[0].value then 1 else 0) + Exports(results[1..], k)
  }

  function Size<Key>(results: Reports<Key>): nat {
    if results == [] then 0
    else (if results[0].Some? then |results[0].value| else 0) + Size(results[1..])
  }

  function References<Key(==)>(results: Reports<Key>): nat {
    if results == [] then 0
    else (if results[0].Some? then |KeysOf(results[0].value)| else 0) + References(results[1..])
  }

  function Largest<Key>(results: Reports<Key>): nat {
    if results == [] then 0
    else
      var rest := Largest(results[1..]);
      if results[0].Some? && rest < |results[0].value| then |results[0].value| else rest
  }

  ghost predicate Reported<Key(!new)>(results: Reports<Key>, k: Key) {
    exists i :: 0 <= i < |results| && ReportedAt(results, i, k)
  }

  predicate ReportedAt<Key(==)>(results: Reports<Key>, i: nat, k: Key)
    requires i < |results|
  {
    results[i].Some? && k in results[i].value
  }

  /** Reporting one more result. */
  lemma {:induction false} ReportAdds<Key>(results: Reports<Key>, i: nat, ds: seq<Key>, k: Key)
    requires i < |results| && results[i].None?
    ensures var more := results[i := Some(ds)];
            && Occurrences(more, k) == Occurrences(results, k) + CountIn(ds, k)
            && Exports(more, k) == Exports(results, k) + (if k in ds then 1 else 0)
    decreases i
  {
    if i > 0 {
      ReportAdds(results[1..], i - 1, ds, k);
      assert results[i := Some(ds)][1..] == results[1..][i - 1 := Some(ds)];
    } else {
      assert results[i := Some(ds)][1..] == results[1..];
    }
  }

  lemma {:induction false} ReportGrows<Key>(results: Reports<Key>, i: nat, ds: seq<Key>)
    requires i < |results| && results[i].None?
    ensures var more := results[i := Some(ds)];
            && Size(more) == Size(results) + |ds|
            && References(more) == References(results) + |KeysOf(ds)|
            && Largest(more) == if Largest(results) < |ds| then |ds| else Largest(results)
    decreases i
  {
    if i > 0 {
      ReportGrows(results[1..], i - 1, ds);
      assert results[i := Some(ds)][1..] == results[1..][i - 1 := Some(ds)];
    } else {
      assert results[i := Some(ds)][1..] == results[1..];
    }
  }

  lemma {:induction false} CountInHas<Key>(ds: seq<Key>, k: Key)
    ensures CountIn(ds, k) > 0 <==> k in ds
  {
    if ds != [] {
      CountInHas(ds[1..], k);
    }
  }

  lemma {:induction false} CountInSnoc<Key>(ds: seq<Key>, d: Key, k: Key)
    ensures CountIn(ds + [d], k) == CountIn(ds, k) + (if d == k then 1 else 0)
  {
    if ds != [] {
      assert (ds + [d])[1..] == ds[1..] + [d];
      CountInSnoc(ds[1..], d, k);
    }
  }

  lemma {:induction false} OccursIffReported<Key(!new)>(results: Reports<Key>, k: Key)
    ensures Occurrences(results, k) > 0 <==> Reported(results, k)
    ensures Exports(results, k) > 0 <==> Reported(results, k)
    decreases |results|
  {
    if results != [] {
      OccursIffReported(results[1..], k);
      if results[0].Some? {
        CountInHas(results[0].value, k);
      }
      if Reported(results[1..], k) {
        var i :| 0 <= i < |results[1..]| && ReportedAt(results[1..], i, k);
        assert ReportedAt(results, i + 1, k);
      }
      if Reported(results, k) {
        var i :| 0 <= i < |results| && ReportedAt(results, i, k);
        if i > 0 {
          assert ReportedAt(results[1..], i - 1, k);
        }
      }
      if results[0].Some? && k in results[0].value {
        assert ReportedAt(results, 0, k);
      }
    }
  }

  // ----- the census -----

  datatype CensusEntry<Key> = CensusEntry(key: Key, occurrenceCount: nat, exportCount: nat)

  function KeysIn<Key>(entries: seq<CensusEntry<Key>>): seq<Key> {
    seq(|entries|, j requires 0 <= j < |entries| => entries[j].key)
  }

  /** The keys that were reported, in ascending order, each with how often and in how many results. */
  ghost predicate IsCensus<Key(!new)>(le: (Key, Key) -> bool, results: Reports<Key>, entries: seq<CensusEntry<Key>>) {
    && Ascending(le, KeysIn(entries))
    && (forall k :: k in KeysIn(entries) <==> Reported(results, k))
    && forall j | 0 <= j < |entries| ::
         && entries[j].occurrenceCount == Occurrences(results, entries[j].key)
         && entries[j].exportCount == Exports(results, entries[j].key)
  }

  /** The places of the keys that a result has reported, in ascending order. */
  ghost predicate IsMember<Key(!new)>(ds: seq<Key>, keys: seq<Key>, indexes: seq<nat>) {
    && Ascending(Le, indexes)
    && forall j: nat :: j in indexes <==> j < |keys| && keys[j] in ds
  }

  ghost predicate IsMembership<Key(!new)>(results: Reports<Key>, keys: seq<Key>, membership: seq<seq<nat>>) {
    && |membership| == |results|
    && forall i | 0 <= i < |results| :: results[i].Some? && IsMember(results[i].value, keys, membership[i])
  }

  /** The results alone determine the census, in whatever order they are reported. */
  lemma CensusIsUnique<Key(!new)>(le: (Key, Key) -> bool, results: Reports<Key>,
                                  e1: seq<CensusEntry<Key>>, m1: seq<seq<nat>>,
                                   e2: seq<CensusEntry<Key>>, m2: seq<seq<nat>>)
    requires TotalOrder(le)
    requires IsCensus(le, results, e1) && IsMembership(results, KeysIn(e1), m1)
    requires IsCensus(le, results, e2) && IsMembership(results, KeysIn(e2), m2)
    ensures e1 == e2 && m1 == m2
  {
    AscendingIsUnique(le, KeysIn(e1), KeysIn(e2));
    assert forall j | 0 <= j < |e1| :: e1[j].key == KeysIn(e1)[j] == KeysIn(e2)[j] == e2[j].key;
    LeIsOrder();
    forall i | 0 <= i < |results|
      ensures m1[i] == m2[i]
    {
      AscendingIsUnique(Le, m1[i], m2[i]);
    }
  }

  // ----- conservation -----

  function SumOccurrences<Key>(entries: seq<CensusEntry<Key>>): nat {
    if entries == [] then 0 else entries[0].occurrenceCount + SumOccurrences(entries[1..])
  }

  function SumExports<Key>(entries: seq<CensusEntry<Key>>): nat {
    if entries == [] then 0 else entries[0].exportCount + SumExports(entries[1..])
  }

  function SumLengths(membership: seq<seq<nat>>): nat {
    if membership == [] then 0 else |membership[0]| + SumLengths(membership[1..])
  }

  /** How often keys occur in one list, and how many of them do. */
  function CountAll<Key(==)>(ds: seq<Key>, keys: seq<Key>): nat {
    if keys == [] then 0 else CountIn(ds, keys[0]) + CountAll(ds, keys[1..])
  }

  function HitAll<Key(==)>(ds: seq<Key>, keys: seq<Key>): nat {
    if keys == [] then 0 else (if keys[0] in ds then 1 else 0) + HitAll(ds, keys[1..])
  }

  function AllOccurrences<Key(==)>(results: Reports<Key>, keys: seq<Key>): nat {
    if keys == [] then 0 else Occurrences(results, keys[0]) + AllOccurrences(results, keys[1..])
  }

  function AllExports<Key(==)>(results: Reports<Key>, keys: seq<Key>): nat {
    if keys == [] then 0 else Exports(results, keys[0]) + AllExports(results, keys[1..])
  }

  predicate Distinct<Key(==)>(keys: seq<Key>) {
    forall i, j | 0 <= i < j < |keys| :: keys[i] != keys[j]
  }

  lemma {:induction false} CountAllCons<Key>(d: Key, ds: seq<Key>, keys: seq<Key>)
    requires Distinct(keys)
    ensures CountAll([d] + ds, keys) == CountAll(ds, keys) + (if d in keys then 1 else 0)
  {
    if keys != [] {
      CountAllCons(d, ds, keys[1..]);
      assert ([d] + ds)[1..] == ds;
      assert keys == [keys[0]] + keys[1..];
    }
  }

  lemma {:induction false} CountAllIsLength<Key>(ds: seq<Key>, keys: seq<Key>)
    requires Distinct(keys) && forall d | d in ds :: d in keys
    ensures CountAll(ds, keys) == |ds|
    decreases |ds|
  {
    if ds == [] {
      CountNothing(keys);
    } else {
      CountAllIsLength(ds[1..], keys);
      CountAllCons(ds[0], ds[1..], keys);
      assert ds == [ds[0]] + ds[1..];
    }
  }

  lemma {:induction false} CountNothing<Key>(keys: seq<Key>)
    ensures CountAll([], keys) == 0
  {
    if keys != [] {
      CountNothing(keys[1..]);
    }
  }

  lemma KeysOfCons<Key>(keys: seq<Key>)
    requires keys != [] && Distinct(keys)
    ensures KeysOf(keys) == {keys[0]} + KeysOf(keys[1..]) && keys[0] !in KeysOf(keys[1..])
  {
    assert keys == [keys[0]] + keys[1..];
  }

  lemma {:induction false} HitAllIsSize<Key>(ds: seq<Key>, keys: seq<Key>)
    requires Distinct(keys)
    ensures HitAll(ds, keys) == |KeysOf(ds) * KeysOf(keys)|
  {
    assert KeysOf<Key>([]) == {} && (keys != [] ==> (keys[0] in KeysOf(ds) <==> keys[0] in ds));
    hide KeysOf;
    if keys == [] {
      assert KeysOf(ds) * {} == {};
    } else {
      HitAllIsSize(ds, keys[1..]);
      KeysOfCons(keys);
      var rest := KeysOf(ds) * KeysOf(keys[1..]);
      assert KeysOf(ds) * KeysOf(keys) == if keys[0] in ds then rest + {keys[0]} else rest;
    }
  }

  lemma {:induction false} AllSplit<Key>(results: Reports<Key>, keys: seq<Key>)
    requires results != []
    ensures AllOccurrences(results, keys)
         == (if results[0].Some? then CountAll(results[0].value, keys) else 0) + AllOccurrences(results[1..], keys)
    ensures AllExports(results, keys)
         == (if results[0].Some? then HitAll(results[0].value, keys) else 0) + AllExports(results[1..], keys)
    decreases |keys|
  {
    if keys != [] {
      AllSplit(results, keys[1..]);
    }
  }

  lemma {:induction false} AllNothing<Key>(keys: seq<Key>)
    ensures AllOccurrences<Key>([], keys) == 0 && AllExports<Key>([], keys) == 0
  {
    if keys != [] {
      AllNothing(keys[1..]);
    }
  }

  /** Counting by key comes to the same as counting by result. */
  lemma {:induction false} CountedBothWays<Key(!new)>(results: Reports<Key>, keys: seq<Key>)
    requires Distinct(keys) && forall k | Reported(results, k) :: k in keys
    ensures AllOccurrences(results, keys) == Size(results)
    ensures AllExports(results, keys) == References(results)
    decreases |results|
  {
    if results == [] {
      AllNothing(keys);
    } else {
      AllSplit(results, keys);
      forall k | Reported(results[1..], k)
        ensures Reported(results, k)
      {
        var i :| 0 <= i < |results[1..]| && ReportedAt(results[1..], i, k);
        assert ReportedAt(results, i + 1, k);
      }
      CountedBothWays(results[1..], keys);
      if results[0].Some? {
        var ds := results[0].value;
        assert forall d | d in ds :: ReportedAt(results, 0, d);
        CountAllIsLength(ds, keys);
        HitAllIsSize(ds, keys);
        assert KeysOf(ds) * KeysOf(keys) == KeysOf(ds);
      }
    }
  }

  lemma {:induction false} SumsAreAll<Key>(results: Reports<Key>, entries: seq<CensusEntry<Key>>)
    requires forall j | 0 <= j < |entries| ::
               && entries[j].occurrenceCount == Occurrences(results, entries[j].key)
               && entries[j].exportCount == Exports(results, entries[j].key)
    ensures SumOccurrences(entries) == AllOccurrences(results, KeysIn(entries))
    ensures SumExports(entries) == AllExports(results, KeysIn(entries))
  {
    if entries != [] {
      SumsAreAll(results, entries[1..]);
      assert KeysIn(entries)[1..] == KeysIn(entries[1..]);
    }
  }

  lemma MemberIsSized<Key(!new)>(ds: seq<Key>, keys: seq<Key>, indexes: seq<nat>)
    requires Distinct(keys) && (forall d | d in ds :: d in keys) && IsMember(ds, keys, indexes)
    ensures |indexes| == |KeysOf(ds)|
  {
    assert forall i | 0 <= i < |indexes| :: indexes[i] in indexes;
    forall i, j | 0 <= i < j < |indexes|
      ensures keys[indexes[i]] != keys[indexes[j]]
    {
      assert Le(indexes[i], indexes[j]) && indexes[i] != indexes[j];
    }
    var named := seq(|indexes|, i requires 0 <= i < |indexes| => keys[indexes[i]]);
    DistinctSize(named);
    forall d
      ensures d in KeysOf(named) <==> d in KeysOf(ds)
    {
      if d in ds {
        var j :| 0 <= j < |keys| && keys[j] == d;
        assert j in indexes;
        var i :| 0 <= i < |indexes| && indexes[i] == j;
        assert named[i] == d;
      }
    }
    assert KeysOf(named) == KeysOf(ds);
  }

  lemma {:induction false} DistinctSize<Key>(s: seq<Key>)
    requires Distinct(s)
    ensures |KeysOf(s)| == |s|
  {
    if s != [] {
      DistinctSize(s[1..]);
      assert s == [s[0]] + s[1..];
      assert KeysOf(s) == {s[0]} + KeysOf(s[1..]);
    }
  }

  lemma {:induction false} LengthsAreReferences<Key(!new)>(results: Reports<Key>, keys: seq<Key>,
                                                           membership: seq<seq<nat>>)
    requires Distinct(keys) && (forall k | Reported(results, k) :: k in keys) && IsMembership(results, keys, membership)
    ensures SumLengths(membership) == References(results)
    decreases |results|
  {
    hide IsMember;
    if results != [] {
      forall k | Reported(results[1..], k)
        ensures Reported(results, k)
      {
        var i :| 0 <= i < |results[1..]| && ReportedAt(results[1..], i, k);
        assert ReportedAt(results, i + 1, k);
      }
      assert forall i | 0 <= i < |results[1..]| ::
          results[1..][i] == results[i + 1] && membership[1..][i] == membership[i + 1];
      LengthsAreReferences(results[1..], keys, membership[1..]);
      assert forall d | d in results[0].value :: ReportedAt(results, 0, d);
      MemberIsSized(results[0].value, keys, membership[0]);
    }
  }

  /** Occurrences add up to the total, and exports to the size of the membership. */
  lemma CensusConserves<Key(!new)>(le: (Key, Key) -> bool, results: Reports<Key>, entries: seq<CensusEntry<Key>>,
                                   membership: seq<seq<nat>>)
    requires IsCensus(le, results, entries) && IsMembership(results, KeysIn(entries), membership)
    ensures SumOccurrences(entries) == Size(results)
    ensures SumExports(entries) == SumLengths(membership) == References(results)
  {
    hide IsMembership;
    CountedBothWays(results, KeysIn(entries));
    SumsAreAll(results, entries);
    LengthsAreReferences(results, KeysIn(entries), membership);
  }
}
