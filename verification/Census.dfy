/** The accumulator of a diagnostic census: provisional ordinals while results come in, final ones at the end. */
module Census {
  import opened Options
  import opened Ordering
  import opened CensusSpec

  datatype Entry = Entry(ordinal: nat, occurrences: nat, exports: nat)

  type Entries<Key> = map<Key, Entry>

  function OccurrencesIn<Key>(entries: Entries<Key>, k: Key): nat {
    if k in entries then entries[k].occurrences else 0
  }

  function ExportsIn<Key>(entries: Entries<Key>, k: Key): nat {
    if k in entries then entries[k].exports else 0
  }

  /** Ordinals number the keys in the order they were first seen. */
  ghost predicate Numbers<Key(!new)>(entries: Entries<Key>, keys: seq<Key>) {
    && |keys| == |entries|
    && (forall k | k in entries :: entries[k].ordinal < |keys| && keys[entries[k].ordinal] == k)
    && (forall o | 0 <= o < |keys| :: keys[o] in entries && entries[keys[o]].ordinal == o)
  }

  ghost predicate Counts<Key(!new)>(entries: Entries<Key>, results: Reports<Key>) {
    && (forall k :: k in entries <==> Reported(results, k))
    && (forall k | k in entries ::
          entries[k].occurrences == Occurrences(results, k) && entries[k].exports == Exports(results, k))
  }

  /** The ordinals of the diagnostics of one result. */
  ghost predicate Provisional<Key(!new)>(entries: Entries<Key>, ds: seq<Key>, ordinals: seq<nat>) {
    && Ascending(Le, ordinals)
    && (forall d | d in ds :: d in entries)
    && forall o: nat :: o in ordinals <==> exists d :: d in ds && d in entries && entries[d].ordinal == o
  }

  ghost predicate Remembers<Key(!new)>(entries: Entries<Key>, results: Reports<Key>,
                                       membership: seq<Option<seq<nat>>>)
  {
    && |membership| == |results|
    && forall i | 0 <= i < |results| ::
         && membership[i].Some? == results[i].Some?
         && (results[i].Some? ==> Provisional(entries, results[i].value, membership[i].value))
  }

  /** All keys keep their ordinals. */
  ghost predicate Extends<Key(!new)>(entries: Entries<Key>, more: Entries<Key>) {
    forall k | k in entries :: k in more && more[k].ordinal == entries[k].ordinal
  }

  lemma ExtendsKeepsProvisional<Key(!new)>(entries: Entries<Key>, more: Entries<Key>, ds: seq<Key>, ordinals: seq<nat>)
    requires Provisional(entries, ds, ordinals) && Extends(entries, more)
    ensures Provisional(more, ds, ordinals)
  {
  }

  datatype Telemetry = Telemetry(occurrenceCount: nat, distinctCount: nat, maxPerExport: nat, references: nat)

  datatype Finalized<Key> = Finalized(entries: seq<CensusEntry<Key>>, membership: Option<seq<seq<nat>>>,
                                      telemetry: Telemetry)

  class Accumulator<Key(==,!new)> {
    const le: (Key, Key) -> bool
    var entries: Entries<Key>
    var keysByOrdinal: seq<Key>
    var membership: Option<seq<Option<seq<nat>>>>
    var recorded: seq<bool>
    var occurrenceCount: nat
    var maxPerExport: nat
    var references: nat
    ghost var results: Reports<Key>

    constructor (le: (Key, Key) -> bool, resultCount: nat, captureMembership: bool)
      ensures Valid() && this.le == le && results == seq(resultCount, _ => None)
      ensures membership.Some? == captureMembership
    {
      this.le := le;
      entries, keysByOrdinal := map[], [];
      membership := if captureMembership then Some(seq(resultCount, _ => None)) else None;
      recorded := seq(resultCount, _ => false);
      occurrenceCount, maxPerExport, references := 0, 0, 0;
      results := seq(resultCount, _ => None);
      new;
      NothingReported<Key>(resultCount);
    }

    /** All fields say what has been reported so far. */
    ghost predicate Valid()
      reads this
    {
      && |recorded| == |results| && (forall i | 0 <= i < |results| :: recorded[i] == results[i].Some?)
      && Numbers(entries, keysByOrdinal) && Counts(entries, results)
      && (membership.Some? ==> Remembers(entries, results, membership.value))
      && occurrenceCount == Size(results) && maxPerExport == Largest(results) && references == References(results)
    }

    /** Refused for a result that does not exist or was recorded before. */
    method RecordResult(resultIndex: nat, diagnostics: seq<Key>) returns (ok: bool)
      requires Valid()
      modifies this
      ensures Valid() && membership.Some? == old(membership.Some?)
      ensures ok <==> resultIndex < |old(results)| && old(results)[resultIndex].None?
      ensures results == if ok then old(results)[resultIndex := Some(diagnostics)] else old(results)
      ensures !ok ==> entries == old(entries) && keysByOrdinal == old(keysByOrdinal) && membership == old(membership)
    {
      hide Numbers, Counts, Provisional, Size, Largest, References, Extends, Remembers;
      if resultIndex >= |recorded| || recorded[resultIndex] {
        return false;
      }
      recorded := recorded[resultIndex := true];
      occurrenceCount := occurrenceCount + |diagnostics|;
      maxPerExport := if maxPerExport < |diagnostics| then |diagnostics| else maxPerExport;
      ghost var before := entries;
      var seen := CountKeys(diagnostics, resultIndex);
      ReportGrows(results, resultIndex, diagnostics);
      references := references + |seen|;
      SeenIsSized(diagnostics, entries, keysByOrdinal, seen);
      if membership.Some? {
        var ordinals := Ascend(seen, |keysByOrdinal|);
        SeenIsProvisional(diagnostics, entries, seen, ordinals);
        RemembersMore(before, entries, results, membership.value, resultIndex, diagnostics, ordinals);
        membership := Some(membership.value[resultIndex := Some(ordinals)]);
      }
      results := results[resultIndex := Some(diagnostics)];
      ok := true;
    }

    /** Counts the diagnostics of a result that comes in. */
    method CountKeys(diagnostics: seq<Key>, ghost resultIndex: nat) returns (seen: set<nat>)
      requires Numbers(entries, keysByOrdinal) && Counts(entries, results)
      requires resultIndex < |results| && results[resultIndex].None?
      modifies this`entries, this`keysByOrdinal
      ensures Numbers(entries, keysByOrdinal) && Extends(old(entries), entries)
      ensures Counts(entries, results[resultIndex := Some(diagnostics)])
      ensures IsSeen(diagnostics, entries, seen)
    {
      hide Numbers, Counts, Occurred, Extends;
      ghost var before := entries;
      seen := CountOccurrences(diagnostics);
      ghost var counted := entries;
      CountExports(diagnostics, seen);
      CountedIsExact(results, resultIndex, diagnostics, before, counted, entries, seen, keysByOrdinal);
    }

    /** Counts every diagnostic, numbers the new ones, and returns the ordinals that were met. */
    method CountOccurrences(diagnostics: seq<Key>) returns (seen: set<nat>)
      requires Numbers(entries, keysByOrdinal)
      modifies this`entries, this`keysByOrdinal
      ensures Numbers(entries, keysByOrdinal) && Extends(old(entries), entries)
      ensures Occurred(old(entries), entries, diagnostics)
      ensures IsSeen(diagnostics, entries, seen)
    {
      hide Numbers, Occurred, Extends, CountIn;
      seen := {};
      var i := 0;
      OccurredNone(entries);
      assert diagnostics[..0] == [];
      while i < |diagnostics|
        invariant 0 <= i <= |diagnostics| && Numbers(entries, keysByOrdinal) && Extends(old(entries), entries)
        invariant Occurred(old(entries), entries, diagnostics[..i])
        invariant IsSeen(diagnostics[..i], entries, seen)
      {
        var d := diagnostics[i];
        ghost var was := entries;
        assert diagnostics[..i + 1] == diagnostics[..i] + [d];
        CountsOne(old(entries), was, keysByOrdinal, diagnostics[..i], d, seen);
        if d in entries {
          entries := entries[d := entries[d].(occurrences := entries[d].occurrences + 1)];
        } else {
          entries := entries[d := Entry(|keysByOrdinal|, 1, 0)];
          keysByOrdinal := keysByOrdinal + [d];
        }
        seen := seen + {entries[d].ordinal};
        i := i + 1;
      }
      assert diagnostics[..i] == diagnostics;
    }

    /** Counts a result once for every key that it has reported. */
    method CountExports(ghost diagnostics: seq<Key>, seen: set<nat>)
      requires Numbers(entries, keysByOrdinal) && IsSeen(diagnostics, entries, seen)
      modifies this`entries
      ensures Exported(old(entries), entries, seen)
    {
      var rest := seen;
      while rest != {}
        invariant rest <= seen && Exported(old(entries), entries, seen - rest)
        decreases rest
      {
        var ordinal :| ordinal in rest;
        rest := rest - {ordinal};
        assert ordinal < |keysByOrdinal|;
        var key := keysByOrdinal[ordinal];
        entries := entries[key := entries[key].(exports := entries[key].exports + 1)];
      }
    }

    /** None if a result is missing; else the census of all results. */
    method Finalize() returns (r: Option<Finalized<Key>>)
      requires Valid() && TotalOrder(le)
      ensures r.None? <==> exists i :: 0 <= i < |results| && results[i].None?
      ensures r.Some? ==> IsCensus(le, results, r.value.entries)
      ensures r.Some? ==> r.value.membership.Some? == membership.Some?
      ensures r.Some? && membership.Some? ==> IsMembership(results, KeysIn(r.value.entries), r.value.membership.value)
      ensures r.Some? ==>
        r.value.telemetry == Telemetry(Size(results), |r.value.entries|, Largest(results), References(results))
    {
      hide Numbers, Counts, Remembers, Size, Largest, References, IsCensus, IsMembership;
      if i :| 0 <= i < |recorded| && !recorded[i] {
        return None;
      }
      var keys, finalIndex := Renumber();
      var all := entries;
      var final := seq(|keys|, j requires 0 <= j < |keys| =>
        CensusEntry(keys[j], OccurrencesIn(all, keys[j]), ExportsIn(all, keys[j])));
      assert KeysIn(final) == keys;
      FinalIsCensus(le, entries, results, keysByOrdinal, keys, final);
      NumbersSize(entries, keysByOrdinal);
      var telemetry := Telemetry(occurrenceCount, |entries|, maxPerExport, references);
      var remapped: Option<seq<seq<nat>>> := None;
      if membership.Some? {
        var places := Remap(membership.value, keys, finalIndex);
        remapped := Some(places);
      }
      r := Some(Finalized(final, remapped, telemetry));
    }

    /** The keys in ascending order, and the place that each ordinal gets there. */
    method Renumber() returns (keys: seq<Key>, finalIndex: seq<nat>)
      requires Numbers(entries, keysByOrdinal) && TotalOrder(le)
      ensures Ascending(le, keys) && |keys| == |entries| && forall k :: k in keys <==> k in entries
      ensures Renumbers(entries, keysByOrdinal, keys, finalIndex)
    {
      hide Numbers, TotalOrder, Ascending, InOrder, Distinct, Sort;
      keys := Sort(le, keysByOrdinal);
      SortedKeys(le, entries, keysByOrdinal, keys);
      var index: seq<Option<nat>> := seq(|entries|, _ => None);
      var j := 0;
      while j < |keys|
        invariant 0 <= j <= |keys| && |index| == |entries|
        invariant forall k | 0 <= k < j :: index[entries[keys[k]].ordinal] == Some(k)
      {
        index := index[entries[keys[j]].ordinal := Some(j)];
        j := j + 1;
      }
      NumbersSize(entries, keysByOrdinal);
      AllRenumbered(entries, keysByOrdinal, keys, index);
      finalIndex := seq(|index|, o requires 0 <= o < |index| => index[o].value);
    }

    /** The membership with final places for ordinals, sorted again. */
    method Remap(provisional: seq<Option<seq<nat>>>, keys: seq<Key>, finalIndex: seq<nat>) returns (all: seq<seq<nat>>)
      requires Remembers(entries, results, provisional) && Renumbers(entries, keysByOrdinal, keys, finalIndex)
      requires Numbers(entries, keysByOrdinal) && forall i | 0 <= i < |results| :: results[i].Some?
      ensures IsMembership(results, keys, all)
    {
      hide Numbers, Renumbers, IsMember, Provisional;
      all := [];
      var i := 0;
      while i < |provisional|
        invariant 0 <= i <= |provisional| == |results| && |all| == i
        invariant forall k | 0 <= k < i :: IsMember(results[k].value, keys, all[k])
      {
        var ordinals := provisional[i].value;
        OrdinalsInRange(entries, keysByOrdinal, keys, finalIndex, results[i].value, ordinals);
        var mapped := seq(|ordinals|, k requires 0 <= k < |ordinals| => finalIndex[ordinals[k]]);
        var indexes := Sort(Le, mapped);
        RemappedIsMember(entries, keysByOrdinal, keys, finalIndex, results[i].value, ordinals, mapped);
        all := all + [indexes];
        i := i + 1;
      }
    }
  }

  /** All results, reported. */
  function AllReported<Key>(all: seq<seq<Key>>): Reports<Key> {
    seq(|all|, i requires 0 <= i < |all| => Some(all[i]))
  }

  /** Whatever the order in which results are recorded, the census is that of all results. */
  method CensusInOrder<Key(==,!new)>(le: (Key, Key) -> bool, all: seq<seq<Key>>, order: seq<nat>)
    returns (r: Finalized<Key>)
    requires TotalOrder(le)
    requires Distinct(order) && forall i: nat :: i in order <==> i < |all|
    ensures IsCensus(le, AllReported(all), r.entries)
    ensures r.membership.Some? && IsMembership(AllReported(all), KeysIn(r.entries), r.membership.value)
  {
    hide TotalOrder, IsCensus, IsMembership, Numbers, Counts, Remembers, Size, Largest, References;
    var census := new Accumulator(le, |all|, true);
    var j := 0;
    while j < |order|
      invariant 0 <= j <= |order| && census.Valid() && census.membership.Some? && |census.results| == |all|
      invariant forall i | 0 <= i < |all| :: census.results[i] == if i in order[..j] then Some(all[i]) else None
    {
      assert order[j] in order && order[j] !in order[..j];
      assert order[..j + 1] == order[..j] + [order[j]];
      var ok := census.RecordResult(order[j], all[order[j]]);
      j := j + 1;
    }
    assert order[..j] == order;
    assert census.results == AllReported(all);
    var final := census.Finalize();
    r := final.value;
  }

  // ----- how the counters move -----

  ghost predicate Occurred<Key(!new)>(entries: Entries<Key>, more: Entries<Key>, ds: seq<Key>) {
    && (forall k :: k in more <==> k in entries || k in ds)
    && (forall k :: OccurrencesIn(more, k) == OccurrencesIn(entries, k) + CountIn(ds, k))
    && (forall k :: ExportsIn(more, k) == ExportsIn(entries, k))
  }

  ghost predicate IsSeen<Key(!new)>(ds: seq<Key>, entries: Entries<Key>, seen: set<nat>) {
    && (forall d | d in ds :: d in entries && entries[d].ordinal in seen)
    && (forall o: nat | o in seen :: exists d :: d in ds && d in entries && entries[d].ordinal == o)
  }

  ghost predicate Exported<Key(!new)>(entries: Entries<Key>, more: Entries<Key>, done: set<nat>) {
    && more.Keys == entries.Keys
    && forall k | k in entries ::
         more[k] == entries[k].(exports := entries[k].exports + if entries[k].ordinal in done then 1 else 0)
  }

  lemma OccurredNone<Key(!new)>(entries: Entries<Key>)
    ensures Occurred(entries, entries, []) && Extends(entries, entries)
  {
  }

  function Counted<Key>(was: Entries<Key>, keys: seq<Key>, d: Key): (Entries<Key>, seq<Key>) {
    if d in was then (was[d := was[d].(occurrences := was[d].occurrences + 1)], keys)
    else (was[d := Entry(|keys|, 1, 0)], keys + [d])
  }

  lemma CountsOne<Key(!new)>(entries: Entries<Key>, was: Entries<Key>, keys: seq<Key>, ds: seq<Key>, d: Key,
                             seen: set<nat>)
    requires Numbers(was, keys) && Extends(entries, was) && Occurred(entries, was, ds) && IsSeen(ds, was, seen)
    ensures var (now, keys') := Counted(was, keys, d);
            && Numbers(now, keys') && Extends(entries, now) && Occurred(entries, now, ds + [d])
            && IsSeen(ds + [d], now, seen + {now[d].ordinal})
  {
    hide CountIn, IsSeen;
    var (now, keys') := Counted(was, keys, d);
    forall k
      ensures OccurrencesIn(now, k) == OccurrencesIn(entries, k) + CountIn(ds + [d], k)
    {
      CountInSnoc(ds, d, k);
    }
    CountedNumbers(was, keys, d);
    CountedSeen(was, keys, ds, d, seen);
  }

  lemma CountedNumbers<Key(!new)>(was: Entries<Key>, keys: seq<Key>, d: Key)
    requires Numbers(was, keys)
    ensures var (now, keys') := Counted(was, keys, d); Numbers(now, keys')
  {
    var (now, keys') := Counted(was, keys, d);
    if d !in was {
      assert now.Keys == was.Keys + {d};
      assert |now.Keys| == |was.Keys| + 1;
      assert |now| == |now.Keys| && |was| == |was.Keys|;
    } else {
      assert now.Keys == was.Keys;
      assert |now| == |now.Keys| && |was| == |was.Keys|;
    }
  }

  lemma CountedSeen<Key(!new)>(was: Entries<Key>, keys: seq<Key>, ds: seq<Key>, d: Key, seen: set<nat>)
    requires IsSeen(ds, was, seen)
    ensures var (now, keys') := Counted(was, keys, d); IsSeen(ds + [d], now, seen + {now[d].ordinal})
  {
    var (now, keys') := Counted(was, keys, d);
    forall o: nat | o in seen + {now[d].ordinal}
      ensures exists e :: e in ds + [d] && e in now && now[e].ordinal == o
    {
      if o == now[d].ordinal {
        assert d in ds + [d];
      } else {
        var e :| e in ds && e in was && was[e].ordinal == o;
        assert e in ds + [d] && now[e].ordinal == o;
      }
    }
  }

  lemma CountedIsExact<Key(!new)>(results: Reports<Key>, i: nat, ds: seq<Key>, before: Entries<Key>,
                                  counted: Entries<Key>, after: Entries<Key>, seen: set<nat>, keys: seq<Key>)
    requires i < |results| && results[i].None? && Counts(before, results)
    requires Occurred(before, counted, ds) && Extends(before, counted)
    requires IsSeen(ds, counted, seen) && Numbers(counted, keys) && Exported(counted, after, seen)
    ensures Counts(after, results[i := Some(ds)]) && Extends(before, after)
    ensures Numbers(after, keys) && IsSeen(ds, after, seen)
  {
    hide Occurrences, Exports, CountIn, Numbers, IsSeen;
    var more := results[i := Some(ds)];
    forall k
      ensures k in after <==> Reported(more, k)
      ensures OccurrencesIn(after, k) == Occurrences(more, k) && ExportsIn(after, k) == Exports(more, k)
    {
      ReportAdds(results, i, ds, k);
      OccursIffReported(results, k);
      OccursIffReported(more, k);
      CountInHas(ds, k);
      SeenIffReported(ds, counted, keys, seen, k);
      assert ExportsIn(counted, k) == Exports(results, k);
      assert OccurrencesIn(after, k) == OccurrencesIn(counted, k);
    }
    ExportedNumbers(ds, counted, after, keys, seen);
  }

  lemma SeenIffReported<Key(!new)>(ds: seq<Key>, entries: Entries<Key>, keys: seq<Key>, seen: set<nat>, k: Key)
    requires IsSeen(ds, entries, seen) && Numbers(entries, keys)
    ensures k in ds <==> k in entries && entries[k].ordinal in seen
  {
    if k in entries && entries[k].ordinal in seen {
      var d :| d in ds && d in entries && entries[d].ordinal == entries[k].ordinal;
      assert d == k;
    }
  }

  lemma ExportedNumbers<Key(!new)>(ds: seq<Key>, entries: Entries<Key>, more: Entries<Key>, keys: seq<Key>,
                                   seen: set<nat>)
    requires Numbers(entries, keys) && IsSeen(ds, entries, seen) && Exported(entries, more, seen)
    ensures Numbers(more, keys) && IsSeen(ds, more, seen)
  {
    assert |more| == |more.Keys| && |entries| == |entries.Keys|;
  }

  lemma SeenIsSized<Key(!new)>(ds: seq<Key>, entries: Entries<Key>, keys: seq<Key>, seen: set<nat>)
    requires Numbers(entries, keys) && IsSeen(ds, entries, seen)
    ensures |seen| == |KeysOf(ds)| && forall o | o in seen :: o < |keys|
  {
    var named := set o | o in seen :: keys[o];
    assert named == KeysOf(ds);
    InjectiveSize(seen, keys, named);
  }

  lemma {:induction false} InjectiveSize<Key>(places: set<nat>, keys: seq<Key>, named: set<Key>)
    requires forall o | o in places :: o < |keys|
    requires forall o, p | o in places && p in places && keys[o] == keys[p] :: o == p
    requires named == set o | o in places :: keys[o]
    ensures |named| == |places|
    decreases places
  {
    if places != {} {
      var o :| o in places;
      var rest := named - {keys[o]};
      assert rest == set p | p in places - {o} :: keys[p];
      InjectiveSize(places - {o}, keys, rest);
    }
  }

  /** The elements of a set of numbers below a bound, in ascending order. */
  method Ascend(s: set<nat>, bound: nat) returns (ordinals: seq<nat>)
    requires forall o | o in s :: o < bound
    ensures Ascending(Le, ordinals) && forall o: nat :: o in ordinals <==> o in s
  {
    ordinals := [];
    var o := 0;
    while o < bound
      invariant 0 <= o <= bound && Ascending(Le, ordinals)
      invariant forall x: nat :: x in ordinals <==> x in s && x < o
    {
      if o in s {
        assert forall k | 0 <= k < |ordinals| :: ordinals[k] in ordinals;
        ordinals := ordinals + [o];
      }
      o := o + 1;
    }
  }

  lemma SeenIsProvisional<Key(!new)>(ds: seq<Key>, entries: Entries<Key>, seen: set<nat>, ordinals: seq<nat>)
    requires IsSeen(ds, entries, seen) && Ascending(Le, ordinals) && forall o: nat :: o in ordinals <==> o in seen
    ensures Provisional(entries, ds, ordinals)
  {
  }

  lemma RemembersMore<Key(!new)>(before: Entries<Key>, after: Entries<Key>, results: Reports<Key>,
                                 membership: seq<Option<seq<nat>>>, i: nat, ds: seq<Key>, ordinals: seq<nat>)
    requires i < |results| && Remembers(before, results, membership) && Extends(before, after)
    requires Provisional(after, ds, ordinals)
    ensures |membership| == |results|
    ensures Remembers(after, results[i := Some(ds)], membership[i := Some(ordinals)])
  {
    hide Provisional, Extends;
    forall k | 0 <= k < |results| && k != i && results[k].Some?
      ensures Provisional(after, results[k].value, membership[k].value)
    {
      ExtendsKeepsProvisional(before, after, results[k].value, membership[k].value);
    }
  }

  lemma NothingReported<Key(!new)>(n: nat)
    ensures var none: Reports<Key> := seq(n, _ => None);
            && Size(none) == 0 && Largest(none) == 0 && References(none) == 0
            && Counts(map[], none) && Numbers<Key>(map[], [])
  {
    NothingCounted<Key>(n);
  }

  lemma {:induction false} NothingCounted<Key>(n: nat)
    ensures var none: Reports<Key> := seq(n, _ => None); Size(none) == 0 && Largest(none) == 0 && References(none) == 0
    decreases n
  {
    if n > 0 {
      NothingCounted<Key>(n - 1);
      var none: Reports<Key> := seq(n, _ => None);
      assert none[1..] == seq(n - 1, _ => None);
    }
  }

  // ----- renumbering -----

  /** Every ordinal is given the place of its key among the sorted keys. */
  ghost predicate Renumbers<Key(!new)>(entries: Entries<Key>, byOrdinal: seq<Key>, keys: seq<Key>,
                                       finalIndex: seq<nat>)
  {
    && |finalIndex| == |byOrdinal| == |keys|
    && (forall o | 0 <= o < |byOrdinal| :: finalIndex[o] < |keys| && keys[finalIndex[o]] == byOrdinal[o])
    && (forall j | 0 <= j < |keys| :: keys[j] in entries && entries[keys[j]].ordinal < |finalIndex|
          && finalIndex[entries[keys[j]].ordinal] == j)
  }

  lemma SortedKeys<Key(!new)>(le: (Key, Key) -> bool, entries: Entries<Key>, byOrdinal: seq<Key>, keys: seq<Key>)
    requires TotalOrder(le) && Numbers(entries, byOrdinal) && keys == Sort(le, byOrdinal)
    ensures Ascending(le, keys) && |keys| == |entries| && Distinct(keys) && forall k :: k in keys <==> k in entries
    ensures forall j | 0 <= j < |keys| :: keys[j] in entries && entries[keys[j]].ordinal < |entries|
    ensures forall i, j | 0 <= i < j < |keys| :: entries[keys[i]].ordinal != entries[keys[j]].ordinal
  {
    SortMeans(le, byOrdinal);
    SortIsPermutation(le, byOrdinal);
    forall i, j | 0 <= i < j < |keys|
      ensures keys[i] != keys[j]
    {
      SortedIsDistinct(byOrdinal, keys, i, j);
    }
    assert forall j | 0 <= j < |keys| :: keys[j] in keys;
  }

  lemma SortedIsDistinct<Key>(s: seq<Key>, t: seq<Key>, i: nat, j: nat)
    requires Distinct(s) && multiset(s) == multiset(t) && i < j < |t|
    ensures t[i] != t[j]
  {
    if t[i] == t[j] {
      assert t == t[..i] + [t[i]] + t[i + 1..j] + [t[j]] + t[j + 1..];
      assert multiset(t)[t[i]] >= 2;
      DistinctOnce(s, t[i]);
    }
  }

  lemma {:induction false} DistinctOnce<Key>(s: seq<Key>, k: Key)
    requires Distinct(s)
    ensures multiset(s)[k] <= 1
  {
    if s != [] {
      DistinctOnce(s[1..], k);
      assert s == [s[0]] + s[1..];
      assert s[0] !in s[1..];
    }
  }

  lemma AllRenumbered<Key(!new)>(entries: Entries<Key>, byOrdinal: seq<Key>, keys: seq<Key>, index: seq<Option<nat>>)
    requires Numbers(entries, byOrdinal) && |index| == |entries| == |keys| && forall k :: k in keys <==> k in entries
    requires forall j | 0 <= j < |keys| :: keys[j] in entries && entries[keys[j]].ordinal < |index|
               && index[entries[keys[j]].ordinal] == Some(j)
    ensures forall o | 0 <= o < |index| ::
              index[o].Some? && index[o].value < |keys| && keys[index[o].value] == byOrdinal[o]
  {
    forall o | 0 <= o < |index|
      ensures index[o].Some? && index[o].value < |keys| && keys[index[o].value] == byOrdinal[o]
    {
      assert byOrdinal[o] in keys;
      var j :| 0 <= j < |keys| && keys[j] == byOrdinal[o];
    }
  }

  lemma NumbersSize<Key(!new)>(entries: Entries<Key>, keys: seq<Key>)
    requires Numbers(entries, keys)
    ensures |keys| == |entries|
  {
  }

  lemma FinalIsCensus<Key(!new)>(le: (Key, Key) -> bool, entries: Entries<Key>, results: Reports<Key>,
                                 byOrdinal: seq<Key>, keys: seq<Key>, final: seq<CensusEntry<Key>>)
    requires Counts(entries, results) && Ascending(le, keys) && (forall k :: k in keys <==> k in entries)
    requires KeysIn(final) == keys && |final| == |keys|
    requires forall j | 0 <= j < |keys| ::
               final[j] == CensusEntry(keys[j], OccurrencesIn(entries, keys[j]), ExportsIn(entries, keys[j]))
    ensures IsCensus(le, results, final)
  {
    assert forall j | 0 <= j < |keys| :: keys[j] in keys;
  }

  lemma OrdinalsInRange<Key(!new)>(entries: Entries<Key>, byOrdinal: seq<Key>, keys: seq<Key>, finalIndex: seq<nat>,
                                   ds: seq<Key>, ordinals: seq<nat>)
    requires Numbers(entries, byOrdinal) && Renumbers(entries, byOrdinal, keys, finalIndex)
    requires Provisional(entries, ds, ordinals)
    ensures forall k | 0 <= k < |ordinals| :: ordinals[k] < |finalIndex|
  {
    assert forall k | 0 <= k < |ordinals| :: ordinals[k] in ordinals;
  }

  lemma RemappedIsMember<Key(!new)>(entries: Entries<Key>, byOrdinal: seq<Key>, keys: seq<Key>, finalIndex: seq<nat>,
                                    ds: seq<Key>, ordinals: seq<nat>, mapped: seq<nat>)
    requires Numbers(entries, byOrdinal) && Renumbers(entries, byOrdinal, keys, finalIndex)
    requires Provisional(entries, ds, ordinals)
    requires |mapped| == |ordinals|
    requires forall k | 0 <= k < |ordinals| :: ordinals[k] < |finalIndex| && mapped[k] == finalIndex[ordinals[k]]
    ensures IsMember(ds, keys, Sort(Le, mapped))
  {
    LeIsOrder();
    SortMeans(Le, mapped);
    SortIsPermutation(Le, mapped);
    assert forall k | 0 <= k < |ordinals| :: ordinals[k] in ordinals;
    forall i, j | 0 <= i < j < |mapped|
      ensures mapped[i] != mapped[j]
    {
      assert Le(ordinals[i], ordinals[j]) && ordinals[i] != ordinals[j];
      assert byOrdinal[ordinals[i]] != byOrdinal[ordinals[j]];
    }
    forall i, j | 0 <= i < j < |mapped|
      ensures Sort(Le, mapped)[i] != Sort(Le, mapped)[j]
    {
      SortedIsDistinct(mapped, Sort(Le, mapped), i, j);
    }
    forall j: nat
      ensures j in mapped <==> j < |keys| && keys[j] in ds
    {
      if j < |keys| && keys[j] in ds {
        var o := entries[keys[j]].ordinal;
        assert o in ordinals;
        var k :| 0 <= k < |ordinals| && ordinals[k] == o;
        assert mapped[k] == j;
      }
    }
  }
}
