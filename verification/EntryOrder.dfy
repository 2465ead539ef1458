/** Properties of an object, and their order by UTF-16 code units. */
module EntryOrder {
  import opened Utf8
  import ValueTree

  /** A value as the engine hands it over; objects are references into a graph. */
  datatype JsValue =
    | JsUndefined
    | JsNull
    | JsBoolean(flag: bool)
    | JsNumber(bits: ValueTree.Word64)
    | JsBigInt(value: int)
    | JsString(chunks: seq<Chunk>)
    | JsSymbol
    | JsRef(id: nat)

  datatype Entry = Entry(name: seq<CodeUnit>, value: JsValue)

  predicate Less(a: seq<CodeUnit>, b: seq<CodeUnit>) {
    b != [] && (a == [] || a[0] < b[0] || (a[0] == b[0] && Less(a[1..], b[1..])))
  }

  lemma {:induction false} LessIsTotal(a: seq<CodeUnit>, b: seq<CodeUnit>)
    ensures Less(a, b) || Less(b, a) || a == b
    ensures !(Less(a, b) && Less(b, a)) && !(Less(a, b) && a == b)
  {
    if a != [] && b != [] {
      LessIsTotal(a[1..], b[1..]);
      assert a == [a[0]] + a[1..] && b == [b[0]] + b[1..];
    }
  }

  lemma {:induction false} LessIsTransitive(a: seq<CodeUnit>, b: seq<CodeUnit>, c: seq<CodeUnit>)
    requires Less(a, b) && Less(b, c)
    ensures Less(a, c)
  {
    if a != [] && a[0] == b[0] == c[0] {
      LessIsTransitive(a[1..], b[1..], c[1..]);
    }
  }

  ghost predicate DistinctNames(entries: seq<Entry>) {
    forall i, j | 0 <= i < j < |entries| :: entries[i].name != entries[j].name
  }

  ghost predicate InOrder(entries: seq<Entry>) {
    forall i, j | 0 <= i < j < |entries| :: !Less(entries[j].name, entries[i].name)
  }

  function Insert(entry: Entry, entries: seq<Entry>): seq<Entry> {
    if entries == [] || !Less(entries[0].name, entry.name) then [entry] + entries
    else [entries[0]] + Insert(entry, entries[1..])
  }

  function Sorted(entries: seq<Entry>): seq<Entry> {
    if entries == [] then [] else Insert(entries[0], Sorted(entries[1..]))
  }

  lemma {:induction false} InsertIsPermutation(entry: Entry, entries: seq<Entry>)
    ensures multiset(Insert(entry, entries)) == multiset{entry} + multiset(entries)
  {
    if entries != [] && Less(entries[0].name, entry.name) {
      InsertIsPermutation(entry, entries[1..]);
      assert entries == [entries[0]] + entries[1..];
    }
  }

  lemma {:induction false} SortedIsPermutation(entries: seq<Entry>)
    ensures multiset(Sorted(entries)) == multiset(entries)
  {
    if entries != [] {
      SortedIsPermutation(entries[1..]);
      InsertIsPermutation(entries[0], Sorted(entries[1..]));
      assert entries == [entries[0]] + entries[1..];
    }
  }

  lemma {:induction false} InsertKeepsOrder(entry: Entry, entries: seq<Entry>)
    requires InOrder(entries)
    ensures InOrder(Insert(entry, entries))
  {
    var r := Insert(entry, entries);
    if entries == [] {
    } else if !Less(entries[0].name, entry.name) {
      forall j | 0 <= j < |entries|
        ensures !Less(entries[j].name, entry.name)
      {
        if j > 0 && Less(entries[j].name, entry.name) {
          LessIsTotal(entries[0].name, entries[j].name);
          if Less(entries[0].name, entries[j].name) {
            LessIsTransitive(entries[0].name, entries[j].name, entry.name);
          }
        }
      }
    } else {
      InsertKeepsOrder(entry, entries[1..]);
      InsertIsPermutation(entry, entries[1..]);
      var rest := Insert(entry, entries[1..]);
      forall k | 0 <= k < |rest|
        ensures !Less(rest[k].name, entries[0].name)
      {
        assert rest[k] in multiset(rest);
        assert rest[k] == entry || rest[k] in entries[1..];
        LessIsTotal(entries[0].name, entry.name);
      }
    }
  }

  lemma {:induction false} SortedIsInOrder(entries: seq<Entry>)
    ensures InOrder(Sorted(entries))
  {
    if entries != [] {
      SortedIsInOrder(entries[1..]);
      InsertKeepsOrder(entries[0], Sorted(entries[1..]));
    }
  }

  /** However the properties are enumerated, sorting distinct names gives one result. */
  lemma SortedIsUnique(a: seq<Entry>, b: seq<Entry>)
    requires multiset(a) == multiset(b) && DistinctNames(a)
    ensures Sorted(a) == Sorted(b)
  {
    hide Sorted, Less, DistinctNames, InOrder;
    SortedIsInOrder(a);
    SortedIsInOrder(b);
    SortedIsPermutation(a);
    SortedIsPermutation(b);
    DistinctIsUpToOrder(a, Sorted(a));
    DistinctIsUpToOrder(a, Sorted(b));
    OrderedIsUnique(Sorted(a), Sorted(b));
  }

  lemma DistinctIsUpToOrder(a: seq<Entry>, b: seq<Entry>)
    requires multiset(a) == multiset(b) && DistinctNames(a)
    ensures DistinctNames(b)
  {
    forall i, j | 0 <= i < j < |b|
      ensures b[i].name != b[j].name
    {
      assert b[i] in multiset(a) && b[j] in multiset(a);
      if b[i] == b[j] {
        Twice(b, i, j);
        Once(a, b[i]);
      } else {
        var i', j' :| 0 <= i' < |a| && 0 <= j' < |a| && a[i'] == b[i] && a[j'] == b[j];
      }
    }
  }

  lemma Twice(b: seq<Entry>, i: nat, j: nat)
    requires i < j < |b| && b[i] == b[j]
    ensures multiset(b)[b[i]] >= 2
  {
    assert b == b[..j] + [b[j]] + b[j + 1..];
    assert b[i] in b[..j];
  }

  lemma {:induction false} Once(a: seq<Entry>, e: Entry)
    requires DistinctNames(a)
    ensures multiset(a)[e] <= 1
  {
    if a != [] {
      assert a == [a[0]] + a[1..];
      Once(a[1..], e);
      if a[0] == e {
        assert e !in a[1..];
      }
    }
  }

  /** The first of an ordered sequence of distinct names is the least. */
  lemma FirstIsUnique(a: seq<Entry>, b: seq<Entry>)
    requires multiset(a) == multiset(b) && DistinctNames(a) && InOrder(a) && InOrder(b) && a != [] && b != []
    ensures a[0] == b[0]
  {
    assert a[0] in multiset(b) && b[0] in multiset(a);
    var i :| 0 <= i < |b| && b[i] == a[0];
    var j :| 0 <= j < |a| && a[j] == b[0];
    LessIsTotal(a[0].name, b[0].name);
    assert j == 0;
  }

  lemma RestIsOrdered(a: seq<Entry>)
    requires a != [] && DistinctNames(a) && InOrder(a)
    ensures DistinctNames(a[1..]) && InOrder(a[1..])
    ensures multiset(a[1..]) == multiset(a) - multiset{a[0]}
  {
    hide Less;
    assert a == [a[0]] + a[1..];
  }

  lemma {:induction false} OrderedIsUnique(a: seq<Entry>, b: seq<Entry>)
    requires multiset(a) == multiset(b) && DistinctNames(a) && InOrder(a) && DistinctNames(b) && InOrder(b)
    ensures a == b
  {
    hide Less, DistinctNames, InOrder;
    assert |a| == |multiset(a)| == |multiset(b)| == |b|;
    if a != [] {
      FirstIsUnique(a, b);
      RestIsOrdered(a);
      RestIsOrdered(b);
      OrderedIsUnique(a[1..], b[1..]);
      assert a == [a[0]] + a[1..] && b == [b[0]] + b[1..];
    }
  }
}
