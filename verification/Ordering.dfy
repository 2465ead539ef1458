/** Sorting, by an order or by a key. */
module Ordering {
  /** Any two can be compared. */
  ghost predicate Comparable<T(!new)>(le: (T, T) -> bool) {
    && (forall a, b :: le(a, b) || le(b, a))
    && (forall a, b, c :: le(a, b) && le(b, c) ==> le(a, c))
  }

  ghost predicate TotalOrder<T(!new)>(le: (T, T) -> bool) {
    Comparable(le) && forall a, b :: le(a, b) && le(b, a) ==> a == b
  }

  ghost predicate InOrder<T(!new)>(le: (T, T) -> bool, s: seq<T>) {
    forall i, j | 0 <= i < j < |s| :: le(s[i], s[j])
  }

  /** In order, without duplicates. */
  ghost predicate Ascending<T(!new)>(le: (T, T) -> bool, s: seq<T>) {
    forall i, j | 0 <= i < j < |s| :: le(s[i], s[j]) && s[i] != s[j]
  }

  function Insert<T>(le: (T, T) -> bool, x: T, s: seq<T>): seq<T> {
    if s == [] || le(x, s[0]) then [x] + s else [s[0]] + Insert(le, x, s[1..])
  }

  function Sort<T>(le: (T, T) -> bool, s: seq<T>): seq<T> {
    if s == [] then [] else Insert(le, s[0], Sort(le, s[1..]))
  }

  lemma {:induction false} InsertIsPermutation<T>(le: (T, T) -> bool, x: T, s: seq<T>)
    ensures multiset(Insert(le, x, s)) == multiset{x} + multiset(s)
  {
    if s != [] && !le(x, s[0]) {
      InsertIsPermutation(le, x, s[1..]);
      assert s == [s[0]] + s[1..];
    }
  }

  lemma {:induction false} SortIsPermutation<T>(le: (T, T) -> bool, s: seq<T>)
    ensures multiset(Sort(le, s)) == multiset(s)
  {
    if s != [] {
      SortIsPermutation(le, s[1..]);
      InsertIsPermutation(le, s[0], Sort(le, s[1..]));
      assert s == [s[0]] + s[1..];
    }
  }

  lemma {:induction false} InsertKeepsOrder<T(!new)>(le: (T, T) -> bool, x: T, s: seq<T>)
    requires Comparable(le) && InOrder(le, s)
    ensures InOrder(le, Insert(le, x, s))
  {
    if s != [] && !le(x, s[0]) {
      InsertKeepsOrder(le, x, s[1..]);
      InsertIsPermutation(le, x, s[1..]);
      var rest := Insert(le, x, s[1..]);
      forall k | 0 <= k < |rest|
        ensures le(s[0], rest[k])
      {
        assert rest[k] in multiset(rest);
        assert rest[k] == x || rest[k] in s[1..];
      }
    }
  }

  lemma {:induction false} SortIsInOrder<T(!new)>(le: (T, T) -> bool, s: seq<T>)
    requires Comparable(le)
    ensures InOrder(le, Sort(le, s))
  {
    if s != [] {
      SortIsInOrder(le, s[1..]);
      InsertKeepsOrder(le, s[0], Sort(le, s[1..]));
    }
  }

  /** The sorted sequence is in order and has the same elements, each as often. */
  lemma SortMeans<T(!new)>(le: (T, T) -> bool, s: seq<T>)
    requires Comparable(le)
    ensures InOrder(le, Sort(le, s)) && |Sort(le, s)| == |s|
    ensures forall x :: x in Sort(le, s) <==> x in s
  {
    SortIsInOrder(le, s);
    SortIsPermutation(le, s);
    assert |multiset(Sort(le, s))| == |multiset(s)|;
    assert forall x :: x in s <==> x in multiset(s);
  }

  /** An ascending sequence is known by its elements. */
  lemma {:induction false} AscendingIsUnique<T(!new)>(le: (T, T) -> bool, s: seq<T>, t: seq<T>)
    requires TotalOrder(le) && Ascending(le, s) && Ascending(le, t)
    requires forall x :: x in s <==> x in t
    ensures s == t
    decreases |s|
  {
    assert t != [] ==> t[0] in t;
    if s != [] {
      var m, n := |s| - 1, |t| - 1;
      assert s[m] in t;
      var j :| 0 <= j < |t| && t[j] == s[m];
      assert t[n] in s;
      var i :| 0 <= i < |s| && s[i] == t[n];
      assert s[m] == t[n];
      assert forall x :: x in s[..m] <==> x in s && x != s[m];
      assert forall x :: x in t[..n] <==> x in t && x != t[n];
      AscendingIsUnique(le, s[..m], t[..n]);
      assert s == s[..m] + [s[m]] && t == t[..n] + [t[n]];
    }
  }

  /** Drops an element that equals the one before it. */
  function Unique<T(==)>(s: seq<T>): seq<T> {
    if |s| <= 1 then s
    else
      var front := Unique(s[..|s| - 1]);
      if s[|s| - 1] == s[|s| - 2] then front else front + [s[|s| - 1]]
  }

  /** What is kept is in order if all was, and no element is followed by itself. */
  lemma {:induction false} UniqueMeans<T(!new)>(le: (T, T) -> bool, s: seq<T>)
    requires InOrder(le, s)
    ensures InOrder(le, Unique(s))
    ensures forall x :: x in Unique(s) <==> x in s
    ensures s != [] ==> Unique(s) != [] && Unique(s)[|Unique(s)| - 1] == s[|s| - 1]
    ensures forall i | 0 < i < |Unique(s)| :: Unique(s)[i - 1] != Unique(s)[i]
    decreases |s|
  {
    if |s| > 1 {
      var m := |s| - 1;
      var front := s[..m];
      assert s == front + [s[m]] && front[m - 1] == s[m - 1];
      UniqueMeans(le, front);
      forall k | 0 <= k < |Unique(front)|
        ensures le(Unique(front)[k], s[m])
      {
        assert Unique(front)[k] in front;
        var j :| 0 <= j < m && front[j] == Unique(front)[k];
        assert le(s[j], s[m]);
      }
    }
  }

  lemma {:induction false} UniqueAscends<T(!new)>(le: (T, T) -> bool, s: seq<T>)
    requires TotalOrder(le) && InOrder(le, s)
    ensures Ascending(le, Unique(s))
    ensures forall x :: x in Unique(s) <==> x in s
    ensures s != [] ==> Unique(s) != [] && Unique(s)[|Unique(s)| - 1] == s[|s| - 1]
    decreases |s|
  {
    if |s| > 1 {
      var m := |s| - 1;
      var front := s[..m];
      assert s == front + [s[m]] && front[m - 1] == s[m - 1];
      UniqueAscends(le, front);
      if s[m] != s[m - 1] {
        forall k | 0 <= k < |Unique(front)|
          ensures le(Unique(front)[k], s[m]) && Unique(front)[k] != s[m]
        {
          assert Unique(front)[k] in front;
          var j :| 0 <= j < m && front[j] == Unique(front)[k];
          assert le(s[j], s[m]) && le(s[j], s[m - 1]) && le(s[m - 1], s[m]);
        }
      }
    }
  }

  function Le(a: nat, b: nat): bool { a <= b }

  lemma LeIsOrder()
    ensures TotalOrder(Le)
  {
  }

  predicate TextBefore(a: string, b: string) {
    a == [] || (b != [] && (a[0] < b[0] || (a[0] == b[0] && TextBefore(a[1..], b[1..]))))
  }

  lemma {:induction false} TextBeforeIsTotal(a: string, b: string)
    ensures TextBefore(a, b) || TextBefore(b, a)
    ensures TextBefore(a, b) && TextBefore(b, a) ==> a == b
  {
    if a != [] && b != [] {
      TextBeforeIsTotal(a[1..], b[1..]);
      assert a == [a[0]] + a[1..] && b == [b[0]] + b[1..];
    }
  }

  lemma {:induction false} TextBeforeIsTransitive(a: string, b: string, c: string)
    requires TextBefore(a, b) && TextBefore(b, c)
    ensures TextBefore(a, c)
  {
    if a != [] && a[0] == b[0] == c[0] {
      TextBeforeIsTransitive(a[1..], b[1..], c[1..]);
    }
  }
}
