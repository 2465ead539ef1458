/** Bringing edits of a source into canonical form. */
module Edits {
  import opened Options
  import opened Ordering

  datatype SourceEdit = SourceEdit(start: nat, end: nat, replacement: string)

  /** An edit replaces a span. */
  type Edit = e: SourceEdit | e.start <= e.end witness SourceEdit(0, 0, "")

  // ----- the order of edits -----

  /** By where they start, the longest first, then by the replacement. */
  predicate EditBefore(a: SourceEdit, b: SourceEdit) {
    a.start < b.start || (a.start == b.start &&
      (a.end > b.end || (a.end == b.end && TextBefore(a.replacement, b.replacement))))
  }

  lemma EditBeforeIsOrder()
    ensures TotalOrder<SourceEdit>(EditBefore)
  {
    forall a, b
      ensures EditBefore(a, b) || EditBefore(b, a)
      ensures EditBefore(a, b) && EditBefore(b, a) ==> a == b
    {
      TextBeforeIsTotal(a.replacement, b.replacement);
    }
    forall a, b, c | EditBefore(a, b) && EditBefore(b, c)
      ensures EditBefore(a, c)
    {
      if TextBefore(a.replacement, b.replacement) && TextBefore(b.replacement, c.replacement) {
        TextBeforeIsTransitive(a.replacement, b.replacement, c.replacement);
      }
    }
  }

  // ----- canonical edits -----

  predicate SameSpan(a: Edit, b: Edit) {
    a.start == b.start && a.end == b.end
  }

  /** The span of b lies inside that of a, which is a different one. */
  predicate Covers(a: Edit, b: Edit) {
    a.start <= b.start < a.end && b.end <= a.end && !SameSpan(a, b)
  }

  predicate Overlap(a: Edit, b: Edit) {
    a.start < b.end && b.start < a.end
  }

  /** The two cannot both be done, nor does the first make the second unnecessary. */
  predicate Conflict(a: Edit, b: Edit) {
    if SameSpan(a, b) then a.replacement != b.replacement else Overlap(a, b) && !Covers(a, b)
  }

  /** No other edit covers it. */
  ghost predicate Outermost(edits: seq<Edit>, e: Edit) {
    e in edits && forall f | f in edits :: !Covers(f, e)
  }

  ghost predicate Conflicted(edits: seq<Edit>) {
    exists e, f :: Outermost(edits, e) && f in edits && Conflict(e, f)
  }

  /** In order and pairwise apart. */
  ghost predicate Apart(kept: seq<Edit>) {
    forall i, j | 0 <= i < j < |kept| :: kept[i].end <= kept[j].start && kept[i].start < kept[j].start
  }

  /** Exactly the outermost edits are kept, each once. */
  ghost predicate Canonical(edits: seq<Edit>, kept: seq<Edit>) {
    Apart(kept) && forall e :: e in kept <==> Outermost(edits, e)
  }

  /** What the loop has established of the edits so far. */
  ghost predicate Settled(done: seq<Edit>, kept: seq<Edit>) {
    && Apart(kept)
    && (forall e | e in kept :: Outermost(done, e) && forall f | f in done :: !Conflict(e, f))
    && (forall f | f in done :: f in kept || exists e :: e in kept && Covers(e, f))
    && (done != [] ==> kept != [] && forall e | e in done :: e.end <= kept[|kept| - 1].end)
  }

  ghost predicate Following(done: seq<Edit>, x: Edit) {
    forall e | e in done :: EditBefore(e, x)
  }

  lemma SettledKeeps(done: seq<Edit>, kept: seq<Edit>, x: Edit)
    requires Settled(done, kept) && Following(done, x) && kept != []
    requires var last := kept[|kept| - 1]; last == x || Covers(last, x)
    ensures Settled(done + [x], kept)
  {
    hide TextBefore;
    var last := kept[|kept| - 1];
    forall e | e in kept
      ensures Outermost(done + [x], e) && !Conflict(e, x)
    {
      var i :| 0 <= i < |kept| && kept[i] == e;
      assert last in kept && Outermost(done, last) && EditBefore(e, x) && EditBefore(last, x);
    }
  }

  lemma SettledPushes(done: seq<Edit>, kept: seq<Edit>, x: Edit)
    requires Settled(done, kept) && Following(done, x)
    requires kept != [] ==> kept[|kept| - 1].end <= x.start && !SameSpan(kept[|kept| - 1], x)
    ensures Settled(done + [x], kept + [x])
  {
    hide TextBefore;
    forall f | f in done
      ensures !Covers(f, x) && !Conflict(x, f) && !Conflict(f, x)
    {
      var last := kept[|kept| - 1];
      assert EditBefore(f, x);
    }
    forall e | e in kept
      ensures Outermost(done + [x], e)
    {
      assert EditBefore(e, x);
    }
    forall i | 0 <= i < |kept|
      ensures kept[i].end <= x.start && kept[i].start < x.start
    {
      assert kept[i] in kept && kept[i] in done;
    }
  }

  /** The last edit kept stays outermost, whatever follows. */
  lemma LastStaysOutermost(sorted: seq<Edit>, i: nat, kept: seq<Edit>)
    requires InOrder<SourceEdit>(EditBefore, sorted) && i < |sorted| && Settled(sorted[..i], kept) && kept != []
    requires Conflict(kept[|kept| - 1], sorted[i])
    ensures Conflicted(sorted)
  {
    hide TextBefore;
    var last := kept[|kept| - 1];
    assert last in kept && last in sorted[..i];
    forall f | f in sorted
      ensures !Covers(f, last)
    {
      var k :| 0 <= k < |sorted| && sorted[k] == f;
      if k < i {
        assert f in sorted[..i];
      } else {
        var l :| 0 <= l < i && sorted[l] == last;
        assert EditBefore(last, f);
      }
    }
    assert Outermost(sorted, last) && sorted[i] in sorted;
  }

  lemma SettledIsCanonical(edits: seq<Edit>, kept: seq<Edit>)
    requires Settled(edits, kept)
    ensures Canonical(edits, kept) && !Conflicted(edits)
  {
    forall e | Outermost(edits, e)
      ensures e in kept
    {
    }
  }

  lemma SameEdits(edits: seq<Edit>, sorted: seq<Edit>)
    requires forall e :: e in sorted <==> e in edits
    ensures forall e :: Outermost(edits, e) <==> Outermost(sorted, e)
    ensures Conflicted(edits) <==> Conflicted(sorted)
    ensures forall kept :: Canonical(edits, kept) <==> Canonical(sorted, kept)
  {
    assert forall e :: Outermost(edits, e) <==> Outermost(sorted, e);
  }

  /**
   * Sorts the edits and compares each with the last one kept. That is enough: it fails exactly if some
   * outermost edit conflicts with another, and keeps the outermost ones otherwise.
   */
  method Canonicalize(edits: seq<Edit>) returns (r: Option<seq<Edit>>)
    ensures r.None? <==> Conflicted(edits)
    ensures r.Some? ==> Canonical(edits, r.value)
  {
    assert Settled([], []);
    hide TextBefore, Settled, EditBefore, Canonical;
    var sorted: seq<Edit> := SortEdits(edits);
    SameEdits(edits, sorted);
    var canonical: seq<Edit> := [];
    var i := 0;
    assert sorted[..0] == [];
    while i < |sorted|
      invariant 0 <= i <= |sorted| && Settled(sorted[..i], canonical)
    {
      var edit := sorted[i];
      ghost var done := sorted[..i];
      assert sorted[..i + 1] == done + [edit];
      i := i + 1;
      assert Following(done, edit);
      LastCompares(done, canonical, edit);
      if canonical != [] {
        var previous := canonical[|canonical| - 1];
        if previous.start == edit.start && previous.end == edit.end {
          if previous.replacement != edit.replacement {
            LastStaysOutermost(sorted, i - 1, canonical);
            return None;
          }
          SettledKeeps(done, canonical, edit);
          continue;
        }
        if previous.end > edit.start {
          if !(previous.start <= edit.start && previous.end >= edit.end) {
            LastStaysOutermost(sorted, i - 1, canonical);
            return None;
          }
          SettledKeeps(done, canonical, edit);
          continue;
        }
      }
      SettledPushes(done, canonical, edit);
      canonical := canonical + [edit];
    }
    assert sorted[..i] == sorted;
    SettledIsCanonical(sorted, canonical);
    r := Some(canonical);
  }

  lemma LastCompares(done: seq<Edit>, kept: seq<Edit>, x: Edit)
    requires Settled(done, kept) && Following(done, x)
    ensures kept != [] ==> kept[|kept| - 1].start <= x.start
  {
    assert kept != [] ==> kept[|kept| - 1] in kept;
  }

  method SortEdits(edits: seq<Edit>) returns (sorted: seq<Edit>)
    ensures InOrder<SourceEdit>(EditBefore, sorted) && forall e :: e in sorted <==> e in edits
  {
    EditBeforeIsOrder();
    var all: seq<SourceEdit> := Sort<SourceEdit>(EditBefore, edits);
    SortMeans<SourceEdit>(EditBefore, edits);
    assert forall e | e in all :: e.start <= e.end;
    sorted := all;
  }

  // ----- what canonical edits are good for -----

  /** Whatever is dropped lies inside what is kept, or is the same; and nothing kept conflicts. */
  lemma DroppedAreCovered(edits: seq<Edit>, kept: seq<Edit>, f: Edit)
    requires Canonical(edits, kept) && !Conflicted(edits) && f in edits
    ensures f in kept || exists e :: e in kept && Covers(e, f)
  {
    if !Outermost(edits, f) {
      var e := FindOutermost(edits, f);
    }
  }

  /** Going outward from an edit ends at an outermost one. */
  lemma {:induction false} FindOutermost(edits: seq<Edit>, f: Edit) returns (e: Edit)
    requires f in edits && !Outermost(edits, f)
    ensures Outermost(edits, e) && Covers(e, f)
    decreases EndBound(edits) - (f.end - f.start)
  {
    e :| e in edits && Covers(e, f);
    LengthBound(edits, e);
    if !Outermost(edits, e) {
      var outer := FindOutermost(edits, e);
      e := outer;
    }
  }

  function EndBound(edits: seq<Edit>): nat {
    if edits == [] then 0
    else
      var rest := EndBound(edits[1..]);
      if rest < edits[0].end then edits[0].end else rest
  }

  lemma {:induction false} LengthBound(edits: seq<Edit>, e: Edit)
    requires e in edits
    ensures e.end <= EndBound(edits)
  {
    if e != edits[0] {
      LengthBound(edits[1..], e);
    }
  }

  /** A second run changes nothing. */
  lemma CanonicalAgain(edits: seq<Edit>, kept: seq<Edit>, again: seq<Edit>)
    requires Canonical(edits, kept)
    ensures !Conflicted(kept) && Canonical(kept, kept)
    ensures Canonical(kept, again) ==> again == kept
  {
    forall e | e in kept
      ensures Outermost(kept, e)
    {
    }
    forall e, f | e in kept && f in kept
      ensures !Conflict(e, f)
    {
      var i :| 0 <= i < |kept| && kept[i] == e;
      var j :| 0 <= j < |kept| && kept[j] == f;
    }
    if Canonical(kept, again) {
      EditBeforeIsOrder();
      ApartAscends(kept);
      ApartAscends(again);
      AscendingIsUnique<SourceEdit>(EditBefore, kept, again);
    }
  }

  lemma ApartAscends(kept: seq<Edit>)
    requires Apart(kept)
    ensures Ascending<SourceEdit>(EditBefore, kept)
  {
    hide TextBefore;
    forall i, j | 0 <= i < j < |kept|
      ensures EditBefore(kept[i], kept[j]) && kept[i] != kept[j]
    {
      assert kept[i].end <= kept[j].start;
    }
  }
}
