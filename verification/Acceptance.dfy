/** Which object graphs are accepted, and how the accepted value reads. */
module Acceptance {
  import opened Options
  import opened Bytes
  import opened Utf8
  import opened EntryOrder
  import opened JsValues

  // ----- acceptance, value by value -----

  /** The properties that are not undefined. */
  function Defined(entries: seq<Entry>): seq<Entry> {
    if entries == [] then []
    else (if entries[0].value.JsUndefined? then [] else [entries[0]]) + Defined(entries[1..])
  }

  /** Nothing is wrong with the value by itself, leaving its parts aside. */
  ghost predicate LocallyFine(w: World, v: JsValue) {
    match v
    case JsUndefined | JsSymbol => false
    case JsNull | JsBoolean(_) | JsNumber(_) => true
    case JsBigInt(value) => -0x8000_0000_0000_0000 <= value < 0x8000_0000_0000_0000
    case JsString(chunks) => Utf8Of(Text(chunks)).Some? && !Interrupted(chunks)
    case JsRef(id) =>
      if v == w.placeholder then !w.committed else
      match w.At(id)
      case ArrayBuffer(_) => true
      case ArrayObject(slots) => |slots| <= ValueTree.MAX_ARRAY_LENGTH
      case PlainObject(entries) =>
        && (forall e | e in entries && !e.value.JsUndefined? :: ValidName(e.name))
        && |Defined(Sorted(entries))| <= ValueTree.MAX_OBJECT_FIELDS
      case _ => false
  }

  /** The end of a descent is fine by itself, and if it has parts it is not nested too deeply. */
  ghost predicate EndsFine(w: World, depth: nat, path: seq<JsValue>)
    requires path != []
  {
    var v := path[|path| - 1];
    LocallyFine(w, v) && (IsContainer(w, v) ==> depth + |path| <= ValueTree.MAX_NESTING)
  }

  ghost predicate AllFine(w: World, depth: nat, v: JsValue) {
    forall path | path != [] && path[0] == v && Descent(w, path) :: EndsFine(w, depth, path)
  }

  lemma LeafIffFine(w: World, v: JsValue)
    requires !IsContainer(w, v)
    ensures Leaf(w, v).Some? <==> LocallyFine(w, v)
  {
    if v.JsString? {
      StreamedMeans(v.chunks);
    }
  }

  lemma UnfoldsIsFine(w: World, v: JsValue, ancestors: seq<JsValue>)
    requires Unfold(w, v, ancestors, false).Some?
    ensures EndsFine(w, |ancestors|, [v])
  {
    if !IsContainer(w, v) {
      LeafIffFine(w, v);
    }
    if IsContainer(w, v) && w.At(v.id).PlainObject? {
      var entries := w.At(v.id).entries;
      SortedIsPermutation(entries);
      forall e | e in entries && !e.value.JsUndefined?
        ensures ValidName(e.name)
      {
        assert e in multiset(entries);
        EntriesUnfold(w, Sorted(entries), ancestors + [v], false, e);
      }
      FieldsAreDefined(w, Sorted(entries), ancestors + [v], false);
    }
  }

  lemma {:induction false} FieldsAreDefined(w: World, entries: seq<Entry>, ancestors: seq<JsValue>, check: bool)
    requires UnfoldEntries(w, entries, ancestors, check).Some?
    ensures var fields := UnfoldEntries(w, entries, ancestors, check).value;
            && |fields| == |Defined(entries)|
            && forall k | 0 <= k < |fields| :: IsFieldOf(w, Defined(entries)[k], ancestors, check, fields[k])
    decreases |entries|
  {
    hide UnfoldEntry, IsFieldOf;
    if entries != [] {
      EntryIsDefined(w, entries[0], ancestors, check);
      FieldsAreDefined(w, entries[1..], ancestors, check);
      var first, rest := UnfoldEntry(w, entries[0], ancestors, check).value,
                         UnfoldEntries(w, entries[1..], ancestors, check).value;
      var d := if entries[0].value.JsUndefined? then [] else [entries[0]];
      assert UnfoldEntries(w, entries, ancestors, check).value == first + rest;
      assert Defined(entries) == d + Defined(entries[1..]);
      hide UnfoldEntries, Defined;
      forall k | 0 <= k < |first + rest|
        ensures IsFieldOf(w, (d + Defined(entries[1..]))[k], ancestors, check, (first + rest)[k])
      {
      }
    }
  }

  lemma EntryIsDefined(w: World, e: Entry, ancestors: seq<JsValue>, check: bool)
    requires UnfoldEntry(w, e, ancestors, check).Some?
    ensures var fields := UnfoldEntry(w, e, ancestors, check).value;
            if e.value.JsUndefined? then fields == []
            else |fields| == 1 && IsFieldOf(w, e, ancestors, check, fields[0])
  {
    hide Unfold, ValidName;
  }

  /** The field is the name and the value of the property. */
  ghost predicate IsFieldOf(w: World, e: Entry, ancestors: seq<JsValue>, check: bool, f: ValueTree.Field) {
    && !e.value.JsUndefined? && ValidName(e.name) && f.key == NameBytes(e.name)
    && Unfold(w, e.value, ancestors, check) == Some(f.value)
  }

  /** Below an accepted value everything is fine. */
  lemma AcceptedIsFine(w: World, v: JsValue, ancestors: seq<JsValue>)
    requires Unfold(w, v, ancestors, false).Some?
    ensures AllFine(w, |ancestors|, v)
  {
    hide Unfold, LocallyFine;
    forall path | path != [] && path[0] == v && Descent(w, path)
      ensures EndsFine(w, |ancestors|, path)
    {
      DescentUnfolds(w, path, ancestors, false);
      var last := path[|path| - 1];
      UnfoldsIsFine(w, last, ancestors + path[..|path| - 1]);
      assert EndsFine(w, |ancestors| + |path| - 1, [last]);
    }
  }

  lemma ChildIsFine(w: World, depth: nat, v: JsValue, c: JsValue)
    requires AllFine(w, depth, v) && Child(w, v, c)
    ensures AllFine(w, depth + 1, c)
  {
    hide LocallyFine, Child;
    forall path | path != [] && path[0] == c && Descent(w, path)
      ensures EndsFine(w, depth + 1, path)
    {
      var longer := [v] + path;
      forall i | 0 <= i < |longer| - 1
        ensures Child(w, longer[i], longer[i + 1])
      {
        if i > 0 {
          assert Child(w, path[i - 1], path[i]);
        }
      }
      assert Descent(w, longer) && longer[0] == v;
      assert EndsFine(w, depth, longer) && longer[|longer| - 1] == path[|path| - 1];
    }
  }

  /** Where everything is fine, the value is accepted. */
  lemma {:induction false} FineIsAccepted(w: World, v: JsValue, ancestors: seq<JsValue>)
    requires AllFine(w, |ancestors|, v)
    ensures Unfold(w, v, ancestors, false).Some?
    decreases Budget(ancestors), 0, 0
  {
    hide UnfoldSlots, UnfoldEntries, AllFine;
    FineHere(w, |ancestors|, v);
    if !IsContainer(w, v) {
      LeafIffFine(w, v);
    } else {
      match w.At(v.id)
      case ArrayObject(slots) =>
        forall c | Some(c) in slots
          ensures AllFine(w, |ancestors| + 1, c)
        {
          ChildIsFine(w, |ancestors|, v, c);
        }
        SlotsAreAccepted(w, slots, ancestors + [v]);
      case PlainObject(entries) =>
        FineEntriesAreAccepted(w, v, ancestors);
      case _ =>
    }
  }

  lemma {:induction false} FineEntriesAreAccepted(w: World, v: JsValue, ancestors: seq<JsValue>)
    requires AllFine(w, |ancestors|, v) && IsContainer(w, v) && w.At(v.id).PlainObject?
    requires |ancestors| < ValueTree.MAX_NESTING
    ensures var fields := UnfoldEntries(w, Sorted(w.At(v.id).entries), ancestors + [v], false);
            fields.Some? && |fields.value| <= ValueTree.MAX_OBJECT_FIELDS
    decreases Budget(ancestors + [v]), 3, 0
  {
    hide Unfold, UnfoldEntries, AllFine, ValidName, IsFieldOf;
    var entries := w.At(v.id).entries;
    FineHere(w, |ancestors|, v);
    SortedIsPermutation(entries);
    forall e | e in Sorted(entries) && !e.value.JsUndefined?
      ensures AllFine(w, |ancestors| + 1, e.value) && ValidName(e.name)
    {
      assert e in multiset(entries);
      ChildIsFine(w, |ancestors|, v, e.value);
    }
    EntriesAreAccepted(w, Sorted(entries), ancestors + [v]);
    FieldsAreDefined(w, Sorted(entries), ancestors + [v], false);
  }

  lemma FineHere(w: World, depth: nat, v: JsValue)
    requires AllFine(w, depth, v)
    ensures EndsFine(w, depth, [v])
  {
    assert Descent(w, [v]) && [v][0] == v;
  }

  lemma {:induction false} SlotsAreAccepted(w: World, slots: seq<Option<JsValue>>, ancestors: seq<JsValue>)
    requires 0 < |ancestors| <= ValueTree.MAX_NESTING && forall c | Some(c) in slots :: AllFine(w, |ancestors|, c)
    ensures UnfoldSlots(w, slots, ancestors, false).Some?
    decreases Budget(ancestors), 2, |slots|
  {
    hide Unfold, AllFine;
    if slots != [] {
      if slots[0].Some? {
        FineIsAccepted(w, slots[0].value, ancestors);
      }
      SlotsAreAccepted(w, slots[1..], ancestors);
    }
  }

  lemma {:induction false} EntriesAreAccepted(w: World, entries: seq<Entry>, ancestors: seq<JsValue>)
    requires 0 < |ancestors| <= ValueTree.MAX_NESTING
    requires forall e | e in entries && !e.value.JsUndefined? :: AllFine(w, |ancestors|, e.value) && ValidName(e.name)
    ensures UnfoldEntries(w, entries, ancestors, false).Some?
    decreases Budget(ancestors), 2, |entries|
  {
    hide Unfold, AllFine, ValidName;
    if entries != [] {
      if !entries[0].value.JsUndefined? {
        FineIsAccepted(w, entries[0].value, ancestors);
      }
      EntriesAreAccepted(w, entries[1..], ancestors);
    }
  }

  /**
   * A value is accepted exactly if every descent from it ends at something that is fine by itself and
   * not too deep. How often a part is met is no matter, so siblings may be shared.
   */
  lemma AcceptedIffFine(w: World, v: JsValue)
    ensures Unfold(w, v, [], true).Some? <==> AllFine(w, 0, v)
  {
    hide Unfold, AllFine;
    assert Descent(w, [] + [v]);
    CheckIsRedundant(w, v, []);
    if Unfold(w, v, [], false).Some? {
      AcceptedIsFine(w, v, []);
    }
    if AllFine(w, 0, v) {
      FineIsAccepted(w, v, []);
    }
  }

  /** An object that is met twice side by side is written twice, and is no cycle. */
  lemma SharedSiblingsAreAccepted(w: World, id: nat, c: JsValue)
    requires w.At(id) == ArrayObject([Some(c), Some(c)]) && IsContainer(w, JsRef(id))
    requires Unfold(w, c, [JsRef(id)], false).Some?
    ensures var t := Unfold(w, c, [JsRef(id)], false).value;
            Unfold(w, JsRef(id), [], true) == Some(ValueTree.Array([t, t]))
  {
    hide Leaf;
    var v, slots := JsRef(id), [Some(c), Some(c)];
    assert Descent(w, [] + [v]) && [] + [v] == [v];
    CheckIsRedundant(w, v, []);
    assert slots[1..] == [Some(c)] && slots[1..][1..] == [];
    var t := Unfold(w, c, [v], false).value;
    assert UnfoldSlot(w, Some(c), [v], false) == Some(t);
    var none: seq<ValueTree.Tree> := [];
    assert UnfoldSlots(w, slots[1..][1..], [v], false) == Some(none);
    assert [t] + none == [t] && [t] + [t] == [t, t];
    assert UnfoldSlots(w, slots[1..], [v], false) == Some([t]);
    assert UnfoldSlots(w, slots, [v], false) == Some([t, t]);
  }

  // ----- how an accepted value reads -----

  /** Bytes compared as keys are. */
  predicate KeyBefore(a: seq<byte>, b: seq<byte>) {
    b != [] && (a == [] || a[0] < b[0] || (a[0] == b[0] && KeyBefore(a[1..], b[1..])))
  }

  lemma {:induction false} KeysFollowNames(a: seq<CodeUnit>, b: seq<CodeUnit>)
    requires (forall i | 0 <= i < |a| :: a[i] < 0x100) && (forall i | 0 <= i < |b| :: b[i] < 0x100)
    ensures Less(a, b) <==> KeyBefore(AsBytes(a), AsBytes(b))
    decreases |a|
  {
    if a != [] && b != [] {
      assert AsBytes(a)[1..] == AsBytes(a[1..]) && AsBytes(b)[1..] == AsBytes(b[1..]);
      KeysFollowNames(a[1..], b[1..]);
    }
  }

  function AsBytes(units: seq<CodeUnit>): seq<byte>
    requires forall i | 0 <= i < |units| :: units[i] < 0x100
  {
    seq(|units|, i requires 0 <= i < |units| => units[i])
  }

  lemma {:induction false} DefinedMeans(entries: seq<Entry>)
    ensures forall e :: e in Defined(entries) <==> e in entries && !e.value.JsUndefined?
    ensures InOrder(entries) && DistinctNames(entries) ==>
      forall i, j | 0 <= i < j < |Defined(entries)| :: Less(Defined(entries)[i].name, Defined(entries)[j].name)
    decreases |entries|
  {
    hide Less;
    if entries != [] {
      var rest := entries[1..];
      DefinedMeans(rest);
      assert entries == [entries[0]] + rest;
      if InOrder(entries) && DistinctNames(entries) {
        forall e | e in rest
          ensures Less(entries[0].name, e.name)
        {
          var k :| 0 <= k < |rest| && rest[k] == e;
          assert entries[k + 1] == e;
          LessIsTotal(entries[0].name, e.name);
        }
      }
    }
  }

  /**
   * An accepted object has one field for each property that is not undefined, with its name and the
   * value it stands for, and no other; and its keys are strictly ascending.
   */
  lemma AcceptedFields(w: World, v: JsValue, ancestors: seq<JsValue>, check: bool)
    requires IsContainer(w, v) && w.At(v.id).PlainObject? && Unfold(w, v, ancestors, check).Some?
    ensures var entries, t := w.At(v.id).entries, Unfold(w, v, ancestors, check).value;
            && t.Object?
            && (forall e | e in entries && !e.value.JsUndefined? ::
                  exists f :: f in t.fields && IsFieldOf(w, e, ancestors + [v], check, f))
            && (forall f | f in t.fields :: exists e :: e in entries && IsFieldOf(w, e, ancestors + [v], check, f))
            && (DistinctNames(entries) ==>
                  forall i, j | 0 <= i < j < |t.fields| :: KeyBefore(t.fields[i].key, t.fields[j].key))
  {
    hide Leaf, UnfoldEntries, KeyBefore, Less;
    var entries, t := w.At(v.id).entries, Unfold(w, v, ancestors, check).value;
    var sorted := Sorted(entries);
    SortedIsPermutation(entries);
    SortedIsInOrder(entries);
    DefinedMeans(sorted);
    FieldsAreDefined(w, sorted, ancestors + [v], check);
    FieldsRead(w, entries, sorted, ancestors + [v], check, t.fields);
    if DistinctNames(entries) {
      DistinctIsUpToOrder(entries, sorted);
      forall i, j | 0 <= i < j < |t.fields|
        ensures KeyBefore(t.fields[i].key, t.fields[j].key)
      {
        KeysAscend(w, ancestors + [v], check, Defined(sorted)[i], Defined(sorted)[j], t.fields[i], t.fields[j]);
      }
    }
  }

  lemma KeysAscend(w: World, ancestors: seq<JsValue>, check: bool, d: Entry, e: Entry,
                   f: ValueTree.Field, g: ValueTree.Field)
    requires IsFieldOf(w, d, ancestors, check, f) && IsFieldOf(w, e, ancestors, check, g) && Less(d.name, e.name)
    ensures KeyBefore(f.key, g.key)
  {
    KeysFollowNames(d.name, e.name);
    assert f.key == AsBytes(d.name) && g.key == AsBytes(e.name);
  }

  lemma FieldsRead(w: World, entries: seq<Entry>, sorted: seq<Entry>, ancestors: seq<JsValue>, check: bool,
                   fields: seq<ValueTree.Field>)
    requires multiset(sorted) == multiset(entries)
    requires forall e :: e in Defined(sorted) <==> e in sorted && !e.value.JsUndefined?
    requires |fields| == |Defined(sorted)|
    requires forall k | 0 <= k < |fields| :: IsFieldOf(w, Defined(sorted)[k], ancestors, check, fields[k])
    ensures forall e | e in entries && !e.value.JsUndefined? ::
              exists f :: f in fields && IsFieldOf(w, e, ancestors, check, f)
    ensures forall f | f in fields :: exists e :: e in entries && IsFieldOf(w, e, ancestors, check, f)
  {
    hide IsFieldOf;
    assert forall e :: e in entries <==> e in multiset(entries);
    assert forall e :: e in sorted <==> e in multiset(sorted);
    forall e | e in entries && !e.value.JsUndefined?
      ensures exists f :: f in fields && IsFieldOf(w, e, ancestors, check, f)
    {
      var k :| 0 <= k < |fields| && Defined(sorted)[k] == e;
      assert fields[k] in fields;
    }
    forall f | f in fields
      ensures exists e :: e in entries && IsFieldOf(w, e, ancestors, check, f)
    {
      var k :| 0 <= k < |fields| && fields[k] == f;
      assert Defined(sorted)[k] in sorted;
    }
  }

  /** An accepted array has an item for each of its places: null for a hole, else the value it stands for. */
  lemma AcceptedItems(w: World, v: JsValue, ancestors: seq<JsValue>, check: bool)
    requires IsContainer(w, v) && w.At(v.id).ArrayObject? && Unfold(w, v, ancestors, check).Some?
    ensures var slots, t := w.At(v.id).slots, Unfold(w, v, ancestors, check).value;
            && t.Array? && |t.items| == |slots|
            && (forall k | 0 <= k < |slots| && slots[k].None? :: t.items[k] == ValueTree.Null)
            && (forall k | 0 <= k < |slots| && slots[k].Some? ::
                  Unfold(w, slots[k].value, ancestors + [v], check) == Some(t.items[k]))
  {
    hide Leaf, UnfoldSlots;
    ItemsAreSlots(w, w.At(v.id).slots, ancestors + [v], check);
  }

  lemma {:induction false} ItemsAreSlots(w: World, slots: seq<Option<JsValue>>, ancestors: seq<JsValue>, check: bool)
    requires UnfoldSlots(w, slots, ancestors, check).Some?
    ensures var items := UnfoldSlots(w, slots, ancestors, check).value;
            && |items| == |slots|
            && forall k | 0 <= k < |slots| :: UnfoldSlot(w, slots[k], ancestors, check) == Some(items[k])
    decreases |slots|
  {
    hide UnfoldSlot;
    if slots != [] {
      ItemsAreSlots(w, slots[1..], ancestors, check);
    }
  }
}
