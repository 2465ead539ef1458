/** What a tree says about a value, independently of how trees are made, and that accepted values have such a tree. */
module Denotation {
  import opened Options
  import opened Bytes
  import opened Utf8
  import opened EntryOrder
  import opened JsValues
  import opened Acceptance

  /** The bytes are the characters of the name, one byte for each. */
  ghost predicate Spells(key: seq<byte>, name: seq<CodeUnit>) {
    |key| == |name| && forall i | 0 <= i < |key| :: key[i] as int == name[i] as int
  }

  /**
   * t is the value v with all references followed. Of an object it has every property that is not
   * undefined and nothing else, with ascending keys; of an array it has every place, with null for a hole.
   */
  ghost predicate Denotes(w: World, t: ValueTree.Tree, v: JsValue)
    decreases t
  {
    match t
    case Null => v == JsNull
    case Bool(flag) => v == JsBoolean(flag)
    case Number(bits) => v == JsNumber(bits)
    case Integer(value) => v == JsBigInt(value)
    case Text(utf8) => v.JsString? && Utf8Of(Utf8.Text(v.chunks)) == Some(utf8)
    case Pending => v.JsRef? && v == w.placeholder && !w.committed
    case Buffer(data) => v.JsRef? && v != w.placeholder && w.At(v.id) == ArrayBuffer(data)
    case Array(items) =>
      && v.JsRef? && v != w.placeholder && w.At(v.id).ArrayObject?
      && var slots := w.At(v.id).slots;
         && |items| == |slots|
         && forall k | 0 <= k < |items| ::
              if slots[k].None? then items[k].Null? else Denotes(w, items[k], slots[k].value)
    case Object(fields) =>
      && v.JsRef? && v != w.placeholder && w.At(v.id).PlainObject?
      && var entries := w.At(v.id).entries;
         && AreProperties(w, fields, entries)
         && (DistinctNames(entries) ==>
               forall i, j | 0 <= i < j < |fields| :: KeyBefore(fields[i].key, fields[j].key))
  }

  /** The field has the name and the value of the property. */
  ghost predicate IsProperty(w: World, f: ValueTree.Field, e: Entry)
    decreases f
  {
    Spells(f.key, e.name) && Denotes(w, f.value, e.value)
  }

  /** The fields are the properties that are not undefined. */
  ghost predicate AreProperties(w: World, fields: seq<ValueTree.Field>, entries: seq<Entry>)
    decreases fields
  {
    && (forall e | e in entries && !e.value.JsUndefined? :: exists f | f in fields :: IsProperty(w, f, e))
    && (forall f | f in fields :: exists e | e in entries :: IsProperty(w, f, e))
  }

  /** The tree that is written for an accepted value denotes it. */
  lemma {:induction false} UnfoldDenotes(w: World, v: JsValue, ancestors: seq<JsValue>, check: bool)
    requires Unfold(w, v, ancestors, check).Some?
    ensures Denotes(w, Unfold(w, v, ancestors, check).value, v)
    decreases Budget(ancestors)
  {
    hide UnfoldSlots, UnfoldEntries, KeyBefore;
    if !IsContainer(w, v) {
      LeafDenotes(w, v);
    } else {
      match w.At(v.id)
      case ArrayObject(slots) =>
        ArrayDenotes(w, v, ancestors, check);
      case PlainObject(entries) =>
        ObjectDenotes(w, v, ancestors, check);
    }
  }

  lemma LeafDenotes(w: World, v: JsValue)
    requires !IsContainer(w, v) && Leaf(w, v).Some?
    ensures Denotes(w, Leaf(w, v).value, v)
  {
    if v.JsString? {
      StreamedMeans(v.chunks);
    }
  }

  lemma {:induction false} ArrayDenotes(w: World, v: JsValue, ancestors: seq<JsValue>, check: bool)
    requires IsContainer(w, v) && w.At(v.id).ArrayObject? && Unfold(w, v, ancestors, check).Some?
    ensures Denotes(w, Unfold(w, v, ancestors, check).value, v)
    decreases Budget(ancestors), 0
  {
    AcceptedItems(w, v, ancestors, check);
    var slots, items := w.At(v.id).slots, Unfold(w, v, ancestors, check).value.items;
    forall k | 0 <= k < |slots| && slots[k].Some?
      ensures Denotes(w, items[k], slots[k].value)
    {
      UnfoldDenotes(w, slots[k].value, ancestors + [v], check);
    }
  }

  lemma {:induction false} ObjectDenotes(w: World, v: JsValue, ancestors: seq<JsValue>, check: bool)
    requires IsContainer(w, v) && w.At(v.id).PlainObject? && Unfold(w, v, ancestors, check).Some?
    ensures Denotes(w, Unfold(w, v, ancestors, check).value, v)
    decreases Budget(ancestors), 0
  {
    hide UnfoldEntries, KeyBefore;
    AcceptedFields(w, v, ancestors, check);
    var entries, fields := w.At(v.id).entries, Unfold(w, v, ancestors, check).value.fields;
    forall e, f | IsFieldOf(w, e, ancestors + [v], check, f)
      ensures IsProperty(w, f, e)
    {
      UnfoldDenotes(w, e.value, ancestors + [v], check);
    }
  }

  // ----- a value has one tree -----

  ghost predicate Ascending(fields: seq<ValueTree.Field>) {
    forall i, j | 0 <= i < j < |fields| :: KeyBefore(fields[i].key, fields[j].key)
  }

  lemma {:induction false} KeyBeforeIsAsymmetric(a: seq<byte>, b: seq<byte>)
    requires KeyBefore(a, b)
    ensures !KeyBefore(b, a)
  {
    if a != [] && a[0] == b[0] {
      KeyBeforeIsAsymmetric(a[1..], b[1..]);
    }
  }

  lemma FirstIsFirst(xs: seq<ValueTree.Field>, ys: seq<ValueTree.Field>)
    requires Ascending(xs) && Ascending(ys) && xs != [] && ys != []
    requires xs[0] in ys && ys[0] in xs
    ensures xs[0] == ys[0]
  {
    hide KeyBefore;
    if xs[0] != ys[0] {
      var i :| 0 <= i < |xs| && xs[i] == ys[0];
      var j :| 0 <= j < |ys| && ys[j] == xs[0];
      assert KeyBefore(xs[0].key, xs[i].key) && KeyBefore(ys[0].key, ys[j].key);
      KeyBeforeIsAsymmetric(xs[0].key, ys[0].key);
    }
  }

  /** Ascending lists with the same fields are the same list. */
  lemma {:induction false} AscendingIsUnique(xs: seq<ValueTree.Field>, ys: seq<ValueTree.Field>)
    requires Ascending(xs) && Ascending(ys)
    requires forall f :: f in xs <==> f in ys
    ensures xs == ys
  {
    hide KeyBefore;
    assert forall k | 0 <= k < |xs| :: xs[k] in ys;
    assert forall k | 0 <= k < |ys| :: ys[k] in xs;
    if xs != [] {
      FirstIsFirst(xs, ys);
      forall f
        ensures f in xs[1..] <==> f in ys[1..]
      {
        RestIsLater(xs, f);
        RestIsLater(ys, f);
      }
      AscendingIsUnique(xs[1..], ys[1..]);
      assert xs == [xs[0]] + xs[1..] && ys == [ys[0]] + ys[1..];
    }
  }

  lemma RestIsLater(xs: seq<ValueTree.Field>, f: ValueTree.Field)
    requires Ascending(xs) && xs != []
    ensures f in xs[1..] <==> f in xs && f != xs[0]
  {
    hide KeyBefore;
    if f in xs[1..] {
      var k :| 0 <= k < |xs| - 1 && xs[1..][k] == f;
      assert KeyBefore(xs[0].key, xs[k + 1].key);
      if f == xs[0] {
        KeyBeforeIsAsymmetric(xs[0].key, f.key);
      }
    }
  }

  lemma SpellingIsUnique(a: seq<byte>, b: seq<byte>, name: seq<CodeUnit>)
    requires Spells(a, name) && Spells(b, name)
    ensures a == b
  {
  }

  ghost predicate NamesAreDistinct(w: World) {
    forall id: nat | w.At(id).PlainObject? :: DistinctNames(w.At(id).entries)
  }

  /** No two trees denote one value, as long as no object has two properties of one name. */
  lemma {:induction false} DenotesOne(w: World, t: ValueTree.Tree, u: ValueTree.Tree, v: JsValue)
    requires NamesAreDistinct(w) && Denotes(w, t, v) && Denotes(w, u, v)
    ensures t == u
    decreases t
  {
    hide KeyBefore;
    match t
    case Array(items) =>
      forall k | 0 <= k < |items|
        ensures items[k] == u.items[k]
      {
        var slot := w.At(v.id).slots[k];
        if slot.Some? {
          DenotesOne(w, items[k], u.items[k], slot.value);
        }
      }
    case Object(fields) =>
      forall f, g, e | f in fields && g in u.fields && IsProperty(w, f, e) && IsProperty(w, g, e)
        ensures f == g
      {
        SpellingIsUnique(f.key, g.key, e.name);
        DenotesOne(w, f.value, g.value, e.value);
      }
      SameFields(w, w.At(v.id).entries, fields, u.fields);
      AscendingIsUnique(fields, u.fields);
    case _ =>
  }

  lemma SameFields(w: World, entries: seq<Entry>, fs: seq<ValueTree.Field>, gs: seq<ValueTree.Field>)
    requires AreProperties(w, fs, entries) && AreProperties(w, gs, entries)
    requires forall f, g, e | f in fs && g in gs && IsProperty(w, f, e) && IsProperty(w, g, e) :: f == g
    ensures forall f :: f in fs <==> f in gs
  {
    hide Denotes, Spells;
    forall f | f in fs
      ensures f in gs
    {
      var e :| e in entries && IsProperty(w, f, e);
      PropertyIsDefined(w, f, e);
      var g :| g in gs && IsProperty(w, g, e);
      assert f == g;
    }
    forall g | g in gs
      ensures g in fs
    {
      var e :| e in entries && IsProperty(w, g, e);
      PropertyIsDefined(w, g, e);
      var f :| f in fs && IsProperty(w, f, e);
      assert f == g;
    }
  }

  lemma PropertyIsDefined(w: World, f: ValueTree.Field, e: Entry)
    requires IsProperty(w, f, e)
    ensures !e.value.JsUndefined?
  {
  }

  /** Of an accepted value, the tree that denotes it is the one that is written. */
  lemma UnfoldIffDenotes(w: World, v: JsValue, t: ValueTree.Tree)
    requires NamesAreDistinct(w) && AllFine(w, 0, v)
    ensures Unfold(w, v, [], true) == Some(t) <==> Denotes(w, t, v)
  {
    hide Unfold, AllFine;
    AcceptedIffFine(w, v);
    UnfoldDenotes(w, v, [], true);
    if Denotes(w, t, v) {
      DenotesOne(w, t, Unfold(w, v, [], true).value, v);
    }
  }
}
