/**
 * JavaScript values as a writer meets them: a graph of objects, which may share parts and may be
 * cyclic, and the CVA1 value that an acceptable one stands for.
 */
module JsValues {
  import opened Options
  import opened Bytes
  import opened Utf8
  import ValueTree
  import opened EntryOrder

  datatype JsObject =
    | ArrayBuffer(data: seq<byte>)
    | ArrayObject(slots: seq<Option<JsValue>>)
    | FunctionObject
    | ExoticObject
    | PlainObject(entries: seq<Entry>)

  /**
   * `placeholder` is the commit-timestamp sentinel. In committed mode it is refused; otherwise it is
   * written as a pending value. An id outside the graph counts as an object that is not plain.
   */
  datatype World = World(graph: map<nat, JsObject>, placeholder: JsValue, committed: bool)
  {
    function At(id: nat): JsObject {
      if id in graph then graph[id] else ExoticObject
    }
  }

  predicate IsSentinel(w: World, v: JsValue) {
    v.JsRef? && v == w.placeholder
  }

  /** An object whose parts are written one nesting level further down. */
  predicate IsContainer(w: World, v: JsValue) {
    v.JsRef? && !IsSentinel(w, v) && !w.At(v.id).ArrayBuffer?
  }

  /** A value that is written without looking at anything nested in it. */
  function Leaf(w: World, v: JsValue): Option<ValueTree.Tree>
    requires !IsContainer(w, v)
  {
    match v
    case JsUndefined => None
    case JsSymbol => None
    case JsNull => Some(ValueTree.Null)
    case JsBoolean(flag) => Some(ValueTree.Bool(flag))
    case JsNumber(bits) => Some(ValueTree.Number(bits))
    case JsBigInt(value) =>
      if -0x8000_0000_0000_0000 <= value < 0x8000_0000_0000_0000 then Some(ValueTree.Integer(value)) else None
    case JsString(chunks) =>
      var utf8 := Streamed(chunks);
      if utf8.None? then None else Some(ValueTree.Text(utf8.value))
    case JsRef(id) =>
      if IsSentinel(w, v) then (if w.committed then None else Some(ValueTree.Pending))
      else Some(ValueTree.Buffer(w.At(id).data))
  }

  predicate ValidName(name: seq<CodeUnit>) {
    && |name| <= 1024
    && (name != [] ==> name[0] != 0x24)
    && forall i | 0 <= i < |name| :: 0x20 <= name[i] <= 0x7E
  }

  /** A valid name is printable ASCII, one byte a unit. */
  function NameBytes(name: seq<CodeUnit>): seq<byte>
    requires ValidName(name)
  {
    seq(|name|, i requires 0 <= i < |name| => name[i])
  }

  /**
   * The value that v stands for, or None if it is refused. `ancestors` are the containers around v,
   * so their number is the nesting level; `check` says whether meeting one of them again is refused.
   */
  function Unfold(w: World, v: JsValue, ancestors: seq<JsValue>, check: bool): Option<ValueTree.Tree>
    decreases Budget(ancestors), 0, 0
  {
    if !IsContainer(w, v) then Leaf(w, v)
    else if (check && v in ancestors) || |ancestors| >= ValueTree.MAX_NESTING then None
    else
      match w.At(v.id)
      case ArrayObject(slots) =>
        if |slots| > ValueTree.MAX_ARRAY_LENGTH then None
        else
          var items := UnfoldSlots(w, slots, ancestors + [v], check);
          if items.None? then None else Some(ValueTree.Array(items.value))
      case PlainObject(entries) =>
        var fields := UnfoldEntries(w, Sorted(entries), ancestors + [v], check);
        if fields.None? || |fields.value| > ValueTree.MAX_OBJECT_FIELDS then None
        else Some(ValueTree.Object(fields.value))
      case _ => None
  }

  ghost function Budget(ancestors: seq<JsValue>): nat {
    if |ancestors| < ValueTree.MAX_NESTING then ValueTree.MAX_NESTING - |ancestors| else 0
  }

  /** A hole becomes null. */
  function UnfoldSlot(w: World, slot: Option<JsValue>, ancestors: seq<JsValue>, check: bool): Option<ValueTree.Tree>
    decreases Budget(ancestors), 1, 0
  {
    if slot.None? then Some(ValueTree.Null) else Unfold(w, slot.value, ancestors, check)
  }

  function UnfoldSlots(w: World, slots: seq<Option<JsValue>>, ancestors: seq<JsValue>, check: bool)
    : (r: Option<seq<ValueTree.Tree>>)
    ensures r.Some? ==> |r.value| == |slots|
    decreases Budget(ancestors), 2, |slots|
  {
    if slots == [] then Some([])
    else
      var item := UnfoldSlot(w, slots[0], ancestors, check);
      if item.None? then None
      else
        var items := UnfoldSlots(w, slots[1..], ancestors, check);
        if items.None? then None else Some([item.value] + items.value)
  }

  /** One field, or none for an undefined property. */
  function UnfoldEntry(w: World, entry: Entry, ancestors: seq<JsValue>, check: bool)
    : (r: Option<seq<ValueTree.Field>>)
    ensures r.Some? ==> |r.value| <= 1
    decreases Budget(ancestors), 1, 0
  {
    if entry.value.JsUndefined? then Some([])
    else if !ValidName(entry.name) then None
    else
      var value := Unfold(w, entry.value, ancestors, check);
      if value.None? then None else Some([ValueTree.Field(NameBytes(entry.name), value.value)])
  }

  function UnfoldEntries(w: World, entries: seq<Entry>, ancestors: seq<JsValue>, check: bool)
    : Option<seq<ValueTree.Field>>
    decreases Budget(ancestors), 2, |entries|
  {
    if entries == [] then Some([])
    else
      var field := UnfoldEntry(w, entries[0], ancestors, check);
      if field.None? then None
      else
        var fields := UnfoldEntries(w, entries[1..], ancestors, check);
        if fields.None? then None else Some(field.value + fields.value)
  }

  // ----- accepted values keep to the limits that a reader enforces -----

  lemma {:induction false} UnfoldFits(w: World, v: JsValue, ancestors: seq<JsValue>, check: bool)
    ensures var t := Unfold(w, v, ancestors, check); t.Some? ==> ValueTree.Fits(t.value, |ancestors|)
    decreases Budget(ancestors), 0, 0
  {
    if IsContainer(w, v) && |ancestors| < ValueTree.MAX_NESTING {
      match w.At(v.id)
      case ArrayObject(slots) => UnfoldSlotsFit(w, slots, ancestors + [v], check);
      case PlainObject(entries) => UnfoldEntriesFit(w, Sorted(entries), ancestors + [v], check);
      case _ =>
    }
  }

  lemma {:induction false} UnfoldSlotsFit(w: World, slots: seq<Option<JsValue>>, ancestors: seq<JsValue>, check: bool)
    ensures var items := UnfoldSlots(w, slots, ancestors, check);
            items.Some? ==> forall i | i in items.value :: ValueTree.Fits(i, |ancestors|)
    decreases Budget(ancestors), 2, |slots|
  {
    hide Unfold;
    if slots != [] {
      if slots[0].Some? {
        UnfoldFits(w, slots[0].value, ancestors, check);
      }
      UnfoldSlotsFit(w, slots[1..], ancestors, check);
    }
  }

  lemma {:induction false} UnfoldEntriesFit(w: World, entries: seq<Entry>, ancestors: seq<JsValue>, check: bool)
    ensures var fields := UnfoldEntries(w, entries, ancestors, check);
            fields.Some? ==> forall f | f in fields.value :: ValueTree.Fits(f.value, |ancestors|)
    decreases Budget(ancestors), 2, |entries|
  {
    hide Unfold;
    if entries != [] {
      UnfoldFits(w, entries[0].value, ancestors, check);
      UnfoldEntriesFit(w, entries[1..], ancestors, check);
    }
  }

  // ----- cycles -----

  /** c is written as a part of the container v. */
  ghost predicate Child(w: World, v: JsValue, c: JsValue) {
    && IsContainer(w, v)
    && match w.At(v.id)
       case ArrayObject(slots) => Some(c) in slots
       case PlainObject(entries) => !c.JsUndefined? && exists e | e in entries :: e.value == c
       case _ => false
  }

  /** Each value is a part of the one before it. */
  ghost predicate Descent(w: World, path: seq<JsValue>) {
    forall i | 0 <= i < |path| - 1 :: Child(w, path[i], path[i + 1])
  }

  lemma DescentSlice(w: World, path: seq<JsValue>, from: nat, to: nat)
    requires Descent(w, path) && from <= to <= |path|
    ensures Descent(w, path[from..to])
  {
    var part := path[from..to];
    forall i | 0 <= i < |part| - 1
      ensures Child(w, part[i], part[i + 1])
    {
      assert Child(w, path[from + i], path[from + i + 1]);
    }
  }

  lemma {:induction false} SlotsUnfold(w: World, slots: seq<Option<JsValue>>, ancestors: seq<JsValue>, check: bool,
                                       slot: Option<JsValue>)
    requires UnfoldSlots(w, slots, ancestors, check).Some? && slot in slots
    ensures UnfoldSlot(w, slot, ancestors, check).Some?
    decreases |slots|
  {
    if slot != slots[0] {
      SlotsUnfold(w, slots[1..], ancestors, check, slot);
    }
  }

  lemma {:induction false} EntriesUnfold(w: World, entries: seq<Entry>, ancestors: seq<JsValue>, check: bool,
                                         entry: Entry)
    requires UnfoldEntries(w, entries, ancestors, check).Some? && entry in entries
    ensures UnfoldEntry(w, entry, ancestors, check).Some?
    decreases |entries|
  {
    if entry != entries[0] {
      EntriesUnfold(w, entries[1..], ancestors, check, entry);
    }
  }

  lemma ChildUnfolds(w: World, v: JsValue, c: JsValue, ancestors: seq<JsValue>, check: bool)
    requires Unfold(w, v, ancestors, check).Some? && Child(w, v, c)
    ensures |ancestors| < ValueTree.MAX_NESTING
    ensures Unfold(w, c, ancestors + [v], check).Some?
  {
    match w.At(v.id)
    case ArrayObject(slots) => SlotsUnfold(w, slots, ancestors + [v], check, Some(c));
    case PlainObject(entries) =>
      var e :| e in entries && e.value == c;
      SortedIsPermutation(entries);
      assert e in multiset(entries);
      EntriesUnfold(w, Sorted(entries), ancestors + [v], check, e);
  }

  lemma {:induction false} DescentUnfolds(w: World, path: seq<JsValue>, ancestors: seq<JsValue>, check: bool)
    requires path != [] && Descent(w, path) && Unfold(w, path[0], ancestors, check).Some?
    ensures |ancestors| + |path| <= ValueTree.MAX_NESTING + 1 || |path| == 1
    ensures Unfold(w, path[|path| - 1], ancestors + path[..|path| - 1], check).Some?
    decreases |path|
  {
    if |path| > 1 {
      assert Child(w, path[0], path[1]);
      ChildUnfolds(w, path[0], path[1], ancestors, check);
      var rest := path[1..];
      DescentSlice(w, path, 1, |path|);
      DescentUnfolds(w, rest, ancestors + [path[0]], check);
      assert ancestors + [path[0]] + rest[..|rest| - 1] == ancestors + path[..|path| - 1];
    } else {
      assert ancestors + path[..0] == ancestors;
    }
  }

  /** Without the check, a container inside itself runs into the nesting limit. */
  lemma {:induction false} LoopIsRefused(w: World, path: seq<JsValue>, ancestors: seq<JsValue>)
    requires |path| >= 2 && Descent(w, path) && path[0] == path[|path| - 1]
    ensures Unfold(w, path[0], ancestors, false).None?
    decreases Budget(ancestors)
  {
    if Unfold(w, path[0], ancestors, false).Some? {
      assert Child(w, path[0], path[1]);
      ChildUnfolds(w, path[0], path[1], ancestors, false);
      DescentUnfolds(w, path, ancestors, false);
      LoopIsRefused(w, path, ancestors + path[..|path| - 1]);
    }
  }

  /**
   * The ancestor check never changes which values are accepted or what they stand for: it only finds
   * a cycle before the nesting limit does. In particular shared parts that form no cycle are accepted.
   */
  lemma {:induction false} CheckIsRedundant(w: World, v: JsValue, ancestors: seq<JsValue>)
    requires Descent(w, ancestors + [v])
    ensures Unfold(w, v, ancestors, true) == Unfold(w, v, ancestors, false)
    decreases Budget(ancestors), 0, 0
  {
    hide UnfoldSlots, UnfoldEntries;
    if IsContainer(w, v) && |ancestors| < ValueTree.MAX_NESTING {
      var path := ancestors + [v];
      if v in ancestors {
        var i :| 0 <= i < |ancestors| && ancestors[i] == v;
        var loop := path[i..];
        DescentSlice(w, path, i, |path|);
        LoopIsRefused(w, loop, ancestors);
      } else {
        match w.At(v.id)
        case ArrayObject(slots) =>
          CheckIsRedundantSlots(w, v, slots, ancestors);
        case PlainObject(entries) =>
          SortedIsPermutation(entries);
          forall e | e in Sorted(entries) && !e.value.JsUndefined?
            ensures Child(w, v, e.value)
          {
            assert e in multiset(entries);
          }
          CheckIsRedundantEntries(w, v, Sorted(entries), ancestors);
        case _ =>
      }
    }
  }

  lemma DescentSnoc(w: World, ancestors: seq<JsValue>, v: JsValue, c: JsValue)
    requires Descent(w, ancestors + [v]) && Child(w, v, c)
    ensures Descent(w, ancestors + [v] + [c])
  {
    var path, longer := ancestors + [v], ancestors + [v] + [c];
    forall i | 0 <= i < |longer| - 1
      ensures Child(w, longer[i], longer[i + 1])
    {
      if i < |path| - 1 {
        assert Child(w, path[i], path[i + 1]);
      }
    }
  }

  lemma {:induction false} CheckIsRedundantSlots(w: World, v: JsValue, slots: seq<Option<JsValue>>,
                                                 ancestors: seq<JsValue>)
    requires Descent(w, ancestors + [v]) && |ancestors| < ValueTree.MAX_NESTING
    requires forall c | Some(c) in slots :: Child(w, v, c)
    ensures UnfoldSlots(w, slots, ancestors + [v], true) == UnfoldSlots(w, slots, ancestors + [v], false)
    decreases Budget(ancestors + [v]), 2, |slots|
  {
    hide Unfold;
    if slots != [] {
      if slots[0].Some? {
        DescentSnoc(w, ancestors, v, slots[0].value);
        CheckIsRedundant(w, slots[0].value, ancestors + [v]);
      }
      CheckIsRedundantSlots(w, v, slots[1..], ancestors);
    }
  }

  lemma {:induction false} CheckIsRedundantEntries(w: World, v: JsValue, entries: seq<Entry>, ancestors: seq<JsValue>)
    requires Descent(w, ancestors + [v]) && |ancestors| < ValueTree.MAX_NESTING
    requires forall e | e in entries && !e.value.JsUndefined? :: Child(w, v, e.value)
    ensures UnfoldEntries(w, entries, ancestors + [v], true) == UnfoldEntries(w, entries, ancestors + [v], false)
    decreases Budget(ancestors + [v]), 2, |entries|
  {
    hide Unfold;
    if entries != [] {
      if !entries[0].value.JsUndefined? {
        DescentSnoc(w, ancestors, v, entries[0].value);
        CheckIsRedundant(w, entries[0].value, ancestors + [v]);
      }
      CheckIsRedundantEntries(w, v, entries[1..], ancestors);
    }
  }

  /** An accepted value has no cycle below it, and nothing in it is nested too deeply. */
  lemma AcceptedIsAcyclic(w: World, path: seq<JsValue>, check: bool)
    requires path != [] && Descent(w, path) && Unfold(w, path[0], [], check).Some?
    ensures |path| <= ValueTree.MAX_NESTING + 1
    ensures forall i, j | 0 <= i < j < |path| :: path[i] != path[j]
  {
    assert Descent(w, [] + [path[0]]);
    CheckIsRedundant(w, path[0], []);
    DescentUnfolds(w, path, [], false);
    forall i, j | 0 <= i < j < |path|
      ensures path[i] != path[j]
    {
      var front, loop := path[..i + 1], path[i..j + 1];
      DescentSlice(w, path, 0, i + 1);
      DescentSlice(w, path, i, j + 1);
      DescentUnfolds(w, front, [], false);
      if path[i] == path[j] {
        LoopIsRefused(w, loop, [] + front[..i]);
      }
    }
  }

  // ----- the order in which properties are enumerated -----

  /** The same objects, up to the order of their properties. */
  ghost predicate SameUpToOrder(w: World, w': World) {
    && w.placeholder == w'.placeholder && w.committed == w'.committed
    && forall id: nat :: SameObject(w.At(id), w'.At(id))
  }

  ghost predicate SameObject(o: JsObject, o': JsObject) {
    if o.PlainObject? && o'.PlainObject? then
      multiset(o.entries) == multiset(o'.entries) && DistinctNames(o.entries) && DistinctNames(o'.entries)
    else o == o'
  }

  lemma {:induction false} OrderIsIrrelevant(w: World, w': World, v: JsValue, ancestors: seq<JsValue>, check: bool)
    requires SameUpToOrder(w, w')
    ensures Unfold(w, v, ancestors, check) == Unfold(w', v, ancestors, check)
    decreases Budget(ancestors), 0, 0
  {
    hide UnfoldSlots, UnfoldEntries;
    if v.JsRef? {
      var o, o' := w.At(v.id), w'.At(v.id);
      assert SameObject(o, o');
      if IsContainer(w, v) && |ancestors| < ValueTree.MAX_NESTING {
        match o
        case ArrayObject(slots) => OrderIsIrrelevantSlots(w, w', slots, ancestors + [v], check);
        case PlainObject(entries) =>
          SortedIsUnique(entries, o'.entries);
          OrderIsIrrelevantEntries(w, w', Sorted(entries), ancestors + [v], check);
        case _ =>
      }
    }
  }

  lemma {:induction false} OrderIsIrrelevantSlots(w: World, w': World, slots: seq<Option<JsValue>>,
                                                  ancestors: seq<JsValue>, check: bool)
    requires SameUpToOrder(w, w')
    ensures UnfoldSlots(w, slots, ancestors, check) == UnfoldSlots(w', slots, ancestors, check)
    decreases Budget(ancestors), 2, |slots|
  {
    hide Unfold;
    if slots != [] {
      if slots[0].Some? {
        OrderIsIrrelevant(w, w', slots[0].value, ancestors, check);
      }
      OrderIsIrrelevantSlots(w, w', slots[1..], ancestors, check);
    }
  }

  lemma {:induction false} OrderIsIrrelevantEntries(w: World, w': World, entries: seq<Entry>,
                                                    ancestors: seq<JsValue>, check: bool)
    requires SameUpToOrder(w, w')
    ensures UnfoldEntries(w, entries, ancestors, check) == UnfoldEntries(w', entries, ancestors, check)
    decreases Budget(ancestors), 2, |entries|
  {
    hide Unfold;
    if entries != [] {
      OrderIsIrrelevant(w, w', entries[0].value, ancestors, check);
      OrderIsIrrelevantEntries(w, w', entries[1..], ancestors, check);
    }
  }
}
