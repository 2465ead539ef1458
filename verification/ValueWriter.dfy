/**
 * The CVA1 writer: it appends to one frame, patches lengths in once they are known, and keeps the
 * containers around the value being written in a fixed stack.
 */
module ValueWriter {
  import opened Options
  import opened Bytes
  import opened Utf8
  import opened ValueTree
  import opened EntryOrder
  import opened JsValues
  import ValueGrammar
  import Acceptance
  import Denotation

  /** A string: a zero length, the bytes as the engine delivers them, then the length patched in. */
  method PutText(frame: Frame, chunks: seq<Chunk>) returns (ok: bool)
    requires |frame.bytes| <= MAX_FRAME_BYTES
    modifies frame
    ensures |frame.bytes| <= MAX_FRAME_BYTES
    ensures var utf8 := Streamed(chunks);
            && (ok <==> utf8.Some? && |old(frame.bytes)| + 4 + |utf8.value| <= MAX_FRAME_BYTES)
            && (ok ==> frame.bytes == old(frame.bytes) + EncodeSlice(utf8.value))
  {
    hide Streamed;
    var lengthOffset := |frame.bytes|;
    ok := frame.PutU32(0);
    if !ok {
      return;
    }
    var start := |frame.bytes|;
    ok := AppendHermesUtf8(frame, chunks);
    if !ok {
      return;
    }
    Patched(old(frame.bytes), U32(0), Streamed(chunks).value);
    frame.PatchU32(lengthOffset, |frame.bytes| - start);
  }

  class ValueAbiWriter {
    const world: World
    const frame: Frame
    const ancestors: array<JsValue>
    var ancestorCount: nat

    constructor (world: World)
      ensures Valid() && this.world == world && fresh(frame) && fresh(ancestors)
      ensures frame.bytes == [] && ancestorCount == 0
    {
      this.world := world;
      frame := new Frame();
      ancestors := new JsValue[MAX_NESTING](_ => JsUndefined);
      ancestorCount := 0;
    }

    ghost predicate Valid()
      reads this, frame
    {
      ancestors.Length == MAX_NESTING && ancestorCount <= MAX_NESTING && |frame.bytes| <= MAX_FRAME_BYTES
    }

    /** The containers around the value being written, outermost first. */
    ghost function Path(): seq<JsValue>
      requires Valid()
      reads this, frame, ancestors
    {
      ancestors[..ancestorCount]
    }

    /** A whole frame, or nothing if the value is refused or its frame would be too long. */
    method EncodeFrame(input: JsValue) returns (r: Option<seq<byte>>)
      requires Valid() && frame.bytes == [] && ancestorCount == 0
      modifies this, frame, ancestors
      ensures var t := Unfold(world, input, [], true);
              r == if t.Some? && 4 + |Encode(t.value)| <= MAX_FRAME_BYTES
                   then Some(ValueGrammar.MAGIC + Encode(t.value)) else None
      ensures r.Some? ==> exists t :: Denotation.Denotes(world, t, input) && r.value == ValueGrammar.MAGIC + Encode(t)
      ensures r.None? ==> !Acceptance.AllFine(world, 0, input)
                          || exists t :: Denotation.Denotes(world, t, input) && 4 + |Encode(t)| > MAX_FRAME_BYTES
    {
      hide Unfold, Denotation.Denotes, Acceptance.AllFine;
      var ok := frame.Append(ValueGrammar.MAGIC);
      assert frame.bytes == ValueGrammar.MAGIC && Path() == [];
      ok := Value(input, 0);
      Acceptance.AcceptedIffFine(world, input);
      if Unfold(world, input, [], true).Some? {
        Denotation.UnfoldDenotes(world, input, [], true);
      }
      return if ok then Some(frame.bytes) else None;
    }

    /** A property name: its length, then one byte for each unit. */
    method FieldName(name: seq<CodeUnit>) returns (ok: bool)
      requires Valid()
      modifies frame
      ensures Valid()
      ensures ok <==> ValidName(name) && |old(frame.bytes)| + 4 + |name| <= MAX_FRAME_BYTES
      ensures ok ==> frame.bytes == old(frame.bytes) + EncodeSlice(NameBytes(name))
    {
      if |name| > 1024 || (name != [] && name[0] == 0x24) {
        return false;
      }
      var i := 0;
      while i < |name|
        invariant 0 <= i <= |name|
        invariant forall k | 0 <= k < i :: 0x20 <= name[k] <= 0x7E
      {
        if name[i] < 0x20 || name[i] > 0x7E {
          return false;
        }
        i := i + 1;
      }
      ok := frame.PutU32(|name|);
      if !ok {
        return;
      }
      ghost var start := frame.bytes;
      i := 0;
      while i < |name|
        invariant 0 <= i <= |name| && |frame.bytes| <= MAX_FRAME_BYTES
        invariant frame.bytes == start + NameBytes(name)[..i]
      {
        ok := frame.PutByte(name[i]);
        if !ok {
          return;
        }
        i := i + 1;
      }
      ok := true;
      assert NameBytes(name)[..i] == NameBytes(name);
    }

    method Value(input: JsValue, nesting: nat) returns (ok: bool)
      requires Valid() && ancestorCount == nesting
      modifies this, frame, ancestors
      ensures Valid()
      ensures Written(ok, old(frame.bytes), EncodeOption(Unfold(world, input, old(Path()), true)), frame.bytes)
      ensures ok ==> ancestorCount == nesting && Path() == old(Path())
      decreases MAX_NESTING - nesting, 1
    {
      hide UnfoldSlots, UnfoldEntries, Streamed;
      if input.JsRef? && input == world.placeholder {
        if world.committed {
          return false;
        }
        ok := frame.PutByte(9);
        return;
      }
      match input
      case JsNull => ok := frame.PutByte(0);
      case JsBoolean(flag) => ok := frame.PutByte(if flag then 2 else 1);
      case JsNumber(bits) => ok := PutWord(3, bits);
      case JsBigInt(value) =>
        if value < -0x8000_0000_0000_0000 || value >= 0x8000_0000_0000_0000 {
          return false;
        }
        ok := PutWord(4, WordOf(value));
      case JsString(chunks) =>
        ok := frame.PutByte(5);
        if ok {
          ok := PutText(frame, chunks);
        }
        if Streamed(chunks).Some? {
          TwoParts(old(frame.bytes), [5], EncodeSlice(Streamed(chunks).value));
        }
      case JsRef(id) =>
        match world.At(id) {
          case ArrayBuffer(data) => ok := PutBuffer(data);
          case _ => ok := PutContainer(input, nesting);
        }
      case _ => ok := false;
    }

    method PutWord(tag: byte, word: Word64) returns (ok: bool)
      requires Valid()
      modifies frame
      ensures Valid()
      ensures Written(ok, old(frame.bytes), Some([tag] + U64(word)), frame.bytes)
    {
      TwoParts(frame.bytes, [tag], U64(word));
      ok := frame.PutByte(tag);
      if ok {
        ok := frame.Append(U64(word));
      }
    }

    method PutBuffer(data: seq<byte>) returns (ok: bool)
      requires Valid()
      modifies frame
      ensures Valid()
      ensures Written(ok, old(frame.bytes), Some([6] + EncodeSlice(data)), frame.bytes)
    {
      TwoParts(frame.bytes, [6], EncodeSlice(data));
      TwoParts(frame.bytes + [6], U32(|data|), data);
      ok := frame.PutByte(6);
      if ok {
        ok := frame.PutU32(|data|);
        if ok {
          ok := frame.Append(data);
        }
      }
    }

    /** The ancestor check, the nesting limit, and the push and pop around the contents. */
    method PutContainer(input: JsValue, nesting: nat) returns (ok: bool)
      requires Valid() && ancestorCount == nesting && IsContainer(world, input)
      modifies this, frame, ancestors
      ensures Valid()
      ensures Written(ok, old(frame.bytes), EncodeOption(Unfold(world, input, old(Path()), true)), frame.bytes)
      ensures ok ==> ancestorCount == nesting && Path() == old(Path())
      decreases MAX_NESTING - nesting, 0
    {
      hide UnfoldSlots, UnfoldEntries;
      var index := 0;
      while index < ancestorCount
        invariant 0 <= index <= ancestorCount
        invariant input !in ancestors[..index]
      {
        if ancestors[index] == input {
          assert input in Path();
          return false;
        }
        index := index + 1;
      }
      if nesting >= MAX_NESTING {
        return false;
      }
      ghost var path := Path();
      ancestors[ancestorCount] := input;
      ancestorCount := ancestorCount + 1;
      assert Path() == path + [input];
      match world.At(input.id) {
        case ArrayObject(slots) => ok := PutArray(slots, nesting + 1);
        case PlainObject(entries) => ok := PutObject(entries, nesting + 1);
        case _ => ok := false;
      }
      if ok {
        ghost var below := Path();
        ancestorCount := ancestorCount - 1;
        assert Path() == below[..nesting] == path;
      }
    }

    method PutArray(slots: seq<Option<JsValue>>, nesting: nat) returns (ok: bool)
      requires Valid() && ancestorCount == nesting > 0
      modifies this, frame, ancestors
      ensures Valid()
      ensures Written(ok, old(frame.bytes), EncodeArray(slots, UnfoldSlots(world, slots, old(Path()), true)),
                      frame.bytes)
      ensures ok ==> ancestorCount == nesting && Path() == old(Path())
      decreases MAX_NESTING - nesting, 2
    {
      hide UnfoldSlots, Encode, EncodeItems, Unfold;
      ghost var path := Path();
      ghost var whole := UnfoldSlots(world, slots, path, true);
      if |slots| > MAX_ARRAY_LENGTH {
        return false;
      }
      ArrayParts(frame.bytes, slots, whole);
      ok := frame.PutByte(7);
      if !ok {
        return;
      }
      ok := frame.PutU32(|slots|);
      if !ok {
        return;
      }
      ghost var start := frame.bytes;
      ghost var items: seq<Tree> := [];
      SlotsStart(world, slots, path);
      assert start + [] == start;
      var index := 0;
      while index < |slots|
        invariant Valid() && 0 <= index <= |slots| && ancestorCount == nesting && Path() == path
        invariant whole == SlotsAfter(items, UnfoldSlots(world, slots[index..], path, true))
        invariant frame.bytes == start + EncodeItems(items)
      {
        SlotsStep(world, slots, index, path, items);
        ghost var before := frame.bytes;
        if slots[index].None? {
          ok := frame.PutByte(0);
          EncodeNull();
        } else {
          ok := Value(slots[index].value, nesting);
        }
        if !ok {
          return;
        }
        ghost var item := UnfoldSlot(world, slots[index], path, true).value;
        assert frame.bytes == start + (EncodeItems(items) + Encode(item));
        items := items + [item];
        index := index + 1;
      }
      ok := true;
      SlotsEnd(world, slots, path, items);
    }

    method PutObject(entries: seq<Entry>, nesting: nat) returns (ok: bool)
      requires Valid() && ancestorCount == nesting > 0
      modifies this, frame, ancestors
      ensures Valid()
      ensures Written(ok, old(frame.bytes), EncodeObject(UnfoldEntries(world, Sorted(entries), old(Path()), true)),
                      frame.bytes)
      ensures ok ==> ancestorCount == nesting && Path() == old(Path())
      decreases MAX_NESTING - nesting, 4
    {
      hide UnfoldEntries, EncodeFields, Encode, Sorted, U32;
      ghost var path := Path();
      var sorted := Sorted(entries);
      ObjectParts(frame.bytes, UnfoldEntries(world, sorted, path, true));
      ok := frame.PutByte(8);
      if !ok {
        return;
      }
      var countOffset := |frame.bytes|;
      ok := frame.PutU32(0);
      if !ok {
        return;
      }
      assert Path() == path;
      var count;
      ghost var fields;
      ok, count, fields := PutFields(sorted, nesting);
      if ok {
        CountPatched(old(frame.bytes), fields);
        frame.PatchU32(countOffset, count);
      }
    }

    /** The properties that are not undefined, in order, and how many there were. */
    method PutFields(sorted: seq<Entry>, nesting: nat) returns (ok: bool, count: nat, ghost fields: seq<Field>)
      requires Valid() && ancestorCount == nesting > 0
      modifies this, frame, ancestors
      ensures Valid()
      ensures var whole := UnfoldEntries(world, sorted, old(Path()), true);
              && (ok ==> whole == Some(fields) && count == |fields| <= MAX_OBJECT_FIELDS)
              && (ok ==> frame.bytes == old(frame.bytes) + EncodeFields(fields))
              && (!ok ==>
                    || whole.None?
                    || |whole.value| > MAX_OBJECT_FIELDS
                    || |old(frame.bytes)| + |EncodeFields(whole.value)| > MAX_FRAME_BYTES)
      ensures ok ==> ancestorCount == nesting && Path() == old(Path())
      decreases MAX_NESTING - nesting, 3
    {
      hide UnfoldEntries, UnfoldEntry, EncodeField, EncodeFields, Encode, EntriesAfter;
      ghost var path := Path();
      ghost var whole := UnfoldEntries(world, sorted, path, true);
      ghost var start := frame.bytes;
      fields, count := [], 0;
      EntriesStart(world, sorted, path);
      assert start + [] == start;
      var index := 0;
      while index < |sorted|
        invariant Valid() && 0 <= index <= |sorted| && ancestorCount == nesting && Path() == path
        invariant whole == EntriesAfter(fields, UnfoldEntries(world, sorted[index..], path, true))
        invariant count == |fields| <= MAX_OBJECT_FIELDS
        invariant frame.bytes == start + EncodeFields(fields)
      {
        EntriesStep(world, sorted, index, path, fields);
        var entry := sorted[index];
        if !entry.value.JsUndefined? {
          if count >= MAX_OBJECT_FIELDS {
            return false, count, fields;
          }
          ok := PutField(entry, nesting);
          if !ok {
            return;
          }
          ghost var field := UnfoldEntry(world, entry, path, true).value[0];
          assert frame.bytes == start + (EncodeFields(fields) + EncodeField(field));
          fields := fields + [field];
          count := count + 1;
        }
        index := index + 1;
      }
      EntriesEnd(world, sorted, path, fields);
      ok := true;
    }

    /** The name and the value of a property that is not undefined. */
    method PutField(entry: Entry, nesting: nat) returns (ok: bool)
      requires Valid() && ancestorCount == nesting > 0 && !entry.value.JsUndefined?
      modifies this, frame, ancestors
      ensures Valid()
      ensures Written(ok, old(frame.bytes), EncodeFieldOption(UnfoldEntry(world, entry, old(Path()), true)),
                      frame.bytes)
      ensures ok ==> ancestorCount == nesting && Path() == old(Path())
      decreases MAX_NESTING - nesting, 2
    {
      hide Unfold, Encode;
      ghost var path := Path();
      ok := FieldName(entry.name);
      if !ok {
        return;
      }
      assert Path() == path;
      ghost var t := Unfold(world, entry.value, path, true);
      if t.Some? {
        TwoParts(old(frame.bytes), EncodeSlice(NameBytes(entry.name)), Encode(t.value));
      }
      ok := Value(entry.value, nesting);
    }
  }

  /** `ok` says whether the bytes were accepted and fit; if so they were appended. */
  ghost predicate Written(ok: bool, before: seq<byte>, bytes: Option<seq<byte>>, after: seq<byte>) {
    && (ok <==> bytes.Some? && |before| + |bytes.value| <= MAX_FRAME_BYTES)
    && (ok ==> after == before + bytes.value)
  }

  ghost function EncodeOption(t: Option<Tree>): Option<seq<byte>> {
    if t.None? then None else Some(Encode(t.value))
  }

  ghost function EncodeArray(slots: seq<Option<JsValue>>, items: Option<seq<Tree>>): Option<seq<byte>> {
    if |slots| > MAX_ARRAY_LENGTH || items.None? then None else Some(Encode(Array(items.value)))
  }

  ghost function EncodeObject(fields: Option<seq<Field>>): Option<seq<byte>> {
    if fields.None? || |fields.value| > MAX_OBJECT_FIELDS then None else Some(Encode(Object(fields.value)))
  }

  ghost function EncodeFieldOption(fields: Option<seq<Field>>): Option<seq<byte>> {
    if fields.None? || fields.value == [] then None else Some(EncodeField(fields.value[0]))
  }

  lemma TwoParts(before: seq<byte>, a: seq<byte>, b: seq<byte>)
    ensures (before + a) + b == before + (a + b)
  {
  }

  lemma EncodeNull()
    ensures Encode(Null) == [0]
  {
  }

  lemma Patched(before: seq<byte>, length: seq<byte>, data: seq<byte>)
    requires |length| == 4
    ensures var b := (before + length) + data;
            b[..|before|] + U32(|data|) + b[|before| + 4..] == before + EncodeSlice(data)
  {
    var b := (before + length) + data;
    assert b[..|before|] == before && b[|before| + 4..] == data;
  }

  lemma ArrayParts(before: seq<byte>, slots: seq<Option<JsValue>>, items: Option<seq<Tree>>)
    requires |slots| <= MAX_ARRAY_LENGTH && (items.Some? ==> |items.value| == |slots|)
    ensures var all := EncodeArray(slots, items);
            all.Some? ==>
              && |all.value| == 5 + |EncodeItems(items.value)|
              && before + all.value == ((before + [7]) + U32(|slots|)) + EncodeItems(items.value)
  {
    if items.Some? {
      var body := EncodeItems(items.value);
      assert before + ([7] + U32(|slots|) + body) == ((before + [7]) + U32(|slots|)) + body;
    }
  }

  lemma ObjectParts(before: seq<byte>, fields: Option<seq<Field>>)
    ensures var all := EncodeObject(fields);
            all.Some? ==> |all.value| == 5 + |EncodeFields(fields.value)|
  {
  }

  /** Patching the count in completes the frame. */
  lemma CountPatched(before: seq<byte>, fields: seq<Field>)
    ensures var b := ((before + [8]) + U32(0)) + EncodeFields(fields);
            var at := |before + [8]|;
            b[..at] + U32(|fields|) + b[at + 4..] == before + Encode(Object(fields))
  {
    hide EncodeFields, U32;
    WordReplaced(before, U32(0), U32(|fields|), EncodeFields(fields));
  }

  lemma WordReplaced(before: seq<byte>, old': seq<byte>, new': seq<byte>, body: seq<byte>)
    requires |old'| == |new'| == 4
    ensures var b := ((before + [8]) + old') + body;
            var at := |before + [8]|;
            b[..at] + new' + b[at + 4..] == before + ([8] + new' + body)
  {
    var b := ((before + [8]) + old') + body;
    var at := |before + [8]|;
    assert b[..at] == before + [8] && b[at + 4..] == body;
  }

  // ----- loops over slots and entries -----

  ghost function SlotsAfter(items: seq<Tree>, rest: Option<seq<Tree>>): Option<seq<Tree>> {
    if rest.None? then None else Some(items + rest.value)
  }

  lemma SlotsStart(w: World, slots: seq<Option<JsValue>>, path: seq<JsValue>)
    ensures UnfoldSlots(w, slots, path, true) == SlotsAfter([], UnfoldSlots(w, slots[0..], path, true))
    ensures EncodeItems([]) == []
  {
    assert slots[0..] == slots;
    var whole := UnfoldSlots(w, slots, path, true);
    if whole.Some? {
      assert [] + whole.value == whole.value;
    }
  }

  lemma SlotsStep(w: World, slots: seq<Option<JsValue>>, index: nat, path: seq<JsValue>, items: seq<Tree>)
    requires index < |slots|
    ensures var rest := UnfoldSlots(w, slots[index..], path, true);
            var item := UnfoldSlot(w, slots[index], path, true);
            var later := UnfoldSlots(w, slots[index + 1..], path, true);
            && (item.None? ==> SlotsAfter(items, rest).None?)
            && (item.Some? ==>
                  && SlotsAfter(items, rest) == SlotsAfter(items + [item.value], later)
                  && EncodeItems(items + [item.value]) == EncodeItems(items) + Encode(item.value)
                  && (rest.Some? ==>
                        |EncodeItems(items + rest.value)| >= |EncodeItems(items)| + |Encode(item.value)|))
  {
    hide Unfold, Encode, UnfoldSlot;
    var here := slots[index..];
    assert here[0] == slots[index] && here[1..] == slots[index + 1..];
    var item := UnfoldSlot(w, slots[index], path, true);
    var later := UnfoldSlots(w, slots[index + 1..], path, true);
    if item.Some? {
      EncodeItemsSnoc(items, item.value);
      if later.Some? {
        assert items + ([item.value] + later.value) == (items + [item.value]) + later.value;
        EncodeItemsAppend(items + [item.value], later.value);
      }
    }
  }

  lemma SlotsEnd(w: World, slots: seq<Option<JsValue>>, path: seq<JsValue>, items: seq<Tree>)
    ensures SlotsAfter(items, UnfoldSlots(w, slots[|slots|..], path, true)) == Some(items)
  {
    assert slots[|slots|..] == [] && items + [] == items;
  }

  ghost function EntriesAfter(fields: seq<Field>, rest: Option<seq<Field>>): Option<seq<Field>> {
    if rest.None? then None else Some(fields + rest.value)
  }

  lemma EntriesStart(w: World, entries: seq<Entry>, path: seq<JsValue>)
    ensures UnfoldEntries(w, entries, path, true) == EntriesAfter([], UnfoldEntries(w, entries[0..], path, true))
    ensures EncodeFields([]) == []
  {
    assert entries[0..] == entries;
    var whole := UnfoldEntries(w, entries, path, true);
    if whole.Some? {
      assert [] + whole.value == whole.value;
    }
  }

  lemma EntriesStep(w: World, entries: seq<Entry>, index: nat, path: seq<JsValue>, fields: seq<Field>)
    requires index < |entries|
    ensures var rest := UnfoldEntries(w, entries[index..], path, true);
            var field := UnfoldEntry(w, entries[index], path, true);
            var later := UnfoldEntries(w, entries[index + 1..], path, true);
            && (field.None? || rest.None? ==> EntriesAfter(fields, rest).None?)
            && (rest.Some? ==> EntriesAfter(fields, rest) == Some(fields + rest.value))
            && (field.Some? && field.value == [] ==> EntriesAfter(fields, rest) == EntriesAfter(fields, later))
            && (entries[index].value.JsUndefined? ==> field == Some([]))
            && (!entries[index].value.JsUndefined? && field.Some? ==>
                  && field.value == [field.value[0]]
                  && EntriesAfter(fields, rest) == EntriesAfter(fields + [field.value[0]], later)
                  && EncodeFields(fields + [field.value[0]]) == EncodeFields(fields) + EncodeField(field.value[0])
                  && (rest.Some? ==>
                        && |fields + rest.value| > |fields|
                        && |EncodeFields(fields + rest.value)|
                           >= |EncodeFields(fields)| + |EncodeField(field.value[0])|))
  {
    hide Unfold, EncodeField, NameBytes;
    var here := entries[index..];
    assert here[0] == entries[index] && here[1..] == entries[index + 1..];
    var field := UnfoldEntry(w, entries[index], path, true);
    var later := UnfoldEntries(w, entries[index + 1..], path, true);
    if field.Some? && field.value == [] {
      if later.Some? {
        assert [] + later.value == later.value;
      }
    } else if field.Some? {
      var f := field.value[0];
      EncodeFieldsAppend(fields, [f]);
      assert EncodeFields([f]) == EncodeField(f) by {
        assert [f][1..] == [] && EncodeField(f) + [] == EncodeField(f);
      }
      if later.Some? {
        assert fields + ([f] + later.value) == (fields + [f]) + later.value;
        EncodeFieldsAppend(fields + [f], later.value);
      }
    }
  }

  lemma EntriesEnd(w: World, entries: seq<Entry>, path: seq<JsValue>, fields: seq<Field>)
    ensures EntriesAfter(fields, UnfoldEntries(w, entries[|entries|..], path, true)) == Some(fields)
  {
    assert entries[|entries|..] == [] && fields + [] == fields;
  }
}
