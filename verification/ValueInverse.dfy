/** Reading a CVA1 frame inverts writing it. */
module ValueInverse {
  import opened Options
  import opened Bytes
  import opened ValueTree
  import opened ValueGrammar

  lemma SliceInverts(data: seq<byte>, rest: seq<byte>)
    requires |data| < TWO_TO_THE_32
    ensures Slice(EncodeSlice(data) + rest) == Some((data, 4 + |data|))
  {
    var s := EncodeSlice(data) + rest;
    assert s[..4] == U32(|data|);
    ReadU32Inverts(|data|);
    assert s[4..4 + |data|] == data;
  }

  /**
   * Decoding what was encoded gives the value back and stops right behind it, whatever follows.
   * A frame with the pending sentinel is refused exactly when the host does not allow it.
   */
  lemma {:induction false} ParseInverts(h: Host, t: Tree, rest: seq<byte>, nesting: nat)
    requires Fits(t, nesting) && |Encode(t)| < TWO_TO_THE_32
    ensures Parse(h, Encode(t) + rest, nesting)
         == if HasPending(t) && !h.pendingAllowed then None else Some((t, |Encode(t)|))
    decreases t, 1
  {
    hide ParseItems, ParseFields, EncodeItems, EncodeFields;
    match t
    case Array(items) =>
      ContainerFront(h, 7, |items|, EncodeItems(items), rest, nesting);
      EncodeItemsUseBytes(items);
      ParseItemsInverts(h, items, rest, nesting + 1);
    case Object(fields) =>
      ContainerFront(h, 8, |fields|, EncodeFields(fields), rest, nesting);
      EncodeFieldsUseBytes(fields);
      ParseFieldsInverts(h, fields, rest, nesting + 1);
    case _ =>
      LeafInverts(h, t, rest, nesting);
  }

  lemma LeafInverts(h: Host, t: Tree, rest: seq<byte>, nesting: nat)
    requires !t.Array? && !t.Object? && |Encode(t)| < TWO_TO_THE_32
    ensures Parse(h, Encode(t) + rest, nesting)
         == if HasPending(t) && !h.pendingAllowed then None else Some((t, |Encode(t)|))
  {
    hide ParseItems, ParseFields, EncodeItems, EncodeFields, Slice, EncodeSlice, ReadU64, U64;
    if t.Text? || t.Buffer? {
      EncodeSliceLength(if t.Text? then t.utf8 else t.data);
    }
    match t
    case Number(bits) => WordLeafInverts(h, 3, bits, rest, nesting);
    case Integer(value) => WordLeafInverts(h, 4, WordOf(value), rest, nesting);
    case Text(utf8) => SliceLeafInverts(h, 5, utf8, rest, nesting);
    case Buffer(data) => SliceLeafInverts(h, 6, data, rest, nesting);
    case _ =>
  }

  lemma WordLeafInverts(h: Host, tag: byte, word: Word64, rest: seq<byte>, nesting: nat)
    requires tag == 3 || tag == 4
    ensures var t := if tag == 3 then Number(word) else Integer(IntegerOf(word));
            Parse(h, [tag] + U64(word) + rest, nesting) == Some((t, 9))
  {
    hide ParseItems, ParseFields, Slice, ReadU64, U64;
    var s := [tag] + U64(word) + rest;
    assert s[1..9] == U64(word);
    ReadU64Inverts(word);
  }

  lemma SliceLeafInverts(h: Host, tag: byte, data: seq<byte>, rest: seq<byte>, nesting: nat)
    requires (tag == 5 || tag == 6) && |data| < TWO_TO_THE_32
    ensures var t := if tag == 5 then Text(data) else Buffer(data);
            Parse(h, [tag] + EncodeSlice(data) + rest, nesting) == Some((t, |Encode(t)|))
  {
    hide ParseItems, ParseFields, EncodeItems, EncodeFields, Slice, EncodeSlice;
    var s := [tag] + EncodeSlice(data) + rest;
    assert s[1..] == EncodeSlice(data) + rest;
    EncodeSliceLength(data);
    SliceInverts(data, rest);
  }

  lemma EncodeSliceLength(data: seq<byte>)
    ensures |EncodeSlice(data)| == 4 + |data|
  {
  }

  /** Reading back the tag and the count of a container. */
  lemma ContainerFront(h: Host, tag: byte, count: nat, body: seq<byte>, rest: seq<byte>, nesting: nat)
    requires (tag == 7 && count <= MAX_ARRAY_LENGTH) || (tag == 8 && count <= MAX_OBJECT_FIELDS)
    ensures var s := [tag] + U32(count) + body + rest;
            && s[0] == tag && s[5..] == body + rest
            && (nesting < MAX_NESTING && |body| >= count * (if tag == 8 then 5 else 1) ==>
                  Count(h.guarded, s, nesting) == Some(count))
  {
    var s := [tag] + U32(count) + body + rest;
    assert s[1..5] == U32(count);
    ReadU32Inverts(count);
  }

  lemma {:induction false} EncodeItemsUseBytes(items: seq<Tree>)
    ensures |EncodeItems(items)| >= |items|
  {
    if items != [] {
      EncodeItemsUseBytes(items[1..]);
    }
  }

  lemma {:induction false} EncodeFieldsUseBytes(fields: seq<Field>)
    ensures |EncodeFields(fields)| >= 5 * |fields|
  {
    if fields != [] {
      EncodeFieldsUseBytes(fields[1..]);
    }
  }

  lemma {:induction false} ParseItemsInverts(h: Host, items: seq<Tree>, rest: seq<byte>, nesting: nat)
    requires forall i | i in items :: Fits(i, nesting)
    requires |EncodeItems(items)| < TWO_TO_THE_32
    ensures ParseItems(h, EncodeItems(items) + rest, |items|, false, nesting)
         == if (exists i | i in items :: HasPending(i)) && !h.pendingAllowed then None
            else Some((items, |EncodeItems(items)|))
    decreases items, 0
  {
    hide Encode, Parse, Fits, HasPending, ParseItems;
    ItemsUnfold(h, EncodeItems(items) + rest, |items|, nesting);
    if items != [] {
      var front, back := Encode(items[0]), EncodeItems(items[1..]);
      ParseInverts(h, items[0], back + rest, nesting);
      ParseItemsInverts(h, items[1..], rest, nesting);
      Shift(front, back, rest);
      assert items == [items[0]] + items[1..];
      assert (exists i | i in items :: HasPending(i)) <==>
        HasPending(items[0]) || exists i | i in items[1..] :: HasPending(i);
    }
  }

  lemma ItemsUnfold(h: Host, s: seq<byte>, count: nat, nesting: nat)
    ensures ParseItems(h, s, count, false, nesting) ==
            if count == 0 then Some(([], 0))
            else
              var item := Parse(h, s, nesting);
              if item.None? then None
              else
                var items := ParseItems(h, s[item.value.1..], count - 1, false, nesting);
                if items.None? then None else Some(([item.value.0] + items.value.0, item.value.1 + items.value.1))
  {
  }

  lemma Shift(front: seq<byte>, back: seq<byte>, rest: seq<byte>)
    ensures (front + back) + rest == front + (back + rest)
    ensures (front + (back + rest))[|front|..] == back + rest
  {
  }

  lemma {:induction false} ParseFieldsInverts(h: Host, fields: seq<Field>, rest: seq<byte>, nesting: nat)
    requires forall f | f in fields :: Fits(f.value, nesting)
    requires |EncodeFields(fields)| < TWO_TO_THE_32
    ensures ParseFields(h, EncodeFields(fields) + rest, |fields|, nesting)
         == if (exists f | f in fields :: HasPending(f.value)) && !h.pendingAllowed then None
            else Some((fields, |EncodeFields(fields)|))
    decreases fields, 0
  {
    hide Encode, EncodeField, Parse, ParseField, ParseFields, Slice, Fits, HasPending;
    FieldsUnfold(h, EncodeFields(fields) + rest, |fields|, nesting);
    if fields != [] {
      var front, back := EncodeField(fields[0]), EncodeFields(fields[1..]);
      ParseFieldInverts(h, fields[0], back + rest, nesting);
      ParseFieldsInverts(h, fields[1..], rest, nesting);
      Shift(front, back, rest);
      assert EncodeFields(fields) + rest == front + (back + rest);
      assert fields == [fields[0]] + fields[1..];
      assert (exists f | f in fields :: HasPending(f.value)) <==>
        HasPending(fields[0].value) || exists f | f in fields[1..] :: HasPending(f.value);
    }
  }

  lemma FieldsUnfold(h: Host, s: seq<byte>, count: nat, nesting: nat)
    ensures ParseFields(h, s, count, nesting) ==
            if count == 0 then Some(([], 0))
            else
              var field := ParseField(h, s, nesting);
              if field.None? then None
              else
                var fields := ParseFields(h, s[field.value.1..], count - 1, nesting);
                if fields.None? then None
                else Some(([field.value.0] + fields.value.0, field.value.1 + fields.value.1))
  {
  }

  lemma {:induction false} ParseFieldInverts(h: Host, f: Field, rest: seq<byte>, nesting: nat)
    requires Fits(f.value, nesting) && |EncodeField(f)| < TWO_TO_THE_32
    ensures ParseField(h, EncodeField(f) + rest, nesting)
         == if HasPending(f.value) && !h.pendingAllowed then None else Some((f, |EncodeField(f)|))
    decreases f, 2
  {
    hide Encode, Parse, Fits, HasPending, EncodeSlice, Slice;
    var key, value := EncodeSlice(f.key), Encode(f.value);
    EncodeSliceLength(f.key);
    SliceInverts(f.key, value + rest);
    ParseInverts(h, f.value, rest, nesting);
    Shift(key, value, rest);
  }

  /** Reading a whole encoded frame gives the value back. */
  lemma FrameInverts(h: Host, t: Tree)
    requires Fits(t, 0) && |Encode(t)| < TWO_TO_THE_32
    ensures ParseFrame(h, MAGIC + Encode(t)) == if HasPending(t) && !h.pendingAllowed then None else Some(t)
  {
    var s := MAGIC + Encode(t);
    assert s[..4] == MAGIC && s[4..] == Encode(t) + [];
    ParseInverts(h, t, [], 0);
  }
}
