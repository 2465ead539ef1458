/**
 * The CVA1 reader. An object is read in two passes: its keys and the places of its values are
 * indexed by skipping over the values, then the reader jumps back to decode each value.
 */
module ValueReader {
  import opened Options
  import opened Bytes
  import opened ValueTree
  import opened ValueGrammar
  import opened ValuePasses

  /** An indexed field: its key and the place of its value in the frame. */
  datatype Slot = Slot(key: seq<byte>, at: nat)

  class ValueAbiReader {
    const bytes: seq<byte>
    const host: Host
    var cursor: nat

    constructor (bytes: seq<byte>, host: Host)
      requires host.guarded
      ensures this.bytes == bytes && this.host == host && cursor == 0
    {
      this.bytes := bytes;
      this.host := host;
      cursor := 0;
    }

    predicate Valid()
      reads this
    {
      cursor <= |bytes| && host.guarded
    }

    /** The bytes still to be read. */
    ghost function Left(): seq<byte>
      requires Valid()
      reads this
    {
      From(bytes, cursor)
    }

    method Take(length: nat) returns (r: Option<seq<byte>>)
      requires Valid()
      modifies this
      ensures Valid()
      ensures r.Some? <==> length <= |old(Left())|
      ensures r.Some? ==> r.value == old(Left())[..length] && cursor == old(cursor) + length
      ensures r.None? ==> cursor == old(cursor)
    {
      if length > |bytes| - cursor {
        return None;
      }
      r := Some(bytes[cursor..cursor + length]);
      cursor := cursor + length;
    }

    method TakeSlice() returns (r: Option<seq<byte>>)
      requires Valid()
      modifies this
      ensures Valid() && cursor >= old(cursor)
      ensures var slice := Slice(old(Left()));
              if slice.None? then r.None?
              else r == Some(slice.value.0) && cursor == old(cursor) + slice.value.1
    {
      var prefix := Take(4);
      if prefix.None? {
        return None;
      }
      r := Take(ReadU32(prefix.value));
      assert r.Some? ==> r.value == old(Left())[4..4 + ReadU32(prefix.value)];
    }

    /** Reads a count and checks it against the limit and the bytes that are left. */
    method TakeCount(tag: byte, nesting: nat) returns (r: Option<nat>)
      requires Valid() && cursor > 0 && bytes[cursor - 1] == tag && IsContainer(tag)
      modifies this
      ensures Valid() && cursor >= old(cursor)
      ensures r == Count(true, From(bytes, old(cursor) - 1), nesting)
      ensures r.Some? ==> cursor == old(cursor) + 4
    {
      ghost var s := From(bytes, cursor - 1);
      if nesting >= MAX_NESTING {
        return None;
      }
      var prefix := Take(4);
      if prefix.None? {
        return None;
      }
      assert s[1..5] == prefix.value;
      var count := ReadU32(prefix.value);
      if count > (if tag == 8 then MAX_OBJECT_FIELDS else MAX_ARRAY_LENGTH)
        || count > (|bytes| - cursor) / (if tag == 8 then 5 else 1)
      {
        return None;
      }
      return Some(count);
    }

    method SkipValue(nesting: nat) returns (ok: bool)
      requires Valid()
      modifies this
      ensures Valid()
      ensures var end := Skip(true, old(Left()), nesting);
              if end.None? then !ok else ok && cursor == old(cursor) + end.value
      decreases |bytes| - cursor, 0
    {
      ghost var s := Left();
      var tag := Take(1);
      if tag.None? {
        return false;
      }
      assert From(bytes, cursor) == s[1..];
      match tag.value[0]
      case 0 | 1 | 2 | 9 => ok := true;
      case 3 | 4 =>
        var word := Take(8);
        ok := word.Some?;
      case 5 | 6 | 10 =>
        var slice := TakeSlice();
        ok := slice.Some?;
      case 7 | 8 | 11 =>
        ok := SkipContainer(tag.value[0], nesting);
      case _ => ok := false;
    }

    method SkipContainer(tag: byte, nesting: nat) returns (ok: bool)
      requires Valid() && cursor > 0 && bytes[cursor - 1] == tag && IsContainer(tag)
      modifies this
      ensures Valid()
      ensures var end := Skip(true, From(bytes, old(cursor) - 1), nesting);
              if end.None? then !ok else ok && cursor == old(cursor) - 1 + end.value
      decreases |bytes| - cursor, 2
    {
      hide Skip, SkipElement, SkipElements, Slice, Count, From;
      SkipOfContainer(bytes, cursor - 1, nesting);
      var count := TakeCount(tag, nesting);
      if count.None? {
        return false;
      }
      var level := if tag == 11 then 0 else nesting + 1;
      var start := cursor;
      ghost var whole := SkipElements(true, From(bytes, start), count.value, tag, level);
      var index := 0;
      while index < count.value
        invariant Valid() && start <= cursor && 0 <= index <= count.value
        invariant whole ==
          Later(cursor - start, SkipElements(true, From(bytes, cursor), count.value - index, tag, level))
      {
        SkipElementsStep(bytes, cursor, count.value - index, tag, level);
        ok := SkipOneElement(tag, level);
        if !ok {
          return;
        }
        index := index + 1;
      }
      NoElements(host, From(bytes, cursor), tag, level);
      ok := true;
    }

    method SkipOneElement(tag: byte, level: nat) returns (ok: bool)
      requires Valid() && IsContainer(tag)
      modifies this
      ensures Valid()
      ensures var end := SkipElement(true, old(Left()), tag, level);
              if end.None? then !ok else ok && cursor == old(cursor) + end.value
      decreases |bytes| - cursor, 1
    {
      hide Skip, SkipElement, Slice, From;
      SkipElementParts(bytes, cursor, tag, level);
      if tag == 8 {
        var key := TakeSlice();
        if key.None? {
          return false;
        }
      }
      if tag == 11 && (cursor == |bytes| || (bytes[cursor] != 8 && bytes[cursor] != 10)) {
        return false;
      }
      ok := SkipValue(level);
    }

    method Decode() returns (r: Option<Tree>)
      requires Valid() && cursor == 0
      modifies this
      ensures r == ParseFrame(host, bytes)
    {
      var header := Take(4);
      if header.None? || header.value != MAGIC {
        return None;
      }
      assert From(bytes, 4) == Left();
      r := Value(0);
      if r.Some? && cursor != |bytes| {
        return None;
      }
    }

    method Value(nesting: nat) returns (r: Option<Tree>)
      requires Valid()
      modifies this
      ensures Valid()
      ensures var value := Parse(host, old(Left()), nesting);
              if value.None? then r.None? else r == Some(value.value.0) && cursor == old(cursor) + value.value.1
      decreases |bytes| - cursor
    {
      hide ParseItems, ParseFields, Slice, Count;
      ghost var s := Left();
      var tag := Take(1);
      if tag.None? {
        return None;
      }
      assert From(bytes, cursor) == s[1..];
      match tag.value[0]
      case 0 => r := Some(Null);
      case 1 => r := Some(Bool(false));
      case 2 => r := Some(Bool(true));
      case 3 =>
        var word := Take(8);
        if word.None? {
          return None;
        }
        assert word.value == s[1..9];
        r := Some(Number(ReadU64(word.value)));
      case 4 =>
        var word := Take(8);
        if word.None? {
          return None;
        }
        assert word.value == s[1..9];
        r := Some(Integer(IntegerOf(ReadU64(word.value))));
      case 5 =>
        var slice := TakeSlice();
        r := if slice.None? then None else Some(Text(slice.value));
      case 6 =>
        var slice := TakeSlice();
        r := if slice.None? then None else Some(Buffer(slice.value));
      case 7 | 11 => r := ArrayValue(tag.value[0], nesting);
      case 8 => r := ObjectValue(nesting);
      case 9 => r := if host.pendingAllowed then Some(Pending) else None;
      case 10 =>
        var slice := TakeSlice();
        if slice.None? {
          return None;
        }
        r := host.packed(slice.value, nesting);
      case _ => r := None;
    }

    /** An array, or a collection of documents that each start over with their nesting. */
    method ArrayValue(tag: byte, nesting: nat) returns (r: Option<Tree>)
      requires Valid() && cursor > 0 && bytes[cursor - 1] == tag && (tag == 7 || tag == 11)
      modifies this
      ensures Valid()
      ensures var value := Parse(host, From(bytes, old(cursor) - 1), nesting);
              if value.None? then r.None? else r == Some(value.value.0) && cursor == old(cursor) - 1 + value.value.1
      decreases |bytes| - cursor, 1
    {
      hide Parse, ParseItems, ParseFields, Count, From;
      ParseOfContainer(host, bytes, cursor - 1, nesting);
      var count := TakeCount(tag, nesting);
      if count.None? {
        return None;
      }
      var level := if tag == 11 then 0 else nesting + 1;
      var start := cursor;
      var items := [];
      ghost var whole := ParseItems(host, From(bytes, start), count.value, tag == 11, level);
      ItemsAfterNothing(whole);
      var index := 0;
      while index < count.value
        invariant Valid() && start <= cursor && 0 <= index <= count.value
        invariant whole
               == ItemsAfter(items, cursor - start,
                             ParseItems(host, From(bytes, cursor), count.value - index, tag == 11, level))
      {
        ghost var before := cursor;
        ParseItemsStep(host, bytes, cursor, count.value - index, tag == 11, level);
        if tag == 11 && (cursor == |bytes| || (bytes[cursor] != 8 && bytes[cursor] != 10)) {
          return None;
        }
        var item := Value(level);
        if item.None? {
          return None;
        }
        ItemsAfterOne(items, before - start, item.value, cursor - before,
                      ParseItems(host, From(bytes, cursor), count.value - index - 1, tag == 11, level));
        items := items + [item.value];
        index := index + 1;
      }
      NoElements(host, From(bytes, cursor), tag, level);
      r := Some(Array(items));
      assert items + [] == items;
    }

    /** Where the value of each indexed field starts and ends, and the key in front of it. */
    ghost predicate Indexed(slots: seq<Slot>, ends: seq<nat>, level: nat) {
      && |ends| == |slots| + 1
      && (forall k | 0 <= k < |ends| :: ends[k] <= |bytes|)
      && forall k | 0 <= k < |slots| :: IndexedAt(slots[k], ends[k], ends[k + 1], level)
    }

    ghost predicate IndexedAt(slot: Slot, start: nat, end: nat, level: nat) {
      && start <= slot.at <= end <= |bytes|
      && Slice(From(bytes, start)) == Some((slot.key, slot.at - start))
      && Skip(true, From(bytes, slot.at), level) == Some(end - slot.at)
    }

    /** The first pass over an object's fields. */
    method IndexFields(count: nat, level: nat) returns (ok: bool, slots: seq<Slot>, ghost ends: seq<nat>)
      requires Valid()
      modifies this
      ensures Valid() && (ok ==> cursor >= old(cursor))
      ensures ok ==> |slots| == count && Indexed(slots, ends, level) && ends[0] == old(cursor) && ends[count] == cursor
      ensures !ok ==> SkipElements(true, From(bytes, old(cursor)), count, 8, level).None?
      decreases |bytes| - cursor, 1
    {
      hide Skip, SkipElements, SkipElement, Slice, From;
      var start := cursor;
      slots, ends := [], [cursor];
      ghost var whole := SkipElements(true, From(bytes, start), count, 8, level);
      var index := 0;
      while index < count
        invariant Valid() && start <= cursor && 0 <= index <= count && |slots| == index
        invariant Indexed(slots, ends, level) && ends[0] == start && ends[index] == cursor
        invariant whole == Later(cursor - start, SkipElements(true, From(bytes, cursor), count - index, 8, level))
      {
        ghost var before := cursor;
        SkipElementsStep(bytes, cursor, count - index, 8, level);
        SkipElementParts(bytes, cursor, 8, level);
        var key := TakeSlice();
        if key.None? {
          return false, slots, ends;
        }
        var slot := Slot(key.value, cursor);
        ok := SkipValue(level);
        if !ok {
          return;
        }
        assert IndexedAt(slot, before, cursor, level);
        slots, ends := slots + [slot], ends + [cursor];
        index := index + 1;
      }
      ok := true;
    }

    method ObjectValue(nesting: nat) returns (r: Option<Tree>)
      requires Valid() && cursor > 0 && bytes[cursor - 1] == 8
      modifies this
      ensures Valid()
      ensures var value := Parse(host, From(bytes, old(cursor) - 1), nesting);
              if value.None? then r.None? else r == Some(value.value.0) && cursor == old(cursor) - 1 + value.value.1
      decreases |bytes| - cursor, 2
    {
      hide Parse, ParseItems, ParseFields, ParseField, Count, Skip, SkipElements, Slice, From;
      ParseOfContainer(host, bytes, cursor - 1, nesting);
      var count := TakeCount(8, nesting);
      if count.None? {
        return None;
      }
      var level, start := nesting + 1, cursor;
      ghost var whole := ParseFields(host, From(bytes, start), count.value, level);
      if whole.Some? {
        SkipFollowsParseFields(host, From(bytes, start), count.value, level);
      }
      var ok, slots;
      ghost var ends;
      ok, slots, ends := IndexFields(count.value, level);
      if !ok {
        return None;
      }
      var after := cursor;
      var fields := [];
      FieldsAfterNothing(whole);
      var index := 0;
      while index < count.value
        invariant Valid() && 0 <= index <= count.value && start <= ends[index]
        invariant whole
               == FieldsAfter(fields, ends[index] - start,
                              ParseFields(host, From(bytes, ends[index]), count.value - index, level))
      {
        var slot := slots[index];
        assert IndexedAt(slot, ends[index], ends[index + 1], level);
        ParseFieldsStep(host, bytes, ends[index], count.value - index, level);
        cursor := slot.at;
        if Parse(host, From(bytes, slot.at), level).Some? {
          SkipFollowsParse(host, From(bytes, slot.at), level);
        }
        var value := Value(level);
        if value.None? {
          return None;
        }
        FieldsAfterOne(fields, ends[index] - start, Field(slot.key, value.value), ends[index + 1] - ends[index],
                       ParseFields(host, From(bytes, ends[index + 1]), count.value - index - 1, level));
        fields := fields + [Field(slot.key, value.value)];
        index := index + 1;
      }
      NoElements(host, From(bytes, after), 8, level);
      cursor := after;
      r := Some(Object(fields));
      assert fields + [] == fields;
    }
  }

  // ----- how a loop over elements extends the reading of the rest -----

  ghost function Later(used: nat, rest: Option<nat>): Option<nat> {
    if rest.None? then None else Some(used + rest.value)
  }

  ghost function ItemsAfter(items: seq<Tree>, used: nat, rest: Option<(seq<Tree>, nat)>): Option<(seq<Tree>, nat)> {
    if rest.None? then None else Some((items + rest.value.0, used + rest.value.1))
  }

  lemma ItemsAfterNothing(rest: Option<(seq<Tree>, nat)>)
    ensures ItemsAfter([], 0, rest) == rest
  {
    if rest.Some? {
      assert [] + rest.value.0 == rest.value.0;
    }
  }

  lemma ItemsAfterOne(items: seq<Tree>, used: nat, item: Tree, more: nat, rest: Option<(seq<Tree>, nat)>)
    ensures ItemsAfter(items, used, ItemsAfter([item], more, rest)) == ItemsAfter(items + [item], used + more, rest)
  {
    if rest.Some? {
      assert items + ([item] + rest.value.0) == (items + [item]) + rest.value.0;
    }
  }

  ghost function FieldsAfter(fields: seq<Field>, used: nat, rest: Option<(seq<Field>, nat)>)
    : Option<(seq<Field>, nat)>
  {
    if rest.None? then None else Some((fields + rest.value.0, used + rest.value.1))
  }

  lemma FieldsAfterNothing(rest: Option<(seq<Field>, nat)>)
    ensures FieldsAfter([], 0, rest) == rest
  {
    if rest.Some? {
      assert [] + rest.value.0 == rest.value.0;
    }
  }

  lemma FieldsAfterOne(fields: seq<Field>, used: nat, field: Field, more: nat, rest: Option<(seq<Field>, nat)>)
    ensures FieldsAfter(fields, used, FieldsAfter([field], more, rest))
         == FieldsAfter(fields + [field], used + more, rest)
  {
    if rest.Some? {
      assert fields + ([field] + rest.value.0) == (fields + [field]) + rest.value.0;
    }
  }

  /** The bytes from a place on. */
  ghost function From(b: seq<byte>, at: nat): (s: seq<byte>)
    requires at <= |b|
    ensures |s| == |b| - at
  {
    b[at..]
  }

  lemma FromFrom(b: seq<byte>, at: nat, more: nat)
    requires at + more <= |b|
    ensures From(b, at)[more..] == From(b, at + more)
  {
  }

  lemma SkipOfContainer(b: seq<byte>, at: nat, nesting: nat)
    requires at < |b| && IsContainer(b[at])
    ensures var whole := Skip(true, From(b, at), nesting);
            var count := Count(true, From(b, at), nesting);
            if count.None? then whole.None?
            else
              var level := if b[at] == 11 then 0 else nesting + 1;
              whole == Later(5, SkipElements(true, From(b, at + 5), count.value, b[at], level))
  {
    hide SkipElements;
    if Count(true, From(b, at), nesting).Some? {
      FromFrom(b, at, 5);
    }
  }

  lemma SkipElementsStep(b: seq<byte>, at: nat, count: nat, tag: byte, level: nat)
    requires at <= |b| && count > 0
    ensures var whole := SkipElements(true, From(b, at), count, tag, level);
            var element := SkipElement(true, From(b, at), tag, level);
            if element.None? then whole.None?
            else
              whole == Later(element.value, SkipElements(true, From(b, at + element.value), count - 1, tag, level))
  {
    hide SkipElement;
    var element := SkipElement(true, From(b, at), tag, level);
    if element.Some? {
      FromFrom(b, at, element.value);
    }
  }

  /** The place of the value of an element, which an object's key precedes. */
  lemma SkipElementParts(b: seq<byte>, at: nat, tag: byte, level: nat)
    requires at <= |b|
    ensures var element := SkipElement(true, From(b, at), tag, level);
            var key := Slice(From(b, at));
            if tag == 8 && key.None? then element.None?
            else if tag == 11 && (at == |b| || (b[at] != 8 && b[at] != 10)) then element.None?
            else
              var start := if tag == 8 then key.value.1 else 0;
              element == Later(start, Skip(true, From(b, at + start), level))
  {
    hide Skip, Slice;
    if tag == 8 && Slice(From(b, at)).Some? {
      FromFrom(b, at, Slice(From(b, at)).value.1);
    }
  }

  lemma NoElements(h: Host, s: seq<byte>, tag: byte, level: nat)
    ensures SkipElements(true, s, 0, tag, level) == Some(0)
    ensures ParseItems(h, s, 0, tag == 11, level) == Some(([], 0))
    ensures ParseFields(h, s, 0, level) == Some(([], 0))
  {
  }

  lemma ParseOfContainer(h: Host, b: seq<byte>, at: nat, nesting: nat)
    requires at < |b| && IsContainer(b[at]) && h.guarded
    ensures var count := Count(true, From(b, at), nesting);
            var value := Parse(h, From(b, at), nesting);
            if count.None? then value.None?
            else if b[at] == 8 then
              var fields := ParseFields(h, From(b, at + 5), count.value, nesting + 1);
              if fields.None? then value.None? else value == Some((Object(fields.value.0), 5 + fields.value.1))
            else
              var level := if b[at] == 11 then 0 else nesting + 1;
              var items := ParseItems(h, From(b, at + 5), count.value, b[at] == 11, level);
              if items.None? then value.None? else value == Some((Array(items.value.0), 5 + items.value.1))
  {
    hide ParseFields, ParseItems, ParseLeaf;
    if Count(true, From(b, at), nesting).Some? {
      FromFrom(b, at, 5);
    }
  }

  lemma ParseItemsStep(h: Host, b: seq<byte>, at: nat, count: nat, documents: bool, level: nat)
    requires at <= |b| && count > 0
    ensures var whole := ParseItems(h, From(b, at), count, documents, level);
            var item := Parse(h, From(b, at), level);
            if documents && (at == |b| || (b[at] != 8 && b[at] != 10)) then whole.None?
            else if item.None? then whole.None?
            else
              whole == ItemsAfter([item.value.0], item.value.1,
                                  ParseItems(h, From(b, at + item.value.1), count - 1, documents, level))
  {
    hide Parse;
    var item := Parse(h, From(b, at), level);
    if item.Some? {
      FromFrom(b, at, item.value.1);
    }
  }

  lemma ParseFieldsStep(h: Host, b: seq<byte>, at: nat, count: nat, level: nat)
    requires at <= |b| && count > 0
    ensures var whole := ParseFields(h, From(b, at), count, level);
            var key := Slice(From(b, at));
            if key.None? then whole.None?
            else
              var value := Parse(h, From(b, at + key.value.1), level);
              if value.None? then whole.None?
              else
                var used := key.value.1 + value.value.1;
                whole == FieldsAfter([Field(key.value.0, value.value.0)], used,
                                     ParseFields(h, From(b, at + used), count - 1, level))
  {
    hide Parse, Slice;
    var key := Slice(From(b, at));
    if key.Some? {
      FromFrom(b, at, key.value.1);
      var value := Parse(h, From(b, at + key.value.1), level);
      if value.Some? {
        FromFrom(b, at, key.value.1 + value.value.1);
      }
    }
  }
}
