/** CVA1 values and their plain length-prefixed encoding. */
module ValueTree {
  import opened Bytes

  const MAX_NESTING: nat := 64
  const MAX_ARRAY_LENGTH: nat := 8192
  const MAX_OBJECT_FIELDS: nat := 1024

  type Word64 = n: int | 0 <= n < TWO_TO_THE_64
  type Int64 = n: int | -0x8000_0000_0000_0000 <= n < 0x8000_0000_0000_0000

  /** A double is its 64 bits; text is its UTF-8; an object is its fields in frame order. */
  datatype Tree =
    | Null
    | Bool(flag: bool)
    | Number(bits: Word64)
    | Integer(value: Int64)
    | Text(utf8: seq<byte>)
    | Buffer(data: seq<byte>)
    | Array(items: seq<Tree>)
    | Object(fields: seq<Field>)
    | Pending

  datatype Field = Field(key: seq<byte>, value: Tree)

  /** Two's complement. */
  function WordOf(n: Int64): Word64 {
    if n < 0 then n + TWO_TO_THE_64 else n
  }

  function IntegerOf(n: Word64): (i: Int64)
    ensures WordOf(i) == n
  {
    if n < 0x8000_0000_0000_0000 then n else n - TWO_TO_THE_64
  }

  function EncodeSlice(data: seq<byte>): seq<byte> {
    U32(|data|) + data
  }

  function Encode(t: Tree): (b: seq<byte>)
    ensures |b| >= 1
    decreases t, 1
  {
    match t
    case Null => [0]
    case Bool(flag) => [if flag then 2 else 1]
    case Number(bits) => [3] + U64(bits)
    case Integer(value) => [4] + U64(WordOf(value))
    case Text(utf8) => [5] + EncodeSlice(utf8)
    case Buffer(data) => [6] + EncodeSlice(data)
    case Array(items) => [7] + U32(|items|) + EncodeItems(items)
    case Object(fields) => [8] + U32(|fields|) + EncodeFields(fields)
    case Pending => [9]
  }

  function EncodeItems(items: seq<Tree>): seq<byte>
    decreases items, 0
  {
    if items == [] then [] else Encode(items[0]) + EncodeItems(items[1..])
  }

  function EncodeField(field: Field): (b: seq<byte>)
    ensures |b| >= 5
    decreases field, 2
  {
    EncodeSlice(field.key) + Encode(field.value)
  }

  function EncodeFields(fields: seq<Field>): seq<byte>
    decreases fields, 0
  {
    if fields == [] then [] else EncodeField(fields[0]) + EncodeFields(fields[1..])
  }

  lemma {:induction false} EncodeItemsSnoc(items: seq<Tree>, last: Tree)
    ensures EncodeItems(items + [last]) == EncodeItems(items) + Encode(last)
  {
    hide Encode;
    if items == [] {
      assert [] + [last] == [last] && [last][1..] == [];
    } else {
      EncodeItemsSnoc(items[1..], last);
      assert (items + [last])[1..] == items[1..] + [last];
    }
  }

  lemma {:induction false} EncodeItemsAppend(front: seq<Tree>, back: seq<Tree>)
    ensures EncodeItems(front + back) == EncodeItems(front) + EncodeItems(back)
  {
    hide Encode;
    if front == [] {
      assert front + back == back;
    } else {
      EncodeItemsAppend(front[1..], back);
      assert (front + back)[1..] == front[1..] + back;
    }
  }

  lemma {:induction false} EncodeFieldsAppend(front: seq<Field>, back: seq<Field>)
    ensures EncodeFields(front + back) == EncodeFields(front) + EncodeFields(back)
  {
    hide EncodeField;
    if front == [] {
      assert front + back == back;
    } else {
      EncodeFieldsAppend(front[1..], back);
      assert (front + back)[1..] == front[1..] + back;
    }
  }

  /** The limits a frame must keep to when it is met at a nesting level. */
  predicate Fits(t: Tree, nesting: nat)
    decreases t
  {
    match t
    case Array(items) =>
      nesting < MAX_NESTING && |items| <= MAX_ARRAY_LENGTH && forall i | i in items :: Fits(i, nesting + 1)
    case Object(fields) =>
      nesting < MAX_NESTING && |fields| <= MAX_OBJECT_FIELDS && forall f | f in fields :: Fits(f.value, nesting + 1)
    case _ => true
  }

  predicate HasPending(t: Tree)
    decreases t
  {
    match t
    case Pending => true
    case Array(items) => exists i | i in items :: HasPending(i)
    case Object(fields) => exists f | f in fields :: HasPending(f.value)
    case _ => false
  }
}
