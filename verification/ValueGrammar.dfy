/**
 * CVA1 frames as they are read: `Parse` decodes in one pass, `Skip` only finds where a value ends.
 * Both make the reader's own checks; all positions are relative to the bytes still to be read.
 */
module ValueGrammar {
  import opened Options
  import opened Bytes
  import opened ValueTree

  /**
   * What the host decides: whether the pending sentinel may occur, and how a packed document
   * (tag 10) decodes at a nesting level. `guarded` switches the remaining-byte count guards.
   */
  datatype Host = Host(pendingAllowed: bool, packed: (seq<byte>, nat) -> Option<Tree>, guarded: bool)

  /** A length-prefixed slice at the front of s, and the number of bytes it takes. */
  function Slice(s: seq<byte>): (r: Option<(seq<byte>, nat)>)
    ensures r.Some? ==> 4 <= r.value.1 <= |s| && r.value.0 == s[4..r.value.1]
  {
    if |s| < 4 then None
    else
      var length := ReadU32(s[..4]);
      if length > |s| - 4 then None else Some((s[4..4 + length], 4 + length))
  }

  predicate IsContainer(tag: byte) { tag == 7 || tag == 8 || tag == 11 }

  /** The element count of the container at the front of s, if it passes the checks made on it. */
  function Count(guarded: bool, s: seq<byte>, nesting: nat): Option<nat>
    requires s != [] && IsContainer(s[0])
  {
    if nesting >= MAX_NESTING || |s| < 5 then None
    else
      var count := ReadU32(s[1..5]);
      if count > (if s[0] == 8 then MAX_OBJECT_FIELDS else MAX_ARRAY_LENGTH) then None
      else if guarded && count > (|s| - 5) / (if s[0] == 8 then 5 else 1) then None
      else Some(count)
  }

  function Parse(h: Host, s: seq<byte>, nesting: nat): (r: Option<(Tree, nat)>)
    ensures r.Some? ==> 1 <= r.value.1 <= |s|
    decreases |s|, 0
  {
    if s == [] then None
    else if IsContainer(s[0]) then
      var count := Count(h.guarded, s, nesting);
      if count.None? then None
      else if s[0] == 8 then
        var fields := ParseFields(h, s[5..], count.value, nesting + 1);
        if fields.None? then None else Some((Object(fields.value.0), 5 + fields.value.1))
      else
        var items := ParseItems(h, s[5..], count.value, s[0] == 11, if s[0] == 11 then 0 else nesting + 1);
        if items.None? then None else Some((Array(items.value.0), 5 + items.value.1))
    else ParseLeaf(h, s, nesting)
  }

  function ParseLeaf(h: Host, s: seq<byte>, nesting: nat): (r: Option<(Tree, nat)>)
    requires s != []
    ensures r.Some? ==> 1 <= r.value.1 <= |s|
  {
    match s[0]
    case 0 => Some((Null, 1))
    case 1 => Some((Bool(false), 1))
    case 2 => Some((Bool(true), 1))
    case 3 => if |s| < 9 then None else Some((Number(ReadU64(s[1..9])), 9))
    case 4 => if |s| < 9 then None else Some((Integer(IntegerOf(ReadU64(s[1..9]))), 9))
    case 5 => var slice := Slice(s[1..]); if slice.None? then None else Some((Text(slice.value.0), 1 + slice.value.1))
    case 6 => var slice := Slice(s[1..]); if slice.None? then None else Some((Buffer(slice.value.0), 1 + slice.value.1))
    case 9 => if h.pendingAllowed then Some((Pending, 1)) else None
    case 10 =>
      var slice := Slice(s[1..]);
      if slice.None? then None
      else
        var document := h.packed(slice.value.0, nesting);
        if document.None? then None else Some((document.value, 1 + slice.value.1))
    case _ => None
  }

  predicate StartsDocument(s: seq<byte>) {
    s != [] && (s[0] == 8 || s[0] == 10)
  }

  function ParseItems(h: Host, s: seq<byte>, count: nat, documents: bool, nesting: nat): (r: Option<(seq<Tree>, nat)>)
    ensures r.Some? ==> r.value.1 <= |s|
    decreases |s|, count + 1
  {
    if count == 0 then Some(([], 0))
    else if documents && !StartsDocument(s) then None
    else
      var item := Parse(h, s, nesting);
      if item.None? then None
      else
        var items := ParseItems(h, s[item.value.1..], count - 1, documents, nesting);
        if items.None? then None else Some(([item.value.0] + items.value.0, item.value.1 + items.value.1))
  }

  function ParseField(h: Host, s: seq<byte>, nesting: nat): (r: Option<(Field, nat)>)
    ensures r.Some? ==> 5 <= r.value.1 <= |s|
    decreases |s|, 1
  {
    var key := Slice(s);
    if key.None? then None
    else
      var value := Parse(h, s[key.value.1..], nesting);
      if value.None? then None else Some((Field(key.value.0, value.value.0), key.value.1 + value.value.1))
  }

  function ParseFields(h: Host, s: seq<byte>, count: nat, nesting: nat): (r: Option<(seq<Field>, nat)>)
    ensures r.Some? ==> r.value.1 <= |s|
    decreases |s|, count + 2
  {
    if count == 0 then Some(([], 0))
    else
      var field := ParseField(h, s, nesting);
      if field.None? then None
      else
        var fields := ParseFields(h, s[field.value.1..], count - 1, nesting);
        if fields.None? then None else Some(([field.value.0] + fields.value.0, field.value.1 + fields.value.1))
  }

  /** A whole frame: magic, one value, nothing after it. */
  function ParseFrame(h: Host, s: seq<byte>): Option<Tree> {
    if |s| < 4 || s[..4] != MAGIC then None
    else
      var value := Parse(h, s[4..], 0);
      if value.None? || 4 + value.value.1 != |s| then None else Some(value.value.0)
  }

  /** "CVA1" */
  const MAGIC: seq<byte> := [0x43, 0x56, 0x41, 0x31]

  // ----- skipping -----

  function Skip(guarded: bool, s: seq<byte>, nesting: nat): (r: Option<nat>)
    ensures r.Some? ==> 1 <= r.value <= |s|
    decreases |s|, 0
  {
    if s == [] then None
    else if IsContainer(s[0]) then
      var count := Count(guarded, s, nesting);
      if count.None? then None
      else
        var rest := SkipElements(guarded, s[5..], count.value, s[0], if s[0] == 11 then 0 else nesting + 1);
        if rest.None? then None else Some(5 + rest.value)
    else
      match s[0]
      case 0 | 1 | 2 | 9 => Some(1)
      case 3 | 4 => if |s| < 9 then None else Some(9)
      case 5 | 6 | 10 => var slice := Slice(s[1..]); if slice.None? then None else Some(1 + slice.value.1)
      case _ => None
  }

  /** One element of a container: an object's are preceded by a key, a collection's are documents. */
  function SkipElement(guarded: bool, s: seq<byte>, tag: byte, nesting: nat): (r: Option<nat>)
    ensures r.Some? ==> 1 <= r.value <= |s|
    decreases |s|, 1
  {
    if tag == 8 then
      var key := Slice(s);
      if key.None? then None
      else
        var value := Skip(guarded, s[key.value.1..], nesting);
        if value.None? then None else Some(key.value.1 + value.value)
    else if tag == 11 && !StartsDocument(s) then None
    else Skip(guarded, s, nesting)
  }

  function SkipElements(guarded: bool, s: seq<byte>, count: nat, tag: byte, nesting: nat): (r: Option<nat>)
    ensures r.Some? ==> r.value <= |s|
    decreases |s|, count + 2
  {
    if count == 0 then Some(0)
    else
      var element := SkipElement(guarded, s, tag, nesting);
      if element.None? then None
      else
        var rest := SkipElements(guarded, s[element.value..], count - 1, tag, nesting);
        if rest.None? then None else Some(element.value + rest.value)
  }
}
