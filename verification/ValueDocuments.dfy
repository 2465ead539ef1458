/** The two values that only a host writes: a packed document (tag 10) and a collection of documents (tag 11). */
module ValueDocuments {
  import opened Options
  import opened Bytes
  import opened ValueTree
  import opened ValueGrammar
  import opened ValueInverse

  /** An element of a collection: an opaque packed document, or an object in the plain encoding. */
  datatype Document = Packed(data: seq<byte>) | Plain(fields: seq<Field>)
  {
    predicate Fits() {
      Plain? ==> ValueTree.Fits(Object(fields), 0)
    }

    function Bytes(): (b: seq<byte>)
      ensures |b| >= 1
    {
      match this
      case Packed(data) => [10] + EncodeSlice(data)
      case Plain(fields) => Encode(Object(fields))
    }

    /** What the document stands for at a nesting level, or None if the host refuses it. */
    function Value(h: Host, nesting: nat): Option<Tree> {
      match this
      case Packed(data) => h.packed(data, nesting)
      case Plain(fields) =>
        if HasPending(Object(fields)) && !h.pendingAllowed then None else Some(Object(fields))
    }
  }

  /** The documents one after another. */
  function Concatenated(documents: seq<Document>): (b: seq<byte>)
    ensures |b| >= |documents|
  {
    if documents == [] then [] else documents[0].Bytes() + Concatenated(documents[1..])
  }

  /** The host is asked about exactly the bytes of a packed document, at the level where it is met. */
  lemma PackedInverts(h: Host, data: seq<byte>, rest: seq<byte>, nesting: nat)
    requires |data| < TWO_TO_THE_32
    ensures var s := Packed(data).Bytes() + rest;
            && s[0] == 10
            && Parse(h, s, nesting) ==
               match h.packed(data, nesting)
               case None => None
               case Some(t) => Some((t, 5 + |data|))
  {
    hide Slice, EncodeSlice;
    var s := Packed(data).Bytes() + rest;
    assert s[1..] == EncodeSlice(data) + rest;
    SliceInverts(data, rest);
  }

  lemma DocumentInverts(h: Host, d: Document, rest: seq<byte>)
    requires d.Fits() && |d.Bytes()| < TWO_TO_THE_32
    ensures StartsDocument(d.Bytes() + rest)
    ensures Parse(h, d.Bytes() + rest, 0) ==
            match d.Value(h, 0)
            case None => None
            case Some(t) => Some((t, |d.Bytes()|))
  {
    hide Parse, HasPending, ValueTree.Fits;
    match d
    case Packed(data) => PackedInverts(h, data, rest, 0);
    case Plain(fields) => ParseInverts(h, Object(fields), rest, 0);
  }

  /** Each item is the value of the document in its place. */
  ghost predicate AreValues(h: Host, documents: seq<Document>, items: seq<Tree>) {
    |items| == |documents| && forall k | 0 <= k < |items| :: documents[k].Value(h, 0) == Some(items[k])
  }

  lemma ItemsUnfold(h: Host, s: seq<byte>, count: nat)
    ensures ParseItems(h, s, count, true, 0) ==
            if count == 0 then Some(([], 0))
            else if !StartsDocument(s) then None
            else
              var item := Parse(h, s, 0);
              if item.None? then None
              else
                var items := ParseItems(h, s[item.value.1..], count - 1, true, 0);
                if items.None? then None else Some(([item.value.0] + items.value.0, item.value.1 + items.value.1))
  {
  }

  lemma {:induction false} DocumentsInvert(h: Host, documents: seq<Document>, rest: seq<byte>)
    requires (forall d | d in documents :: d.Fits()) && |Concatenated(documents)| < TWO_TO_THE_32
    ensures var r := ParseItems(h, Concatenated(documents) + rest, |documents|, true, 0);
            && (r.Some? <==> forall d | d in documents :: d.Value(h, 0).Some?)
            && (r.Some? ==> AreValues(h, documents, r.value.0) && r.value.1 == |Concatenated(documents)|)
  {
    hide Parse, StartsDocument, Document.Bytes, Document.Value, Document.Fits, ParseItems;
    ItemsUnfold(h, Concatenated(documents) + rest, |documents|);
    if documents != [] {
      var front, back := documents[0].Bytes(), Concatenated(documents[1..]);
      DocumentInverts(h, documents[0], back + rest);
      DocumentsInvert(h, documents[1..], rest);
      Shift(front, back, rest);
      assert documents == [documents[0]] + documents[1..];
    }
  }

  /**
   * A collection gives the values of its documents in order, each decoded as at the outermost level,
   * whatever follows; it is refused exactly if one of them is.
   */
  lemma CollectionInverts(h: Host, documents: seq<Document>, rest: seq<byte>, nesting: nat)
    requires (forall d | d in documents :: d.Fits()) && |Concatenated(documents)| < TWO_TO_THE_32
    requires |documents| <= MAX_ARRAY_LENGTH && nesting < MAX_NESTING
    ensures var r := Parse(h, [11] + U32(|documents|) + Concatenated(documents) + rest, nesting);
            && (r.Some? <==> forall d | d in documents :: d.Value(h, 0).Some?)
            && (r.Some? ==> r.value.0.Array? && AreValues(h, documents, r.value.0.items)
                            && r.value.1 == 5 + |Concatenated(documents)|)
  {
    hide ParseItems, Concatenated, AreValues;
    var s := [11] + U32(|documents|) + Concatenated(documents) + rest;
    assert s[1..5] == U32(|documents|);
    ReadU32Inverts(|documents|);
    assert s[5..] == Concatenated(documents) + rest;
    DocumentsInvert(h, documents, rest);
  }

  /** A collection of anything else is refused. */
  lemma OnlyDocuments(h: Host, count: nat, s: seq<byte>, nesting: nat)
    requires 0 < count <= MAX_ARRAY_LENGTH && !StartsDocument(s)
    ensures Parse(h, [11] + U32(count) + s, nesting).None?
  {
    var front := [11] + U32(count) + s;
    assert front[1..5] == U32(count);
    ReadU32Inverts(count);
    assert front[5..] == s;
  }
}
