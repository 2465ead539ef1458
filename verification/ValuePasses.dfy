/** Decoding a CVA1 value and skipping it agree, and the guards on counts change neither. */
module ValuePasses {
  import opened Options
  import opened Bytes
  import opened ValueGrammar

  // ----- the two passes agree -----

  /** Whatever can be decoded can be skipped, and skipping stops at the same byte. */
  lemma {:induction false} SkipFollowsParse(h: Host, s: seq<byte>, nesting: nat)
    requires Parse(h, s, nesting).Some?
    ensures Skip(h.guarded, s, nesting) == Some(Parse(h, s, nesting).value.1)
    decreases |s|, 0
  {
    hide ParseItems, ParseFields, SkipElements, Slice;
    if IsContainer(s[0]) {
      var count := Count(h.guarded, s, nesting).value;
      if s[0] == 8 {
        SkipFollowsParseFields(h, s[5..], count, nesting + 1);
      } else {
        SkipFollowsParseItems(h, s[5..], count, s[0], if s[0] == 11 then 0 else nesting + 1);
      }
    }
  }

  lemma {:induction false} SkipFollowsParseItems(h: Host, s: seq<byte>, count: nat, tag: byte, nesting: nat)
    requires tag == 7 || tag == 11
    requires ParseItems(h, s, count, tag == 11, nesting).Some?
    ensures SkipElements(h.guarded, s, count, tag, nesting)
         == Some(ParseItems(h, s, count, tag == 11, nesting).value.1)
    decreases |s|, count + 1
  {
    hide Parse, Skip;
    if count != 0 {
      SkipFollowsParse(h, s, nesting);
      var used := Parse(h, s, nesting).value.1;
      SkipFollowsParseItems(h, s[used..], count - 1, tag, nesting);
    }
  }

  lemma {:induction false} SkipFollowsParseFields(h: Host, s: seq<byte>, count: nat, nesting: nat)
    requires ParseFields(h, s, count, nesting).Some?
    ensures SkipElements(h.guarded, s, count, 8, nesting) == Some(ParseFields(h, s, count, nesting).value.1)
    decreases |s|, count + 1
  {
    hide Parse, Skip, Slice;
    if count != 0 {
      SkipFollowsParse(h, s[Slice(s).value.1..], nesting);
      var used := ParseField(h, s, nesting).value.1;
      SkipFollowsParseFields(h, s[used..], count - 1, nesting);
    }
  }

  /** A host that allows the sentinel and accepts every packed document. */
  ghost predicate Lenient(h: Host) {
    h.pendingAllowed && forall d, n :: h.packed(d, n).Some?
  }

  /** With a lenient host the converse holds too: skipping succeeds exactly when decoding does. */
  lemma {:induction false} ParseFollowsSkip(h: Host, s: seq<byte>, nesting: nat)
    requires Lenient(h)
    ensures Skip(h.guarded, s, nesting).Some? <==> Parse(h, s, nesting).Some?
    decreases |s|, 0
  {
    if Parse(h, s, nesting).Some? {
      SkipFollowsParse(h, s, nesting);
    } else if Skip(h.guarded, s, nesting).Some? && IsContainer(s[0]) {
      var count := Count(h.guarded, s, nesting).value;
      ParseFollowsSkipElements(h, s[5..], count, s[0], if s[0] == 11 then 0 else nesting + 1);
    }
  }

  lemma {:induction false} ParseFollowsSkipElements(h: Host, s: seq<byte>, count: nat, tag: byte, nesting: nat)
    requires Lenient(h) && IsContainer(tag)
    requires SkipElements(h.guarded, s, count, tag, nesting).Some?
    ensures tag == 8 ==> ParseFields(h, s, count, nesting).Some?
    ensures tag != 8 ==> ParseItems(h, s, count, tag == 11, nesting).Some?
    decreases |s|, count + 1
  {
    hide Parse, Skip, Slice, ParseField, SkipElement;
    if count != 0 {
      var used := SkipElement(h.guarded, s, tag, nesting).value;
      ParseFollowsSkipElements(h, s[used..], count - 1, tag, nesting);
      ParseFollowsSkipElement(h, s, tag, nesting);
    }
  }

  lemma {:induction false} ParseFollowsSkipElement(h: Host, s: seq<byte>, tag: byte, nesting: nat)
    requires Lenient(h) && IsContainer(tag)
    requires SkipElement(h.guarded, s, tag, nesting).Some?
    ensures var used := SkipElement(h.guarded, s, tag, nesting).value;
            if tag == 8 then ParseField(h, s, nesting).Some? && ParseField(h, s, nesting).value.1 == used
            else (tag == 11 ==> StartsDocument(s)) && Parse(h, s, nesting).Some? && Parse(h, s, nesting).value.1 == used
    decreases |s|, 1
  {
    hide Parse, Skip, Slice;
    if tag == 8 {
      var value := s[Slice(s).value.1..];
      ParseFollowsSkip(h, value, nesting);
      SkipFollowsParse(h, value, nesting);
    } else {
      ParseFollowsSkip(h, s, nesting);
      SkipFollowsParse(h, s, nesting);
    }
  }

  // ----- the count guards reject nothing that would not be truncated -----

  lemma {:induction false} ItemsUseBytes(h: Host, s: seq<byte>, count: nat, documents: bool, nesting: nat)
    requires ParseItems(h, s, count, documents, nesting).Some?
    ensures ParseItems(h, s, count, documents, nesting).value.1 >= count
    decreases count
  {
    if count != 0 {
      ItemsUseBytes(h, s[Parse(h, s, nesting).value.1..], count - 1, documents, nesting);
    }
  }

  lemma {:induction false} FieldsUseBytes(h: Host, s: seq<byte>, count: nat, nesting: nat)
    requires ParseFields(h, s, count, nesting).Some?
    ensures ParseFields(h, s, count, nesting).value.1 >= 5 * count
    decreases count
  {
    if count != 0 {
      FieldsUseBytes(h, s[ParseField(h, s, nesting).value.1..], count - 1, nesting);
    }
  }

  /** Dropping the guards changes neither what is accepted nor what is decoded. */
  lemma {:induction false} GuardsAreRedundant(h: Host, s: seq<byte>, nesting: nat)
    ensures Parse(h.(guarded := true), s, nesting) == Parse(h.(guarded := false), s, nesting)
    decreases |s|, 0
  {
    hide ParseItems, ParseFields, ParseLeaf;
    var g, u := h.(guarded := true), h.(guarded := false);
    if s == [] {
    } else if !IsContainer(s[0]) {
      LeafIgnoresGuards(h, s, nesting);
    } else if Count(false, s, nesting).Some? {
      var count := Count(false, s, nesting).value;
      if s[0] == 8 {
        GuardsAreRedundantFields(h, s[5..], count, nesting + 1);
        if ParseFields(u, s[5..], count, nesting + 1).Some? {
          FieldsUseBytes(u, s[5..], count, nesting + 1);
        }
      } else {
        var level := if s[0] == 11 then 0 else nesting + 1;
        GuardsAreRedundantItems(h, s[5..], count, s[0] == 11, level);
        if ParseItems(u, s[5..], count, s[0] == 11, level).Some? {
          ItemsUseBytes(u, s[5..], count, s[0] == 11, level);
        }
      }
    }
  }

  lemma LeafIgnoresGuards(h: Host, s: seq<byte>, nesting: nat)
    requires s != []
    ensures ParseLeaf(h.(guarded := true), s, nesting) == ParseLeaf(h.(guarded := false), s, nesting)
  {
  }

  lemma {:induction false} GuardsAreRedundantItems(h: Host, s: seq<byte>, count: nat, documents: bool, nesting: nat)
    ensures ParseItems(h.(guarded := true), s, count, documents, nesting)
         == ParseItems(h.(guarded := false), s, count, documents, nesting)
    decreases |s|, count + 1
  {
    hide Parse;
    if count != 0 {
      GuardsAreRedundant(h, s, nesting);
      var item := Parse(h.(guarded := false), s, nesting);
      if item.Some? {
        GuardsAreRedundantItems(h, s[item.value.1..], count - 1, documents, nesting);
      }
    }
  }

  lemma {:induction false} GuardsAreRedundantFields(h: Host, s: seq<byte>, count: nat, nesting: nat)
    ensures ParseFields(h.(guarded := true), s, count, nesting) == ParseFields(h.(guarded := false), s, count, nesting)
    decreases |s|, count + 1
  {
    hide ParseField, Slice;
    if count != 0 {
      assert ParseField(h.(guarded := true), s, nesting) == ParseField(h.(guarded := false), s, nesting) by {
        if Slice(s).Some? {
          GuardsAreRedundant(h, s[Slice(s).value.1..], nesting);
        }
        FieldFollowsValue(h, s, nesting);
      }
      var field := ParseField(h.(guarded := false), s, nesting);
      if field.Some? {
        GuardsAreRedundantFields(h, s[field.value.1..], count - 1, nesting);
      }
    }
  }

  lemma FieldFollowsValue(h: Host, s: seq<byte>, nesting: nat)
    requires Slice(s).Some? ==>
      var value := s[Slice(s).value.1..];
      Parse(h.(guarded := true), value, nesting) == Parse(h.(guarded := false), value, nesting)
    ensures ParseField(h.(guarded := true), s, nesting) == ParseField(h.(guarded := false), s, nesting)
  {
    hide Parse, Slice;
  }

  lemma {:induction false} ElementsUseBytes(guarded: bool, s: seq<byte>, count: nat, tag: byte, nesting: nat)
    requires SkipElements(guarded, s, count, tag, nesting).Some?
    ensures SkipElements(guarded, s, count, tag, nesting).value >= count * (if tag == 8 then 5 else 1)
    decreases count
  {
    if count != 0 {
      var used := SkipElement(guarded, s, tag, nesting).value;
      ElementsUseBytes(guarded, s[used..], count - 1, tag, nesting);
    }
  }

  /** Nor do the guards change what can be skipped, or where skipping stops. */
  lemma {:induction false} SkipGuardsAreRedundant(s: seq<byte>, nesting: nat)
    ensures Skip(true, s, nesting) == Skip(false, s, nesting)
    decreases |s|, 0
  {
    hide SkipElements;
    if s != [] && IsContainer(s[0]) && Count(false, s, nesting).Some? {
      var count, level := Count(false, s, nesting).value, if s[0] == 11 then 0 else nesting + 1;
      SkipElementsGuards(s[5..], count, s[0], level);
      if SkipElements(false, s[5..], count, s[0], level).Some? {
        ElementsUseBytes(false, s[5..], count, s[0], level);
      }
    }
  }

  lemma {:induction false} SkipElementsGuards(s: seq<byte>, count: nat, tag: byte, nesting: nat)
    ensures SkipElements(true, s, count, tag, nesting) == SkipElements(false, s, count, tag, nesting)
    decreases |s|, count + 2
  {
    hide SkipElement;
    if count != 0 {
      SkipElementGuards(s, tag, nesting);
      var element := SkipElement(false, s, tag, nesting);
      if element.Some? {
        SkipElementsGuards(s[element.value..], count - 1, tag, nesting);
      }
    }
  }

  lemma SkipElementGuards(s: seq<byte>, tag: byte, nesting: nat)
    ensures SkipElement(true, s, tag, nesting) == SkipElement(false, s, tag, nesting)
    decreases |s|, 1
  {
    hide Skip, Slice;
    if tag == 8 {
      var key := Slice(s);
      if key.Some? {
        SkipGuardsAreRedundant(s[key.value.1..], nesting);
      }
    } else {
      SkipGuardsAreRedundant(s, nesting);
    }
  }
}
