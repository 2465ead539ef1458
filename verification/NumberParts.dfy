/** Splitting a formatted number into parts by the fields that cover it. */
module NumberParts {
  import opened Options
  import opened Ordering

  datatype FieldRange = FieldRange(begin: nat, end: nat, kind: nat)

  datatype Part = Part(kind: string, value: string)

  const LITERAL := "literal"

  predicate InText(fields: seq<FieldRange>, length: nat) {
    forall f | f in fields :: f.begin <= f.end <= length
  }

  // ----- which field a stretch of text belongs to -----

  predicate Spans(f: FieldRange, begin: nat, end: nat) {
    f.begin <= begin && end <= f.end
  }

  function Width(f: FieldRange): int {
    f.end - f.begin
  }

  /** The first of the narrowest fields that span the stretch. */
  predicate IsNarrowest(fields: seq<FieldRange>, begin: nat, end: nat, i: nat) {
    && i < |fields| && Spans(fields[i], begin, end)
    && forall j | 0 <= j < |fields| && Spans(fields[j], begin, end) ::
         Width(fields[i]) <= Width(fields[j]) && (j < i ==> Width(fields[i]) < Width(fields[j]))
  }

  ghost predicate NoneSpans(fields: seq<FieldRange>, begin: nat, end: nat) {
    forall j | 0 <= j < |fields| :: !Spans(fields[j], begin, end)
  }

  /** The type of a stretch; kinds of fields are named by the adapter. */
  ghost function TypeOf(fields: seq<FieldRange>, name: nat -> string, begin: nat, end: nat): string {
    if i: nat :| IsNarrowest(fields, begin, end, i) then name(fields[i].kind) else LITERAL
  }

  lemma NarrowestIsUnique(fields: seq<FieldRange>, begin: nat, end: nat, i: nat, j: nat)
    requires IsNarrowest(fields, begin, end, i) && IsNarrowest(fields, begin, end, j)
    ensures i == j
  {
  }

  method SelectField(fields: seq<FieldRange>, begin: nat, end: nat) returns (selected: Option<nat>)
    ensures selected.Some? ==> IsNarrowest(fields, begin, end, selected.value)
    ensures selected.None? ==> NoneSpans(fields, begin, end)
  {
    selected := None;
    var i := 0;
    while i < |fields|
      invariant 0 <= i <= |fields|
      invariant selected.None? ==> forall j | 0 <= j < i :: !Spans(fields[j], begin, end)
      invariant selected.Some? ==> selected.value < i && IsNarrowest(fields[..i], begin, end, selected.value)
    {
      var f := fields[i];
      if f.begin <= begin && f.end >= end && (selected.None? || Width(f) < Width(fields[selected.value])) {
        selected := Some(i);
      }
      i := i + 1;
    }
    assert fields[..i] == fields;
  }

  // ----- endpoints -----

  function EndpointsOf(fields: seq<FieldRange>): seq<nat> {
    if fields == [] then [] else [fields[0].begin, fields[0].end] + EndpointsOf(fields[1..])
  }

  lemma {:induction false} EndpointsAre(fields: seq<FieldRange>)
    ensures forall x :: x in EndpointsOf(fields) <==> exists f :: f in fields && (x == f.begin || x == f.end)
  {
    if fields != [] {
      EndpointsAre(fields[1..]);
      assert fields == [fields[0]] + fields[1..];
    }
  }

  /** The places where the text can be cut: its ends and those of all fields, in order, each once. */
  ghost predicate Cuts(endpoints: seq<nat>, fields: seq<FieldRange>, length: nat) {
    && endpoints != [] && endpoints[0] == 0 && endpoints[|endpoints| - 1] == length
    && (forall i | 0 < i < |endpoints| :: endpoints[i - 1] < endpoints[i])
    && (forall f | f in fields :: f.begin in endpoints && f.end in endpoints)
  }

  method FindEndpoints(fields: seq<FieldRange>, length: nat) returns (endpoints: seq<nat>)
    requires InText(fields, length)
    ensures Cuts(endpoints, fields, length)
  {
    var all := [0, length];
    var i := 0;
    while i < |fields|
      invariant 0 <= i <= |fields| && all == [0, length] + EndpointsOf(fields[..i])
    {
      assert fields[..i + 1] == fields[..i] + [fields[i]];
      EndpointsSnoc(fields[..i], fields[i]);
      all := all + [fields[i].begin, fields[i].end];
      i := i + 1;
    }
    assert fields[..i] == fields;
    endpoints := Unique(Sort(Le, all));
    EndpointsAre(fields);
    SortedCuts(all, endpoints, fields, length);
  }

  lemma {:induction false} EndpointsSnoc(fields: seq<FieldRange>, f: FieldRange)
    ensures EndpointsOf(fields + [f]) == EndpointsOf(fields) + [f.begin, f.end]
  {
    if fields != [] {
      EndpointsSnoc(fields[1..], f);
      assert (fields + [f])[1..] == fields[1..] + [f];
    }
  }

  lemma SortedCuts(all: seq<nat>, endpoints: seq<nat>, fields: seq<FieldRange>, length: nat)
    requires endpoints == Unique(Sort(Le, all)) && InText(fields, length)
    requires forall x :: x in all <==> x == 0 || x == length || exists f :: f in fields && (x == f.begin || x == f.end)
    ensures Cuts(endpoints, fields, length)
  {
    LeIsOrder();
    SortMeans(Le, all);
    UniqueAscends(Le, Sort(Le, all));
    assert forall x :: x in endpoints <==> x in all;
    assert 0 in endpoints && length in endpoints;
    assert forall x | x in endpoints :: x <= length;
    var i :| 0 <= i < |endpoints| && endpoints[i] == 0;
    var j :| 0 <= j < |endpoints| && endpoints[j] == length;
    assert endpoints[|endpoints| - 1] in endpoints;
    AscendingMeans(endpoints);
  }

  lemma AscendingMeans(s: seq<nat>)
    requires Ascending(Le, s)
    ensures forall i, j | 0 <= i < j < |s| :: s[i] < s[j]
  {
    forall i, j | 0 <= i < j < |s|
      ensures s[i] < s[j]
    {
      assert Le(s[i], s[j]) && s[i] != s[j];
    }
  }

  /** Between two neighbouring cuts a field covers all characters or none. */
  lemma NoCutBetween(endpoints: seq<nat>, fields: seq<FieldRange>, length: nat, i: nat, f: FieldRange, k: nat)
    requires Cuts(endpoints, fields, length) && 0 < i < |endpoints| && f in fields
    requires endpoints[i - 1] <= k < endpoints[i]
    ensures Spans(f, endpoints[i - 1], endpoints[i]) <==> Spans(f, k, k + 1)
  {
    CutsAscend(endpoints, fields, length);
    var b :| 0 <= b < |endpoints| && endpoints[b] == f.begin;
    var e :| 0 <= e < |endpoints| && endpoints[e] == f.end;
    assert b <= i - 1 || b >= i;
    assert e <= i - 1 || e >= i;
  }

  lemma {:induction false} CutsAscend(endpoints: seq<nat>, fields: seq<FieldRange>, length: nat)
    requires Cuts(endpoints, fields, length)
    ensures forall i, j | 0 <= i < j < |endpoints| :: endpoints[i] < endpoints[j]
  {
    forall i, j | 0 <= i < j < |endpoints|
      ensures endpoints[i] < endpoints[j]
    {
      CutsAscendTo(endpoints, fields, length, i, j);
    }
  }

  lemma {:induction false} CutsAscendTo(endpoints: seq<nat>, fields: seq<FieldRange>, length: nat, i: nat, j: nat)
    requires Cuts(endpoints, fields, length) && i < j < |endpoints|
    ensures endpoints[i] < endpoints[j]
    decreases j
  {
    assert endpoints[j - 1] < endpoints[j];
    if i < j - 1 {
      CutsAscendTo(endpoints, fields, length, i, j - 1);
    }
  }

  lemma SameTypeBetween(endpoints: seq<nat>, fields: seq<FieldRange>, name: nat -> string, length: nat, i: nat, k: nat)
    requires Cuts(endpoints, fields, length) && 0 < i < |endpoints| && endpoints[i - 1] <= k < endpoints[i]
    ensures TypeOf(fields, name, endpoints[i - 1], endpoints[i]) == TypeOf(fields, name, k, k + 1)
  {
    hide Cuts, Spans;
    var b, e := endpoints[i - 1], endpoints[i];
    forall j | 0 <= j < |fields|
      ensures Spans(fields[j], b, e) <==> Spans(fields[j], k, k + 1)
    {
      NoCutBetween(endpoints, fields, length, i, fields[j], k);
    }
    forall j: nat
      ensures IsNarrowest(fields, b, e, j) <==> IsNarrowest(fields, k, k + 1, j)
    {
    }
    TypeIsThat(fields, name, b, e);
    TypeIsThat(fields, name, k, k + 1);
  }

  lemma TypeIsThat(fields: seq<FieldRange>, name: nat -> string, begin: nat, end: nat)
    ensures forall i: nat | IsNarrowest(fields, begin, end, i) ::
              TypeOf(fields, name, begin, end) == name(fields[i].kind)
    ensures (forall i: nat :: !IsNarrowest(fields, begin, end, i)) ==> TypeOf(fields, name, begin, end) == LITERAL
  {
    hide Spans;
    forall i: nat | IsNarrowest(fields, begin, end, i)
      ensures TypeOf(fields, name, begin, end) == name(fields[i].kind)
    {
      forall j: nat | IsNarrowest(fields, begin, end, j)
        ensures j == i
      {
        NarrowestIsUnique(fields, begin, end, i, j);
      }
    }
  }

  // ----- grouping -----

  /** The type of every character. */
  ghost function Types(fields: seq<FieldRange>, name: nat -> string, length: nat): seq<string> {
    seq(length, k requires 0 <= k < length => TypeOf(fields, name, k, k + 1))
  }

  function Add(parts: seq<Part>, kind: string, value: string): seq<Part> {
    if parts != [] && parts[|parts| - 1].kind == kind then
      parts[..|parts| - 1] + [Part(kind, parts[|parts| - 1].value + value)]
    else parts + [Part(kind, value)]
  }

  /** Neighbouring characters of one type make one part. */
  function Grouped(types: seq<string>, text: string): seq<Part>
    requires |types| == |text|
  {
    if text == [] then []
    else
      var last := |text| - 1;
      Add(Grouped(types[..last], text[..last]), types[last], [text[last]])
  }

  function Joined(parts: seq<Part>): string {
    if parts == [] then "" else Joined(parts[..|parts| - 1]) + parts[|parts| - 1].value
  }

  ghost predicate Alternating(parts: seq<Part>) {
    && (forall i | 0 <= i < |parts| :: parts[i].value != "")
    && (forall i | 0 < i < |parts| :: parts[i - 1].kind != parts[i].kind)
  }

  lemma AddJoins(parts: seq<Part>, kind: string, value: string)
    ensures Joined(Add(parts, kind, value)) == Joined(parts) + value
  {
    var r := Add(parts, kind, value);
    assert r[..|r| - 1] == if |r| == |parts| then parts[..|parts| - 1] else parts;
  }

  lemma AddAlternates(parts: seq<Part>, kind: string, value: string)
    requires Alternating(parts) && value != ""
    ensures Alternating(Add(parts, kind, value))
  {
  }

  /** The parts spell the text, none is empty, and neighbours differ in type. */
  lemma {:induction false} GroupedJoins(types: seq<string>, text: string)
    requires |types| == |text|
    ensures Joined(Grouped(types, text)) == text && Alternating(Grouped(types, text))
    decreases |text|
  {
    hide Joined, Alternating, Add;
    if text == [] {
      NoParts();
    } else {
      var last := |text| - 1;
      var before := Grouped(types[..last], text[..last]);
      GroupedJoins(types[..last], text[..last]);
      AddJoins(before, types[last], [text[last]]);
      AddAlternates(before, types[last], [text[last]]);
      assert text == text[..last] + [text[last]];
    }
  }

  /** The type of each character, read back from the parts. */
  function Spread(parts: seq<Part>): seq<string> {
    if parts == [] then []
    else
      var last := parts[|parts| - 1];
      Spread(parts[..|parts| - 1]) + seq(|last.value|, _ => last.kind)
  }

  lemma AddSpreads(parts: seq<Part>, kind: string, value: string)
    ensures Spread(Add(parts, kind, value)) == Spread(parts) + seq(|value|, _ => kind)
  {
    var r := Add(parts, kind, value);
    assert r[..|r| - 1] == if |r| == |parts| then parts[..|parts| - 1] else parts;
    if |r| == |parts| {
      var n := |parts[|parts| - 1].value|;
      assert seq(n + |value|, _ => kind) == seq(n, _ => kind) + seq(|value|, _ => kind);
    }
  }

  lemma {:induction false} GroupedSpreads(types: seq<string>, text: string)
    requires |types| == |text|
    ensures Spread(Grouped(types, text)) == types
    decreases |text|
  {
    hide Spread;
    if text == [] {
      NoParts();
    } else {
      var last := |text| - 1;
      GroupedSpreads(types[..last], text[..last]);
      AddSpreads(Grouped(types[..last], text[..last]), types[last], [text[last]]);
      assert types == types[..last] + [types[last]];
    }
  }

  /** Only one list of parts alternates, spells the text and gives each character its type. */
  lemma {:induction false} GroupingIsUnique(parts: seq<Part>)
    requires Alternating(parts)
    ensures |Spread(parts)| == |Joined(parts)| && parts == Grouped(Spread(parts), Joined(parts))
    decreases |parts|
  {
    hide Grouped;
    if parts == [] {
      NoParts();
    } else {
      var last := |parts| - 1;
      var before, part := parts[..last], parts[last];
      GroupingIsUnique(before);
      GroupedStretch(Spread(before), Joined(before), part.kind, part.value);
      assert parts == Add(before, part.kind, part.value) by {
        assert before == [] || before[last - 1] == parts[last - 1];
      }
    }
  }

  lemma GroupedSnoc(types: seq<string>, text: string, kind: string, c: char)
    requires |types| == |text|
    ensures Grouped(types + [kind], text + [c]) == Add(Grouped(types, text), kind, [c])
  {
    var longer, all := types + [kind], text + [c];
    assert longer[..|text|] == types && all[..|text|] == text;
  }

  /** A stretch of one type is added as a whole. */
  lemma {:induction false} GroupedStretch(types: seq<string>, text: string, kind: string, value: string)
    requires |types| == |text| && value != ""
    ensures Grouped(types + seq(|value|, _ => kind), text + value) == Add(Grouped(types, text), kind, value)
    decreases |value|
  {
    hide Grouped, Add;
    var m := |value| - 1;
    var front, kinds := value[..m], seq(m, _ => kind);
    assert value == front + [value[m]];
    assert seq(|value|, _ => kind) == kinds + [kind];
    GroupedSnoc(types + kinds, text + front, kind, value[m]);
    assert types + (kinds + [kind]) == types + kinds + [kind];
    assert text + value == text + front + [value[m]];
    if m == 0 {
      assert types + kinds == types && text + front == text && value == [value[m]];
    } else {
      GroupedStretch(types, text, kind, front);
      AddTwice(Grouped(types, text), kind, front, [value[m]]);
    }
  }

  lemma AddTwice(parts: seq<Part>, kind: string, a: string, b: string)
    ensures Add(Add(parts, kind, a), kind, b) == Add(parts, kind, a + b)
  {
    if parts != [] && parts[|parts| - 1].kind == kind {
      assert parts[|parts| - 1].value + a + b == parts[|parts| - 1].value + (a + b);
    }
  }

  /** The parts of a formatted number: its characters grouped by the type of the narrowest field around each. */
  method FormatToParts(formatted: string, fields: seq<FieldRange>, name: nat -> string) returns (parts: seq<Part>)
    requires InText(fields, |formatted|)
    ensures parts == Grouped(Types(fields, name, |formatted|), formatted)
  {
    hide Cuts, TypeOf, Grouped, IsNarrowest;
    ghost var types := Types(fields, name, |formatted|);
    var endpoints := FindEndpoints(fields, |formatted|);
    CutsMean(endpoints, fields, |formatted|);
    parts := [];
    assert types[..0] == [] && formatted[..0] == [];
    NoParts();
    var i := 1;
    while i < |endpoints|
      invariant 1 <= i <= |endpoints|
      invariant parts == Grouped(types[..endpoints[i - 1]], formatted[..endpoints[i - 1]])
    {
      var begin, end := endpoints[i - 1], endpoints[i];
      var selected := SelectField(fields, begin, end);
      SelectedType(fields, name, begin, end, selected);
      var kind := if selected.Some? then name(fields[selected.value].kind) else LITERAL;
      var value := formatted[begin..end];
      forall k | begin <= k < end
        ensures types[k] == kind
      {
        SameTypeBetween(endpoints, fields, name, |formatted|, i, k);
      }
      assert types[..end] == types[..begin] + seq(|value|, _ => kind);
      assert formatted[..end] == formatted[..begin] + value;
      GroupedStretch(types[..begin], formatted[..begin], kind, value);
      if parts != [] && parts[|parts| - 1].kind == kind {
        parts := parts[|parts| - 1 := Part(kind, parts[|parts| - 1].value + value)];
      } else {
        parts := parts + [Part(kind, value)];
      }
      i := i + 1;
    }
    assert types[..|formatted|] == types && formatted[..|formatted|] == formatted;
  }

  lemma NoParts()
    ensures Grouped([], []) == [] && Alternating([]) && Joined([]) == "" && Spread([]) == []
  {
  }

  lemma CutsMean(endpoints: seq<nat>, fields: seq<FieldRange>, length: nat)
    requires Cuts(endpoints, fields, length)
    ensures endpoints != [] && endpoints[0] == 0 && endpoints[|endpoints| - 1] == length
    ensures forall i, j | 0 <= i < j < |endpoints| :: endpoints[i] < endpoints[j]
    ensures forall i | 0 <= i < |endpoints| :: endpoints[i] <= length
  {
    CutsAscend(endpoints, fields, length);
  }

  lemma SelectedType(fields: seq<FieldRange>, name: nat -> string, begin: nat, end: nat, selected: Option<nat>)
    requires selected.Some? ==> IsNarrowest(fields, begin, end, selected.value)
    requires selected.None? ==> NoneSpans(fields, begin, end)
    ensures TypeOf(fields, name, begin, end) ==
            if selected.Some? then name(fields[selected.value].kind) else LITERAL
  {
    TypeIsThat(fields, name, begin, end);
  }
}
