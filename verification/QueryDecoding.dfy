/** Reading the body of a CQR1 query back from its bytes, and what the bytes of a query say. */
module QueryDecoding {
  import opened Options
  import opened Bytes
  import opened Utf8
  import opened ValueTree
  import opened ValueGrammar
  import opened ValueInverse
  import opened QuerySpec

  // ----- what a reader gets -----

  datatype Node =
    | Constant(value: Option<seq<byte>>)
    | Path(utf8: seq<byte>)
    | Apply(tag: byte, operands: seq<Node>)

  datatype Part =
    | Bound(tag: byte, path: seq<byte>, value: Option<seq<byte>>)
    | Sought(path: seq<byte>, text: seq<byte>)
    | Kept(condition: Node)
    | Limited(count: nat)

  // ----- a decoder by the tags of the wire -----

  function ReadOptional(s: seq<byte>): (r: Option<(Option<seq<byte>>, nat)>)
    ensures r.Some? ==> 1 <= r.value.1 <= |s|
  {
    if s == [] then None
    else if s[0] == 0 then Some((None, 1))
    else if s[0] != 1 then None
    else
      match Slice(s[1..])
      case None => None
      case Some((data, length)) => Some((Some(data), 1 + length))
  }

  /** The number of operands of the operator at the front of s, and where they start. */
  function ReadArity(s: seq<byte>): (r: Option<(nat, nat)>)
    ensures r.Some? ==> 1 <= r.value.1 <= |s|
  {
    if s == [] then None
    else if 3 <= s[0] <= 13 then Some((2, 1))
    else if 14 <= s[0] <= 15 then Some((1, 1))
    else if 16 <= s[0] <= 17 && |s| >= 5 then Some((ReadU32(s[1..5]), 5))
    else None
  }

  function ReadNode(s: seq<byte>): (r: Option<(Node, nat)>)
    ensures r.Some? ==> 1 <= r.value.1 <= |s|
    decreases |s|, 0
  {
    if s == [] then None
    else if s[0] == 1 then
      match ReadOptional(s[1..])
      case None => None
      case Some((value, length)) => Some((Constant(value), 1 + length))
    else if s[0] == 2 then
      match Slice(s[1..])
      case None => None
      case Some((path, length)) => Some((Path(path), 1 + length))
    else
      match ReadArity(s)
      case None => None
      case Some((count, front)) =>
        match ReadNodes(s[front..], count)
        case None => None
        case Some((operands, length)) => Some((Apply(s[0], operands), front + length))
  }

  function ReadNodes(s: seq<byte>, count: nat): (r: Option<(seq<Node>, nat)>)
    ensures r.Some? ==> r.value.1 <= |s|
    decreases |s|, count + 1
  {
    if count == 0 then Some(([], 0))
    else
      match ReadNode(s)
      case None => None
      case Some((node, length)) =>
        match ReadNodes(s[length..], count - 1)
        case None => None
        case Some((nodes, lengths)) => Some(([node] + nodes, length + lengths))
  }

  /** The two properties of a constraint or filter: a path, then an optional value. */
  function ReadBound(s: seq<byte>): (r: Option<(Part, nat)>)
    ensures r.Some? ==> r.value.1 <= |s|
  {
    if s == [] then None
    else
      match Slice(s[1..])
      case None => None
      case Some((path, length)) =>
        match ReadOptional(s[1 + length..])
        case None => None
        case Some((value, more)) => Some((Bound(s[0], path, value), 1 + length + more))
  }

  function ReadSought(s: seq<byte>): (r: Option<(Part, nat)>)
    ensures r.Some? ==> r.value.1 <= |s|
  {
    if s == [] then None
    else
      match Slice(s[1..])
      case None => None
      case Some((path, length)) =>
        match Slice(s[1 + length..])
        case None => None
        case Some((text, more)) => Some((Sought(path, text), 1 + length + more))
  }

  function ReadOperator(s: seq<byte>): (r: Option<(Part, nat)>)
    ensures r.Some? ==> r.value.1 <= |s|
  {
    if s == [] then None
    else if s[0] == 1 then
      match ReadNode(s[1..])
      case None => None
      case Some((condition, length)) => Some((Kept(condition), 1 + length))
    else if s[0] == 2 && |s| >= 9 then Some((Limited(ReadU64(s[1..9])), 9))
    else None
  }

  function ReadPart(at: Position, s: seq<byte>): (r: Option<(Part, nat)>)
    ensures r.Some? ==> r.value.1 <= |s|
  {
    match at
    case Constraint => if s != [] && 1 <= s[0] <= 5 then ReadBound(s) else None
    case FirstFilter => if s != [] && s[0] == 1 then ReadSought(s) else None
    case LaterFilter => if s != [] && s[0] == 2 then ReadBound(s) else None
    case Operator => ReadOperator(s)
  }

  function ReadParts(at: Position, s: seq<byte>, count: nat): (r: Option<(seq<Part>, nat)>)
    ensures r.Some? ==> r.value.1 <= |s|
    decreases count
  {
    if count == 0 then Some(([], 0))
    else
      match ReadPart(at, s)
      case None => None
      case Some((part, length)) =>
        match ReadParts(at, s[length..], count - 1)
        case None => None
        case Some((parts, lengths)) => Some(([part] + parts, length + lengths))
  }

  /** A list behind its count, whose first element may stand in a position of its own. */
  function ReadList(first: Position, later: Position, s: seq<byte>): (r: Option<(seq<Part>, nat)>)
    ensures r.Some? ==> r.value.1 <= |s|
  {
    if |s| < 4 then None
    else
      var count := ReadU32(s[..4]);
      match ReadParts(first, s[4..], if count > 0 then 1 else 0)
      case None => None
      case Some((front, length)) =>
        match ReadParts(later, s[4 + length..], if count > 0 then count - 1 else 0)
        case None => None
        case Some((back, more)) => Some((front + back, 4 + length + more))
  }

  // ----- what an expression and a clause say -----

  ghost predicate Says(v: Operand, data: Option<seq<byte>>) {
    match data
    case None => v == Undefined
    case Some(d) => v == Operand.Buffer(d)
  }

  ghost predicate Spells(v: Operand, utf8: seq<byte>) {
    v.Str? && Utf8Of(Utf8.Text(v.chunks)) == Some(utf8)
  }

  ghost predicate Means(e: Expr, n: Node)
    decreases n
  {
    e.Plain? &&
    match n
    case Constant(value) => e.op.Literal? && Says(e.op.value, value)
    case Path(utf8) => e.op.FieldPath? && Spells(e.op.path, utf8)
    case Apply(tag, nodes) =>
      && e.op.Operation? && e.op.tag == tag && |e.op.operands| == |nodes|
      && forall k | 0 <= k < |nodes| :: Means(e.op.operands[k], nodes[k])
  }

  ghost predicate ClauseMeans(at: Position, c: Clause, p: Part) {
    match p
    case Bound(tag, path, value) =>
      && c.Typed? && Spells(c.path, path) && Says(c.value, value)
      && (match at
          case Constraint =>
            || (c.kind == Eq && tag == 1) || (c.kind == Gt && tag == 2) || (c.kind == Gte && tag == 3)
            || (c.kind == Lt && tag == 4) || (c.kind == Lte && tag == 5)
          case LaterFilter => c.kind == Eq && tag == 2
          case _ => false)
    case Sought(path, text) =>
      at == FirstFilter && c.Typed? && c.kind == Search && Spells(c.path, path) && Spells(c.value, text)
    case Kept(condition) => at == Operator && c.Filter? && Means(c.expr, condition)
    case Limited(count) => at == Operator && c.Limit? && c.value == Num(count as real)
  }

  ghost predicate ClausesMean(at: Position, cs: seq<Clause>, ps: seq<Part>) {
    |cs| == |ps| && forall k | 0 <= k < |cs| :: ClauseMeans(at, cs[k], ps[k])
  }

  // ----- no records -----

  predicate Recordless(e: Expr)
    decreases e
  {
    match e
    case Record(_) => false
    case Malformed => true
    case Plain(op) => op.Operation? ==> forall o | o in op.operands :: Recordless(o)
  }

  predicate RecordlessClause(c: Clause) {
    !c.ClauseRecord? && (c.Filter? ==> Recordless(c.expr))
  }

  // ----- the decoder inverts the encoding -----

  lemma OptionalInverts(v: Operand, rest: seq<byte>)
    requires OptionalValue(v).Some? && |OptionalValue(v).value| < TWO_TO_THE_32
    ensures var b := OptionalValue(v).value; var r := ReadOptional(b + rest);
            r.Some? && Says(v, r.value.0) && r.value.1 == |b|
  {
    hide Slice, EncodeSlice;
    if v.Buffer? {
      var s := OptionalValue(v).value + rest;
      EncodeSliceLength(v.data);
      assert s[1..] == EncodeSlice(v.data) + rest;
      SliceInverts(v.data, rest);
    }
  }

  lemma TextInverts(v: Operand, rest: seq<byte>)
    requires TextValue(v).Some? && |TextValue(v).value| < TWO_TO_THE_32
    ensures var b := TextValue(v).value; var r := Slice(b + rest);
            r.Some? && Spells(v, r.value.0) && r.value.1 == |b|
  {
    hide Slice, EncodeSlice;
    var utf8 := Streamed(v.chunks).value;
    StreamedMeans(v.chunks);
    EncodeSliceLength(utf8);
    SliceInverts(utf8, rest);
  }

  lemma ArityInverts(tag: OpTag, count: nat, rest: seq<byte>)
    requires ArityFits(tag, count)
    ensures var s := OpFront(tag, count) + rest;
            && s[0] == tag && ReadArity(s) == Some((count, |OpFront(tag, count)|))
            && s[|OpFront(tag, count)|..] == rest
  {
    if tag > 15 {
      var s := OpFront(tag, count) + rest;
      assert s[1..5] == U32(count);
      ReadU32Inverts(count);
    }
  }

  /** What is read back from an encoded expression says what the expression does, with its size and height. */
  lemma {:induction false} NodeInverts(e: Expr, rest: seq<byte>)
    requires Recordless(e) && ExprCost(e).Some? && |ExprCost(e).value.bytes| < TWO_TO_THE_32
    ensures var cost := ExprCost(e).value; var r := ReadNode(cost.bytes + rest);
            r.Some? && Means(e, r.value.0) && r.value.1 == |cost.bytes|
    decreases e, 1
  {
    hide Slice, ReadOptional, ReadArity, OptionalValue, TextValue, ReadNodes, ExprsCost, OpFront, Says, Spells;
    var bytes := ExprCost(e).value.bytes;
    var s := bytes + rest;
    match e.op
    case Literal(value) =>
      assert s[1..] == OptionalValue(value).value + rest;
      OptionalInverts(value, rest);
    case FieldPath(path) =>
      assert s[1..] == TextValue(path).value + rest;
      TextInverts(path, rest);
    case Operation(tag, operands) =>
      var front, back := OpFront(tag, |operands|), ExprsCost(operands).value.bytes;
      Shift(front, back, rest);
      ArityInverts(tag, |operands|, back + rest);
      NodesInvert(operands, rest);
  }

  lemma {:induction false} NodesInvert(es: seq<Expr>, rest: seq<byte>)
    requires (forall e | e in es :: Recordless(e)) && ExprsCost(es).Some?
    requires |ExprsCost(es).value.bytes| < TWO_TO_THE_32
    ensures var cost := ExprsCost(es).value; var r := ReadNodes(cost.bytes + rest, |es|);
            && r.Some? && |r.value.0| == |es| && r.value.1 == |cost.bytes|
            && forall k | 0 <= k < |es| :: Means(es[k], r.value.0[k])
    decreases es, 0
  {
    hide ReadNode, ExprCost, Recordless, Means;
    if es != [] {
      var first, others := ExprCost(es[0]).value, ExprsCost(es[1..]).value;
      NodeInverts(es[0], others.bytes + rest);
      NodesInvert(es[1..], rest);
      Shift(first.bytes, others.bytes, rest);
    }
  }

  lemma BoundInverts(tag: byte, path: Operand, value: Operand, rest: seq<byte>)
    requires var b := Join(Some([tag]), Join(TextValue(path), OptionalValue(value)));
             b.Some? && |b.value| < TWO_TO_THE_32
    ensures var b := Join(Some([tag]), Join(TextValue(path), OptionalValue(value))).value; var r := ReadBound(b + rest);
            && b[0] == tag && r.Some? && r.value.0.Bound? && r.value.1 == |b|
            && r.value.0.tag == tag && Spells(path, r.value.0.path) && Says(value, r.value.0.value)
  {
    hide Slice, ReadOptional, OptionalValue, TextValue, Says, Spells;
    var text, last := TextValue(path).value, OptionalValue(value).value;
    var s := [tag] + (text + last) + rest;
    assert s[1..] == text + (last + rest);
    assert s[1 + |text|..] == last + rest;
    TextInverts(path, last + rest);
    OptionalInverts(value, rest);
  }

  lemma SoughtInverts(path: Operand, value: Operand, rest: seq<byte>)
    requires var b := Join(Some([1]), Join(TextValue(path), TextValue(value)));
             b.Some? && |b.value| < TWO_TO_THE_32
    ensures var b := Join(Some([1]), Join(TextValue(path), TextValue(value))).value; var r := ReadSought(b + rest);
            && b[0] == 1 && r.Some? && r.value.0.Sought? && r.value.1 == |b|
            && Spells(path, r.value.0.path) && Spells(value, r.value.0.text)
  {
    hide Slice, TextValue, Spells;
    var text, last := TextValue(path).value, TextValue(value).value;
    var s := [1] + (text + last) + rest;
    assert s[1..] == text + (last + rest);
    assert s[1 + |text|..] == last + rest;
    TextInverts(path, last + rest);
    TextInverts(value, rest);
  }

  lemma LimitInverts(v: Operand, rest: seq<byte>)
    requires IntegerValue(v).Some?
    ensures var b := [2] + IntegerValue(v).value; var r := ReadOperator(b + rest);
            r.Some? && r.value.0.Limited? && v == Num(r.value.0.count as real) && r.value.1 == |b|
  {
    hide U64, ReadU64;
    var s := [2] + U64(v.value.Floor) + rest;
    assert s[1..9] == U64(v.value.Floor);
    ReadU64Inverts(v.value.Floor);
  }

  lemma KeptInverts(e: Expr, rest: seq<byte>)
    requires Recordless(e) && ExprCost(e).Some? && 1 + |ExprCost(e).value.bytes| < TWO_TO_THE_32
    ensures var b := [1] + ExprCost(e).value.bytes; var r := ReadOperator(b + rest);
            r.Some? && r.value.0.Kept? && Means(e, r.value.0.condition) && r.value.1 == |b|
  {
    hide ReadNode, ExprCost, Means, Recordless;
    var bytes := ExprCost(e).value.bytes;
    var s := [1] + bytes + rest;
    assert s[1..] == bytes + rest;
    NodeInverts(e, rest);
  }

  /** What is read back from an encoded clause, in its position, says what the clause does. */
  lemma PartInverts(at: Position, c: Clause, rest: seq<byte>)
    requires RecordlessClause(c) && ClauseCost(at, c).Some? && |ClauseCost(at, c).value.bytes| < TWO_TO_THE_32
    ensures var cost := ClauseCost(at, c).value; var r := ReadPart(at, cost.bytes + rest);
            r.Some? && ClauseMeans(at, c, r.value.0) && r.value.1 == |cost.bytes|
  {
    hide ReadBound, ReadSought, ReadOperator, OptionalValue, TextValue, IntegerValue, ExprCost, Says, Spells, Means;
    match c
    case Typed(kind, path, value) =>
      if at == FirstFilter {
        SoughtInverts(path, value, rest);
      } else {
        BoundInverts(if at == Constraint then KindByte(kind) else 2, path, value, rest);
      }
    case Filter(expr) => KeptInverts(expr, rest);
    case Limit(value) => LimitInverts(value, rest);
  }

  lemma {:induction false} PartsInvert(at: Position, cs: seq<Clause>, rest: seq<byte>)
    requires (forall c | c in cs :: RecordlessClause(c)) && ClausesCost(at, cs).Some?
    requires |ClausesCost(at, cs).value.bytes| < TWO_TO_THE_32
    ensures var cost := ClausesCost(at, cs).value; var r := ReadParts(at, cost.bytes + rest, |cs|);
            r.Some? && ClausesMean(at, cs, r.value.0) && r.value.1 == |cost.bytes|
    decreases cs
  {
    hide ReadPart, ClauseCost, RecordlessClause, ClauseMeans;
    if cs != [] {
      var first, others := ClauseCost(at, cs[0]).value.bytes, ClausesCost(at, cs[1..]).value.bytes;
      PartInverts(at, cs[0], others + rest);
      PartsInvert(at, cs[1..], rest);
      Shift(first, others, rest);
    }
  }

  // ----- whole queries -----

  datatype Body = Body(source: seq<Part>, operators: seq<Part>)

  /** The tag by which the header announces the kind of source. */
  function SourceTag(s: Source): byte {
    match s
    case TableScan => 1
    case IndexRange(_) => 2
    case SearchIndex(_) => 3
  }

  function ReadSource(tag: byte, s: seq<byte>): (r: Option<(seq<Part>, nat)>)
    ensures r.Some? ==> r.value.1 <= |s|
  {
    if tag == 1 then Some(([], 0))
    else if tag == 2 then ReadList(Constraint, Constraint, s)
    else ReadList(FirstFilter, LaterFilter, s)
  }

  /** What lies between the header and the pagination, and its length. */
  function ReadBody(tag: byte, s: seq<byte>): Option<(Body, nat)> {
    match ReadSource(tag, s)
    case None => None
    case Some((parts, length)) =>
      match ReadList(Operator, Operator, s[length..])
      case None => None
      case Some((operators, more)) => Some((Body(parts, operators), length + more))
  }

  ghost predicate ListMeans(first: Position, later: Position, cs: seq<Clause>, ps: seq<Part>) {
    |cs| == |ps| && forall k | 0 <= k < |cs| :: ClauseMeans(if k == 0 then first else later, cs[k], ps[k])
  }

  ghost predicate SourceMeans(s: Source, ps: seq<Part>) {
    match s
    case TableScan => ps == []
    case IndexRange(range) => ListMeans(Constraint, Constraint, range, ps)
    case SearchIndex(filters) => ListMeans(FirstFilter, LaterFilter, filters, ps)
  }

  ghost predicate BodyMeans(q: Query, b: Body) {
    SourceMeans(q.source, b.source) && ListMeans(Operator, Operator, q.operators, b.operators)
  }

  function ClausesOf(s: Source): seq<Clause> {
    match s
    case TableScan => []
    case IndexRange(range) => range
    case SearchIndex(filters) => filters
  }

  predicate RecordlessQuery(q: Query) {
    (forall c | c in ClausesOf(q.source) :: RecordlessClause(c)) && forall c | c in q.operators :: RecordlessClause(c)
  }

  /** The cost of a list whose first element may stand in a position of its own. */
  function SplitCost(first: Position, later: Position, cs: seq<Clause>): Option<Cost> {
    if cs == [] then Some(Cost(U32(0), 0, 0))
    else
      var front := ClauseCost(first, cs[0]);
      if front.None? then None else After(Plus(Cost(U32(|cs|), 0, 0), front.value), ClausesCost(later, cs[1..]))
  }

  lemma ListIsSplit(at: Position, cs: seq<Clause>)
    requires ListCost(at, cs).Some?
    ensures SplitCost(at, at, cs) == ListCost(at, cs) && |cs| <= MAX_OPERANDS
  {
    hide ClauseCost, U32;
    var count := Cost(U32(|cs|), 0, 0);
    if cs == [] {
      assert count.bytes + [] == count.bytes;
    } else {
      PlusIsAssociative(count, ClauseCost(at, cs[0]).value, ClausesCost(at, cs[1..]).value);
    }
  }

  lemma PlusIsAssociative(a: Cost, b: Cost, c: Cost)
    ensures Plus(Plus(a, b), c) == Plus(a, Plus(b, c))
  {
    assert (a.bytes + b.bytes) + c.bytes == a.bytes + (b.bytes + c.bytes);
  }

  lemma ReadListFront(first: Position, later: Position, s: seq<byte>, count: nat, part: Part, length: nat,
                      parts: seq<Part>, more: nat)
    requires |s| >= 4 && ReadU32(s[..4]) == count > 0
    requires ReadPart(first, s[4..]) == Some((part, length)) && length <= |s| - 4
    requires ReadParts(later, s[4 + length..], count - 1) == Some((parts, more))
    ensures ReadList(first, later, s) == Some(([part] + parts, 4 + length + more))
  {
    hide ReadPart, ReadParts, ReadU32;
    ReadOnePart(first, s[4..], part, length);
    assert s[4..][length..] == s[4 + length..];
  }

  lemma ReadOnePart(at: Position, s: seq<byte>, part: Part, length: nat)
    requires ReadPart(at, s) == Some((part, length))
    ensures ReadParts(at, s, 1) == Some(([part], length))
  {
    hide ReadPart;
    assert ReadParts(at, s[length..], 0) == Some(([], 0));
    assert [part] + [] == [part];
  }

  lemma ListMeansFront(first: Position, later: Position, cs: seq<Clause>, part: Part, parts: seq<Part>)
    requires cs != [] && ClauseMeans(first, cs[0], part) && ClausesMean(later, cs[1..], parts)
    ensures ListMeans(first, later, cs, [part] + parts)
  {
    hide ClauseMeans;
    assert ([part] + parts)[1..] == parts;
    forall k | 0 <= k < |cs|
      ensures ClauseMeans(if k == 0 then first else later, cs[k], ([part] + parts)[k])
    {
      if k > 0 {
        assert ClauseMeans(later, cs[1..][k - 1], parts[k - 1]);
      }
    }
  }

  lemma ListInverts(first: Position, later: Position, cs: seq<Clause>, rest: seq<byte>)
    requires (forall c | c in cs :: RecordlessClause(c)) && |cs| <= MAX_OPERANDS
    requires SplitCost(first, later, cs).Some? && |SplitCost(first, later, cs).value.bytes| < TWO_TO_THE_32
    ensures var cost := SplitCost(first, later, cs).value; var r := ReadList(first, later, cost.bytes + rest);
            r.Some? && ListMeans(first, later, cs, r.value.0) && r.value.1 == |cost.bytes|
  {
    hide ClauseCost, ClausesCost, ReadPart, ReadParts, ReadList, RecordlessClause, ClauseMeans, ClausesMean,
         U32, ReadU32;
    var cost := SplitCost(first, later, cs).value;
    var s := cost.bytes + rest;
    assert s[..4] == U32(|cs|);
    ReadU32Inverts(|cs|);
    if cs == [] {
      ReadNoList(first, later, s);
    } else {
      var a, b := ClauseCost(first, cs[0]).value, ClausesCost(later, cs[1..]).value;
      assert s[4..] == a.bytes + (b.bytes + rest);
      assert s[4 + |a.bytes|..] == b.bytes + rest;
      PartInverts(first, cs[0], b.bytes + rest);
      PartsInvert(later, cs[1..], rest);
      var part := ReadPart(first, s[4..]).value.0;
      var parts := ReadParts(later, b.bytes + rest, |cs| - 1).value.0;
      ReadListFront(first, later, s, |cs|, part, |a.bytes|, parts, |b.bytes|);
      ListMeansFront(first, later, cs, part, parts);
    }
  }

  lemma ReadNoList(first: Position, later: Position, s: seq<byte>)
    requires |s| >= 4 && ReadU32(s[..4]) == 0
    ensures ReadList(first, later, s) == Some(([], 4))
  {
    hide ReadU32;
    assert ReadParts(first, s[4..], 0) == Some(([], 0)) && ReadParts(later, s[4 + 0..], 0) == Some(([], 0));
    var none: seq<Part> := [];
    assert none + none == none;
  }

  lemma SourceInverts(source: Source, rest: seq<byte>)
    requires (forall c | c in ClausesOf(source) :: RecordlessClause(c))
    requires SourceCost(source).Some? && |SourceCost(source).value.bytes| < TWO_TO_THE_32
    ensures var cost := SourceCost(source).value; var r := ReadSource(SourceTag(source), cost.bytes + rest);
            r.Some? && SourceMeans(source, r.value.0) && r.value.1 == |cost.bytes|
  {
    hide ClauseCost, ClausesCost, ListCost, ReadList, RecordlessClause, ListMeans;
    match source
    case TableScan =>
    case IndexRange(range) =>
      ListIsSplit(Constraint, range);
      ListInverts(Constraint, Constraint, range, rest);
    case SearchIndex(filters) =>
      ListInverts(FirstFilter, LaterFilter, filters, rest);
  }

  /**
   * Between the header and the pagination of a frame stands what the query says, clause by clause.
   */
  lemma EncodingInverts(q: Query)
    requires RecordlessQuery(q) && Encoding(q).Some?
    ensures q.header.Some? && q.header.value <= Encoding(q).value
    ensures var s := Encoding(q).value[|q.header.value|..];
            var r := ReadBody(SourceTag(q.source), s);
            && r.Some? && BodyMeans(q, r.value.0)
            && r.value.1 <= |s| && q.pagination == Some(s[r.value.1..])
  {
    hide SourceCost, ListCost, ReadSource, ReadList, RecordlessClause, ListMeans, SourceMeans;
    var a, b, c := SourceCost(q.source).value, ListCost(Operator, q.operators).value, q.pagination.value;
    var frame := Encoding(q).value;
    assert frame == q.header.value + (a.bytes + (b.bytes + c));
    var s := frame[|q.header.value|..];
    assert s == a.bytes + (b.bytes + c) && s[|a.bytes|..] == b.bytes + c && s[|a.bytes| + |b.bytes|..] == c;
    SourceInverts(q.source, b.bytes + c);
    ListIsSplit(Operator, q.operators);
    ListInverts(Operator, Operator, q.operators, c);
  }

  // ----- queries that are told apart by their frames -----

  /** The same text, however the engine chunks it; or the same value. */
  predicate SameOperand(v: Operand, w: Operand) {
    if v.Str? && w.Str? then Utf8.Text(v.chunks) == Utf8.Text(w.chunks) else v == w
  }

  predicate Alike(e: Expr, f: Expr)
    decreases e
  {
    e.Plain? && f.Plain? &&
    match e.op
    case Literal(value) => f.op.Literal? && SameOperand(value, f.op.value)
    case FieldPath(path) => f.op.FieldPath? && SameOperand(path, f.op.path)
    case Operation(tag, operands) =>
      && f.op.Operation? && f.op.tag == tag && |f.op.operands| == |operands|
      && forall k | 0 <= k < |operands| :: Alike(operands[k], f.op.operands[k])
  }

  predicate AlikeClauses(c: Clause, d: Clause) {
    match c
    case Typed(kind, path, value) =>
      d.Typed? && d.kind == kind && SameOperand(path, d.path) && SameOperand(value, d.value)
    case Filter(expr) => d.Filter? && Alike(expr, d.expr)
    case Limit(value) => d.Limit? && value == d.value
    case _ => false
  }

  predicate AlikeLists(cs: seq<Clause>, ds: seq<Clause>) {
    |cs| == |ds| && forall k | 0 <= k < |cs| :: AlikeClauses(cs[k], ds[k])
  }

  predicate AlikeQueries(q: Query, r: Query) {
    && AlikeLists(ClausesOf(q.source), ClausesOf(r.source)) && AlikeLists(q.operators, r.operators)
    && q.pagination == r.pagination
  }

  lemma SpellsSame(v: Operand, w: Operand, utf8: seq<byte>)
    requires Spells(v, utf8) && Spells(w, utf8)
    ensures SameOperand(v, w)
  {
    hide Utf8Of;
    Utf8Inverts(Utf8.Text(v.chunks));
    Utf8Inverts(Utf8.Text(w.chunks));
  }

  lemma {:induction false} MeansSame(e: Expr, f: Expr, n: Node)
    requires Means(e, n) && Means(f, n)
    ensures Alike(e, f)
    decreases n
  {
    hide Spells;
    match n
    case Constant(_) =>
    case Path(utf8) => SpellsSame(e.op.path, f.op.path, utf8);
    case Apply(_, nodes) =>
      forall k | 0 <= k < |nodes|
        ensures Alike(e.op.operands[k], f.op.operands[k])
      {
        MeansSame(e.op.operands[k], f.op.operands[k], nodes[k]);
      }
  }

  lemma ClauseMeansSame(at: Position, c: Clause, d: Clause, p: Part)
    requires ClauseMeans(at, c, p) && ClauseMeans(at, d, p)
    ensures AlikeClauses(c, d)
  {
    hide Spells, Means, Alike;
    match p
    case Bound(_, path, _) => SpellsSame(c.path, d.path, path);
    case Sought(path, text) =>
      SpellsSame(c.path, d.path, path);
      SpellsSame(c.value, d.value, text);
    case Kept(condition) => MeansSame(c.expr, d.expr, condition);
    case Limited(_) =>
  }

  lemma ListMeansSame(first: Position, later: Position, cs: seq<Clause>, ds: seq<Clause>, ps: seq<Part>)
    requires ListMeans(first, later, cs, ps) && ListMeans(first, later, ds, ps)
    ensures AlikeLists(cs, ds)
  {
    hide ClauseMeans, AlikeClauses;
    forall k | 0 <= k < |cs|
      ensures AlikeClauses(cs[k], ds[k])
    {
      ClauseMeansSame(if k == 0 then first else later, cs[k], ds[k], ps[k]);
    }
  }

  lemma TextCostSame(v: Operand, w: Operand)
    requires SameOperand(v, w) && TextValue(v).Some? && TextValue(w).Some?
    ensures TextValue(v) == TextValue(w)
  {
    StreamedMeans(v.chunks);
    StreamedMeans(w.chunks);
  }

  lemma {:induction false} CostSame(e: Expr, f: Expr)
    requires Alike(e, f) && ExprCost(e).Some? && ExprCost(f).Some?
    ensures ExprCost(e) == ExprCost(f)
    decreases e, 1
  {
    hide TextValue, ExprsCost;
    match e.op
    case Literal(_) =>
    case FieldPath(path) => TextCostSame(path, f.op.path);
    case Operation(_, operands) => CostsSame(operands, f.op.operands);
  }

  lemma {:induction false} CostsSame(es: seq<Expr>, fs: seq<Expr>)
    requires |es| == |fs| && forall k | 0 <= k < |es| :: Alike(es[k], fs[k])
    requires ExprsCost(es).Some? && ExprsCost(fs).Some?
    ensures ExprsCost(es) == ExprsCost(fs)
    decreases es, 0
  {
    hide Alike, ExprCost;
    if es != [] {
      CostSame(es[0], fs[0]);
      CostsSame(es[1..], fs[1..]);
    }
  }

  lemma ClauseCostSame(at: Position, c: Clause, d: Clause)
    requires AlikeClauses(c, d) && ClauseCost(at, c).Some? && ClauseCost(at, d).Some?
    ensures ClauseCost(at, c) == ClauseCost(at, d)
  {
    hide TextValue, OptionalValue, IntegerValue, ExprCost, Alike, SameOperand;
    match c
    case Typed(kind, path, value) =>
      TextCostSame(path, d.path);
      if at == FirstFilter {
        TextCostSame(value, d.value);
      } else {
        OptionalCostSame(value, d.value);
      }
    case Filter(expr) => CostSame(expr, d.expr);
    case Limit(_) =>
  }

  lemma OptionalCostSame(v: Operand, w: Operand)
    requires SameOperand(v, w) && OptionalValue(v).Some?
    ensures OptionalValue(v) == OptionalValue(w)
  {
  }

  lemma {:induction false} ClausesCostSame(at: Position, cs: seq<Clause>, ds: seq<Clause>)
    requires AlikeLists(cs, ds) && ClausesCost(at, cs).Some? && ClausesCost(at, ds).Some?
    ensures ClausesCost(at, cs) == ClausesCost(at, ds)
    decreases cs
  {
    hide ClauseCost, AlikeClauses;
    if cs != [] {
      ClauseCostSame(at, cs[0], ds[0]);
      ClausesCostSame(at, cs[1..], ds[1..]);
    }
  }

  lemma SourceCostSame(s: Source, t: Source)
    requires SourceTag(s) == SourceTag(t) && AlikeLists(ClausesOf(s), ClausesOf(t))
    requires SourceCost(s).Some? && SourceCost(t).Some?
    ensures SourceCost(s) == SourceCost(t)
  {
    hide ClauseCost, ClausesCost, AlikeClauses;
    match s
    case TableScan =>
    case IndexRange(range) => ClausesCostSame(Constraint, range, t.range);
    case SearchIndex(filters) =>
      ClauseCostSame(FirstFilter, filters[0], t.filters[0]);
      ClausesCostSame(LaterFilter, filters[1..], t.filters[1..]);
  }

  /**
   * Two accepted queries without records, of one header and one kind of source, have the same frame exactly
   * if they have the same operators, paths, values, operands and limits in the same places, and the same
   * pagination. Nothing of a query is lost.
   */
  lemma FramesTellQueries(q: Query, r: Query)
    requires RecordlessQuery(q) && RecordlessQuery(r) && Encoding(q).Some? && Encoding(r).Some?
    requires q.header == r.header && SourceTag(q.source) == SourceTag(r.source)
    ensures Encoding(q) == Encoding(r) <==> AlikeQueries(q, r)
  {
    hide SourceCost, ListCost, AlikeLists, ListMeans, ReadBody, RecordlessClause;
    if Encoding(q) == Encoding(r) {
      EncodingInverts(q);
      EncodingInverts(r);
      var body := ReadBody(SourceTag(q.source), Encoding(q).value[|q.header.value|..]).value.0;
      ListMeansSame(Operator, Operator, q.operators, r.operators, body.operators);
      SourceMeansSame(q.source, r.source, body.source);
    }
    if AlikeQueries(q, r) {
      SourceCostSame(q.source, r.source);
      OperatorsCostSame(q.operators, r.operators);
    }
  }

  lemma SourceMeansSame(s: Source, t: Source, ps: seq<Part>)
    requires SourceTag(s) == SourceTag(t) && SourceMeans(s, ps) && SourceMeans(t, ps)
    ensures AlikeLists(ClausesOf(s), ClausesOf(t))
  {
    hide ListMeans, AlikeClauses;
    match s
    case TableScan =>
    case IndexRange(range) => ListMeansSame(Constraint, Constraint, range, t.range, ps);
    case SearchIndex(filters) => ListMeansSame(FirstFilter, LaterFilter, filters, t.filters, ps);
  }

  lemma OperatorsCostSame(cs: seq<Clause>, ds: seq<Clause>)
    requires AlikeLists(cs, ds) && ListCost(Operator, cs).Some? && ListCost(Operator, ds).Some?
    ensures ListCost(Operator, cs) == ListCost(Operator, ds)
  {
    hide ClausesCost, AlikeClauses;
    ClausesCostSame(Operator, cs, ds);
  }
}
