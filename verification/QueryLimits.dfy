/** Which queries are accepted: what makes sense in its place, within the limits on what it says. */
module QueryLimits {
  import opened Options
  import opened Bytes
  import opened Utf8
  import opened ValueTree
  import opened QuerySpec
  import opened QueryDecoding

  // ----- sense -----

  predicate SensibleText(v: Operand) {
    v.Str? && Utf8Of(Utf8.Text(v.chunks)).Some? && !Interrupted(v.chunks)
  }

  predicate SensibleValue(v: Operand) {
    v.Undefined? || v.Buffer?
  }

  /** A whole number below 2^53. */
  predicate IsCount(v: Operand, n: nat) {
    n < 0x20_0000_0000_0000 && v == Num(n as real)
  }

  /** The operators $eq .. $mod have two operands, $neg and $not one, $and and $or up to 256. */
  predicate Sensible(e: Expr)
    decreases e
  {
    e.Plain? &&
    match e.op
    case Literal(value) => SensibleValue(value)
    case FieldPath(path) => SensibleText(path)
    case Operation(tag, operands) =>
      && (3 <= tag <= 13 ==> |operands| == 2)
      && (14 <= tag <= 15 ==> |operands| == 1)
      && |operands| <= 256
      && forall o | o in operands :: Sensible(o)
  }

  ghost predicate SensibleClause(at: Position, c: Clause) {
    match at
    case Constraint => c.Typed? && c.kind in {Eq, Gt, Gte, Lt, Lte} && SensibleText(c.path) && SensibleValue(c.value)
    case FirstFilter => c.Typed? && c.kind == Search && SensibleText(c.path) && SensibleText(c.value)
    case LaterFilter => c.Typed? && c.kind == Eq && SensibleText(c.path) && SensibleValue(c.value)
    case Operator =>
      || (c.Filter? && Sensible(c.expr))
      || (c.Limit? && exists n :: IsCount(c.value, n))
  }

  ghost predicate SensibleList(first: Position, later: Position, cs: seq<Clause>) {
    |cs| <= 256 && forall k | 0 <= k < |cs| :: SensibleClause(if k == 0 then first else later, cs[k])
  }

  ghost predicate SensibleQuery(q: Query) {
    && q.header.Some? && q.pagination.Some? && SensibleList(Operator, Operator, q.operators)
    && match q.source
       case TableScan => true
       case IndexRange(range) => SensibleList(Constraint, Constraint, range)
       case SearchIndex(filters) => filters != [] && SensibleList(FirstFilter, LaterFilter, filters)
  }

  lemma SensibleIffText(v: Operand)
    ensures TextValue(v).Some? <==> SensibleText(v)
  {
    if v.Str? {
      StreamedMeans(v.chunks);
    }
  }

  lemma {:induction false} SensibleIffCost(e: Expr)
    requires Recordless(e)
    ensures ExprCost(e).Some? <==> Sensible(e)
    decreases e, 1
  {
    hide TextValue, ExprsCost, SensibleText;
    if e.Plain? {
      match e.op
      case Literal(_) =>
      case FieldPath(path) => SensibleIffText(path);
      case Operation(_, operands) => SensibleIffCosts(operands);
    }
  }

  lemma {:induction false} SensibleIffCosts(es: seq<Expr>)
    requires forall e | e in es :: Recordless(e)
    ensures ExprsCost(es).Some? <==> forall e | e in es :: Sensible(e)
    decreases es, 0
  {
    hide Sensible, Recordless, ExprCost;
    if es != [] {
      SensibleIffCost(es[0]);
      SensibleIffCosts(es[1..]);
      assert es == [es[0]] + es[1..];
    }
  }

  lemma SensibleIffClauseCost(at: Position, c: Clause)
    requires RecordlessClause(c)
    ensures ClauseCost(at, c).Some? <==> SensibleClause(at, c)
  {
    hide TextValue, ExprCost, Sensible, SensibleText, Recordless;
    match c
    case Typed(_, path, value) =>
      SensibleIffText(path);
      SensibleIffText(value);
    case Filter(expr) => SensibleIffCost(expr);
    case Limit(value) => SensibleIffInteger(value);
    case _ =>
  }

  lemma SensibleIffInteger(v: Operand)
    ensures IntegerValue(v).Some? <==> exists n :: IsCount(v, n)
  {
    if IntegerValue(v).Some? {
      var n: nat := v.value.Floor;
      assert IsCount(v, n);
    }
  }

  lemma {:induction false} SensibleIffClausesCost(at: Position, cs: seq<Clause>)
    requires forall c | c in cs :: RecordlessClause(c)
    ensures ClausesCost(at, cs).Some? <==> forall k | 0 <= k < |cs| :: SensibleClause(at, cs[k])
    decreases cs
  {
    hide ClauseCost, SensibleClause, RecordlessClause;
    if cs != [] {
      var rest := cs[1..];
      SensibleIffClauseCost(at, cs[0]);
      SensibleIffClausesCost(at, rest);
      assert forall k | 0 <= k < |rest| :: rest[k] == cs[k + 1];
      assert (forall k | 0 <= k < |cs| :: SensibleClause(at, cs[k])) <==>
        SensibleClause(at, cs[0]) && forall k | 0 <= k < |rest| :: SensibleClause(at, rest[k]);
    }
  }

  /** Apart from its size, a query is refused exactly if one of its parts has no sense in its place. */
  lemma SensibleIffCounted(q: Query)
    requires RecordlessQuery(q)
    ensures QueryCost(q).Some? <==> SensibleQuery(q)
  {
    hide ClauseCost, ClausesCost, SensibleClause, RecordlessClause;
    SensibleIffClausesCost(Operator, q.operators);
    match q.source
    case TableScan =>
    case IndexRange(range) => SensibleIffClausesCost(Constraint, range);
    case SearchIndex(filters) =>
      if filters != [] {
        SensibleIffClauseCost(FirstFilter, filters[0]);
        var rest := filters[1..];
        SensibleIffClausesCost(LaterFilter, rest);
        assert forall k | 0 <= k < |rest| :: rest[k] == filters[k + 1];
        assert (forall k | 1 <= k < |filters| :: SensibleClause(LaterFilter, filters[k])) <==>
          forall k | 0 <= k < |rest| :: SensibleClause(LaterFilter, rest[k]);
      }
  }

  // ----- the size of what a query says -----

  /** The number of expressions, how deep they are nested, and the bytes they take. */
  datatype Measure = Measure(nodes: nat, depth: nat, bytes: nat)
  {
    function And(m: Measure): Measure {
      Measure(nodes + m.nodes, Max(depth, m.depth), bytes + m.bytes)
    }
  }

  const ZERO := Measure(0, 0, 0)

  function OptionalLength(value: Option<seq<byte>>): nat {
    if value.None? then 1 else 5 + |value.value|
  }

  function NodeMeasure(n: Node): Measure
    decreases n, 1
  {
    match n
    case Constant(value) => Measure(1, 1, 1 + OptionalLength(value))
    case Path(utf8) => Measure(1, 1, 5 + |utf8|)
    case Apply(tag, operands) =>
      var m := NodesMeasure(operands);
      Measure(m.nodes + 1, m.depth + 1, m.bytes + if tag <= 15 then 1 else 5)
  }

  function NodesMeasure(ns: seq<Node>): Measure
    decreases ns, 0
  {
    if ns == [] then ZERO else NodeMeasure(ns[0]).And(NodesMeasure(ns[1..]))
  }

  function PartMeasure(p: Part): Measure {
    match p
    case Bound(_, path, value) => Measure(0, 0, 5 + |path| + OptionalLength(value))
    case Sought(path, text) => Measure(0, 0, 9 + |path| + |text|)
    case Kept(condition) => NodeMeasure(condition).(bytes := NodeMeasure(condition).bytes + 1)
    case Limited(_) => Measure(0, 0, 9)
  }

  function PartsMeasure(ps: seq<Part>): Measure {
    if ps == [] then ZERO else PartMeasure(ps[0]).And(PartsMeasure(ps[1..]))
  }

  /** A list takes four bytes more, for its count. */
  function ListMeasure(ps: seq<Part>): Measure {
    PartsMeasure(ps).(bytes := PartsMeasure(ps).bytes + 4)
  }

  function BodyMeasure(tag: byte, b: Body): Measure {
    (if tag == 1 then ZERO else ListMeasure(b.source)).And(ListMeasure(b.operators))
  }

  function MeasureOf(c: Cost): Measure {
    Measure(c.nodes, c.depth, |c.bytes|)
  }

  // ----- it is what encoding the query costs -----

  lemma SaysMeasure(v: Operand, data: Option<seq<byte>>)
    requires Says(v, data) && OptionalValue(v).Some?
    ensures |OptionalValue(v).value| == OptionalLength(data)
  {
  }

  lemma SpellsMeasure(v: Operand, utf8: seq<byte>)
    requires Spells(v, utf8) && TextValue(v).Some?
    ensures |TextValue(v).value| == 4 + |utf8|
  {
    StreamedMeans(v.chunks);
  }

  lemma {:induction false} NodeCosts(e: Expr, n: Node)
    requires Means(e, n) && ExprCost(e).Some?
    ensures MeasureOf(ExprCost(e).value) == NodeMeasure(n)
    decreases n, 1
  {
    hide OptionalValue, TextValue, Says, Spells, ExprsCost, NodesMeasure;
    match n
    case Constant(value) => SaysMeasure(e.op.value, value);
    case Path(utf8) => SpellsMeasure(e.op.path, utf8);
    case Apply(_, nodes) => NodesCost(e.op.operands, nodes);
  }

  lemma {:induction false} NodesCost(es: seq<Expr>, ns: seq<Node>)
    requires |es| == |ns| && (forall k | 0 <= k < |es| :: Means(es[k], ns[k])) && ExprsCost(es).Some?
    ensures MeasureOf(ExprsCost(es).value) == NodesMeasure(ns)
    decreases ns, 0
  {
    hide ExprCost, Means, NodeMeasure;
    if es != [] {
      NodeCosts(es[0], ns[0]);
      NodesCost(es[1..], ns[1..]);
    }
  }

  lemma PartCosts(at: Position, c: Clause, p: Part)
    requires ClauseMeans(at, c, p) && ClauseCost(at, c).Some?
    ensures MeasureOf(ClauseCost(at, c).value) == PartMeasure(p)
  {
    hide OptionalValue, TextValue, Says, Spells, ExprCost, Means, NodeMeasure;
    match p
    case Bound(_, path, value) =>
      SpellsMeasure(c.path, path);
      SaysMeasure(c.value, value);
    case Sought(path, text) =>
      SpellsMeasure(c.path, path);
      SpellsMeasure(c.value, text);
    case Kept(condition) => NodeCosts(c.expr, condition);
    case Limited(_) =>
  }

  lemma {:induction false} PartsCost(at: Position, cs: seq<Clause>, ps: seq<Part>)
    requires ClausesMean(at, cs, ps) && ClausesCost(at, cs).Some?
    ensures MeasureOf(ClausesCost(at, cs).value) == PartsMeasure(ps)
    decreases |cs|
  {
    hide ClauseCost, ClauseMeans, PartMeasure;
    if cs != [] {
      PartCosts(at, cs[0], ps[0]);
      PartsCost(at, cs[1..], ps[1..]);
    }
  }

  lemma ListCosts(first: Position, later: Position, cs: seq<Clause>, ps: seq<Part>)
    requires ListMeans(first, later, cs, ps) && SplitCost(first, later, cs).Some?
    ensures MeasureOf(SplitCost(first, later, cs).value) == ListMeasure(ps)
  {
    hide ClauseCost, ClausesCost, ClauseMeans, PartMeasure;
    if cs != [] {
      assert ClauseMeans(first, cs[0], ps[0]);
      PartCosts(first, cs[0], ps[0]);
      assert forall k | 1 <= k < |cs| :: ClauseMeans(later, cs[k], ps[k]);
      PartsCost(later, cs[1..], ps[1..]);
    }
  }

  lemma BodyCosts(q: Query, b: Body)
    requires BodyMeans(q, b) && QueryCost(q).Some?
    ensures var m := BodyMeasure(SourceTag(q.source), b);
            MeasureOf(QueryCost(q).value) == m.(bytes := |q.header.value| + m.bytes + |q.pagination.value|)
  {
    hide ListCost, SplitCost, ClauseCost, ClausesCost, ListMeans, ListMeasure;
    ListIsSplit(Operator, q.operators);
    ListCosts(Operator, Operator, q.operators, b.operators);
    match q.source
    case TableScan =>
    case IndexRange(range) =>
      ListIsSplit(Constraint, range);
      ListCosts(Constraint, Constraint, range, b.source);
    case SearchIndex(filters) =>
      SearchIsSplit(filters);
      ListCosts(FirstFilter, LaterFilter, filters, b.source);
  }

  lemma SearchIsSplit(filters: seq<Clause>)
    requires SourceCost(SearchIndex(filters)).Some?
    ensures SplitCost(FirstFilter, LaterFilter, filters) == SourceCost(SearchIndex(filters))
  {
    hide ClauseCost, ClausesCost;
  }

  /**
   * A query without records is accepted exactly if all its parts make sense in their places and what it says keeps
   * within the limits: 4096 expressions, nested 64 deep, in a frame of 16 MiB.
   */
  lemma AcceptedExactly(q: Query)
    requires RecordlessQuery(q)
    ensures Encoding(q).Some? <==>
            SensibleQuery(q)
            && exists b :: BodyMeans(q, b) && Keeps(q, BodyMeasure(SourceTag(q.source), b))
  {
    hide QueryCost, SensibleQuery, BodyMeans, BodyMeasure, RecordlessQuery;
    SensibleIffCounted(q);
    if Encoding(q).Some? {
      EncodingInverts(q);
      var b := ReadBody(SourceTag(q.source), Encoding(q).value[|q.header.value|..]).value.0;
      BodyCosts(q, b);
      assert Keeps(q, BodyMeasure(SourceTag(q.source), b));
    }
    if SensibleQuery(q) {
      forall b | BodyMeans(q, b) && Keeps(q, BodyMeasure(SourceTag(q.source), b))
        ensures Encoding(q).Some?
      {
        BodyCosts(q, b);
      }
    }
  }

  predicate Keeps(q: Query, m: Measure) {
    && q.header.Some? && q.pagination.Some?
    && m.nodes <= 4096 && m.depth <= 64 && |q.header.value| + m.bytes + |q.pagination.value| <= 16 * 1024 * 1024
  }
}
