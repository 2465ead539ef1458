/**
 * CQR1 queries. Parts of a query may be native records that were encoded when they were built; the
 * plain encoding is that of the query with no records at all.
 */
module QuerySpec {
  import opened Options
  import opened Bytes
  import opened Utf8
  import opened ValueTree

  const MAX_NODES: nat := 4096
  const MAX_DEPTH: nat := 64
  const MAX_OPERANDS: nat := 256

  /** What a builder leaves behind: the bytes of one part, and the size and depth of its expressions. */
  datatype NativeRecord = NativeRecord(kind: byte, bytes: seq<byte>, nodes: nat, depth: nat)

  /** A scalar property of the query; `Buffer` holds an encoded value. */
  datatype Operand = Undefined | Buffer(data: seq<byte>) | Str(chunks: seq<Chunk>) | Num(value: real) | Other

  /** The 15 operators $eq .. $or by their tags: 3 to 13 take two operands, 14 and 15 one, 16 and 17 a list. */
  type OpTag = t: byte | 3 <= t <= 17 witness 3

  datatype Op<E> =
    | Literal(value: Operand)
    | FieldPath(path: Operand)
    | Operation(tag: OpTag, operands: seq<E>)

  /** A value in an expression position; `Malformed` is anything refused on sight. */
  datatype Expr = Record(record: NativeRecord) | Plain(op: Op<Expr>) | Malformed

  datatype TypeName = Eq | Gt | Gte | Lt | Lte | Search | OtherType

  /** A value in the position of a range constraint, a search filter or an operator. */
  datatype Clause =
    | ClauseRecord(record: NativeRecord)
    | Typed(kind: TypeName, path: Operand, value: Operand)
    | Filter(expr: Expr)
    | Limit(value: Operand)
    | BadClause

  datatype Position = Constraint | FirstFilter | LaterFilter | Operator

  datatype Source = TableScan | IndexRange(range: seq<Clause>) | SearchIndex(filters: seq<Clause>)

  /**
   * A query; the parts that cannot hold records (magic, terminal, source names; pagination) are the
   * bytes they encode to, or None if they are refused.
   */
  datatype Query = Query(header: Option<seq<byte>>, source: Source, operators: seq<Clause>,
                         pagination: Option<seq<byte>>)

  // ----- scalars -----

  /** An optional value: absent, or a length-prefixed buffer. */
  function OptionalValue(v: Operand): Option<seq<byte>> {
    match v
    case Undefined => Some([0])
    case Buffer(data) => Some([1] + EncodeSlice(data))
    case _ => None
  }

  function TextValue(v: Operand): Option<seq<byte>> {
    if !v.Str? then None
    else
      var utf8 := Streamed(v.chunks);
      if utf8.None? then None else Some(EncodeSlice(utf8.value))
  }

  /** A whole number from 0 to 2^53 - 1. */
  function IntegerValue(v: Operand): Option<seq<byte>> {
    if v.Num? && 0.0 <= v.value <= 9007199254740991.0 && v.value.Floor as real == v.value then Some(U64(v.value.Floor))
    else None
  }

  function Join(a: Option<seq<byte>>, b: Option<seq<byte>>): Option<seq<byte>> {
    if a.Some? && b.Some? then Some(a.value + b.value) else None
  }

  // ----- cost: bytes, expression nodes and depth -----

  datatype Cost = Cost(bytes: seq<byte>, nodes: nat, depth: nat)

  function Max(a: nat, b: nat): nat {
    if a < b then b else a
  }

  function Plus(a: Cost, b: Cost): Cost {
    Cost(a.bytes + b.bytes, a.nodes + b.nodes, Max(a.depth, b.depth))
  }

  function Flat(bytes: Option<seq<byte>>): Option<Cost> {
    if bytes.None? then None else Some(Cost(bytes.value, 0, 0))
  }

  /** The cost of a record, if its kind belongs where it stands. */
  function RecordCost(r: NativeRecord, least: byte, most: byte): Option<Cost> {
    if least <= r.kind <= most then Some(Cost(r.bytes, r.nodes, r.depth)) else None
  }

  function ExprCost(e: Expr): Option<Cost>
    decreases e, 0
  {
    match e
    case Malformed => None
    case Record(r) => RecordCost(r, 1, 17)
    case Plain(op) => OpCost(OpContents(op))
  }

  /** The expression itself is a node, one level above its operands. */
  function OpCost(contents: Option<Cost>): Option<Cost> {
    if contents.None? then None
    else Some(Cost(contents.value.bytes, contents.value.nodes + 1, contents.value.depth + 1))
  }

  predicate ArityFits(tag: OpTag, count: nat) {
    if tag <= 13 then count == 2 else if tag <= 15 then count == 1 else count <= MAX_OPERANDS
  }

  function OpFront(tag: OpTag, count: nat): seq<byte> {
    if tag <= 15 then [tag] else [tag] + U32(count)
  }

  function OpContents(op: Op<Expr>): Option<Cost>
    decreases op, 1
  {
    match op
    case Literal(value) => Flat(Join(Some([1]), OptionalValue(value)))
    case FieldPath(path) => Flat(Join(Some([2]), TextValue(path)))
    case Operation(tag, operands) =>
      if !ArityFits(tag, |operands|) then None else After(Cost(OpFront(tag, |operands|), 0, 0), ExprsCost(operands))
  }

  function After(done: Cost, rest: Option<Cost>): Option<Cost> {
    if rest.None? then None else Some(Plus(done, rest.value))
  }

  const NOTHING := Cost([], 0, 0)

  function ExprsCost(es: seq<Expr>): Option<Cost>
    decreases es, 0
  {
    if es == [] then Some(NOTHING)
    else
      var first := ExprCost(es[0]);
      if first.None? then None else After(first.value, ExprsCost(es[1..]))
  }

  function KindByte(kind: TypeName): (b: byte) {
    match kind
    case Eq => 1
    case Gt => 2
    case Gte => 3
    case Lt => 4
    case Lte => 5
    case _ => 0
  }

  function ClauseCost(at: Position, c: Clause): Option<Cost> {
    match c
    case BadClause => None
    case ClauseRecord(r) =>
      (match at
       case Constraint => RecordCost(r, 21, 25)
       case FirstFilter => RecordCost(r, 26, 26)
       case LaterFilter => RecordCost(r, 27, 27)
       case Operator => RecordCost(r, 28, 29))
    case Typed(kind, path, value) =>
      if at == Constraint && kind != Search && kind != OtherType then
        Flat(Join(Some([KindByte(kind)]), Join(TextValue(path), OptionalValue(value))))
      else if at == FirstFilter && kind == Search then
        Flat(Join(Some([1]), Join(TextValue(path), TextValue(value))))
      else if at == LaterFilter && kind == Eq then
        Flat(Join(Some([2]), Join(TextValue(path), OptionalValue(value))))
      else None
    case Filter(expr) =>
      var cost := ExprCost(expr);
      if at == Operator && cost.Some? then Some(Plus(Cost([1], 0, 0), cost.value)) else None
    case Limit(value) => if at == Operator then Flat(Join(Some([2]), IntegerValue(value))) else None
  }

  function ClausesCost(at: Position, cs: seq<Clause>): Option<Cost> {
    if cs == [] then Some(NOTHING)
    else
      var first := ClauseCost(at, cs[0]);
      if first.None? then None else After(first.value, ClausesCost(at, cs[1..]))
  }

  /** A list of clauses behind its count. */
  function ListCost(at: Position, cs: seq<Clause>): Option<Cost> {
    if |cs| > MAX_OPERANDS then None else After(Cost(U32(|cs|), 0, 0), ClausesCost(at, cs))
  }

  function SourceCost(s: Source): Option<Cost> {
    match s
    case TableScan => Some(NOTHING)
    case IndexRange(range) => ListCost(Constraint, range)
    case SearchIndex(filters) =>
      if filters == [] || |filters| > MAX_OPERANDS then None
      else
        var first := ClauseCost(FirstFilter, filters[0]);
        if first.None? then None
        else After(Plus(Cost(U32(|filters|), 0, 0), first.value), ClausesCost(LaterFilter, filters[1..]))
  }

  function Sum(a: Option<Cost>, b: Option<Cost>): Option<Cost> {
    if a.None? then None else After(a.value, b)
  }

  function QueryCost(q: Query): Option<Cost> {
    Sum(Flat(q.header), Sum(SourceCost(q.source), Sum(ListCost(Operator, q.operators), Flat(q.pagination))))
  }

  /** The limits on a whole frame. */
  predicate Accepted(c: Option<Cost>) {
    c.Some? && c.value.nodes <= MAX_NODES && c.value.depth <= MAX_DEPTH && |c.value.bytes| <= MAX_FRAME_BYTES
  }

  /** The frame of a query, or None if the query is refused. */
  function Encoding(q: Query): Option<seq<byte>> {
    if Accepted(QueryCost(q)) then Some(QueryCost(q).value.bytes) else None
  }

  // ----- building records -----

  function OpKind(op: Op): byte {
    match op
    case Literal(_) => 1
    case FieldPath(_) => 2
    case Operation(tag, _) => tag
  }

  /** The record that a builder makes of an expression, unless it is already past a limit. */
  function BuildExpr(op: Op<Expr>): Option<NativeRecord> {
    Finish(OpKind(op), OpCost(OpContents(op)))
  }

  function Finish(kind: byte, cost: Option<Cost>): Option<NativeRecord> {
    if Accepted(cost) then Some(NativeRecord(kind, cost.value.bytes, cost.value.nodes, cost.value.depth)) else None
  }

  function ClauseKind(at: Position, c: Clause): byte {
    match at
    case Constraint => if c.Typed? then 20 + KindByte(c.kind) else 20
    case FirstFilter => 26
    case LaterFilter => 27
    case Operator => if c.Filter? then 28 else 29
  }

  function BuildClause(at: Position, c: Clause): Option<NativeRecord> {
    Finish(ClauseKind(at, c), ClauseCost(at, c))
  }

  // ----- a query in the making: which parts are built as records -----

  /** An expression together with the choice, at every node, to build a record of it. */
  datatype Sketch = Sketch(native: bool, op: Op<Sketch>) | BadSketch

  datatype ClauseSketch =
    | PlainClause(clause: Clause)
    | TypedSketch(native: bool, kind: TypeName, path: Operand, value: Operand)
    | FilterSketch(native: bool, expr: Sketch)
    | LimitSketch(native: bool, value: Operand)

  datatype SourceSketch = TableSketch | RangeSketch(range: seq<ClauseSketch>) | SearchSketch(filters: seq<ClauseSketch>)

  datatype QuerySketch = QuerySketch(header: Option<seq<byte>>, source: SourceSketch,
                                     operators: seq<ClauseSketch>, pagination: Option<seq<byte>>)

  /** The expression with no records in it. */
  function Stripped(s: Sketch): Expr
    decreases s, 0
  {
    match s
    case BadSketch => Malformed
    case Sketch(_, op) =>
      match op
      case Literal(value) => Plain(Literal(value))
      case FieldPath(path) => Plain(FieldPath(path))
      case Operation(tag, operands) => Plain(Operation(tag, StrippedAll(operands)))
  }

  function StrippedAll(ss: seq<Sketch>): (es: seq<Expr>)
    ensures |es| == |ss|
    decreases ss, 0
  {
    if ss == [] then [] else [Stripped(ss[0])] + StrippedAll(ss[1..])
  }

  /** The expression as it is built, or None if some builder refuses. */
  function Built(s: Sketch): Option<Expr>
    decreases s, 0
  {
    match s
    case BadSketch => Some(Malformed)
    case Sketch(native, op) =>
      match op
      case Literal(value) => BuiltOp(native, Literal(value))
      case FieldPath(path) => BuiltOp(native, FieldPath(path))
      case Operation(tag, operands) =>
        var es := BuiltAll(operands);
        if es.None? then None else BuiltOp(native, Operation(tag, es.value))
  }

  function BuiltOp(native: bool, op: Op<Expr>): Option<Expr> {
    if !native then Some(Plain(op))
    else
      var r := BuildExpr(op);
      if r.None? then None else Some(Record(r.value))
  }

  function BuiltAll(ss: seq<Sketch>): (es: Option<seq<Expr>>)
    ensures es.Some? ==> |es.value| == |ss|
    decreases ss, 0
  {
    if ss == [] then Some([])
    else
      var first, rest := Built(ss[0]), BuiltAll(ss[1..]);
      if first.None? || rest.None? then None else Some([first.value] + rest.value)
  }

  function StrippedClause(c: ClauseSketch): Clause {
    match c
    case PlainClause(clause) => clause
    case TypedSketch(_, kind, path, value) => Typed(kind, path, value)
    case FilterSketch(_, expr) => Filter(Stripped(expr))
    case LimitSketch(_, value) => Limit(value)
  }

  function BuiltClause(at: Position, c: ClauseSketch): Option<Clause> {
    match c
    case PlainClause(clause) => Some(clause)
    case TypedSketch(native, kind, path, value) => BuiltPart(at, native, Typed(kind, path, value))
    case FilterSketch(native, expr) =>
      var e := Built(expr);
      if e.None? then None else BuiltPart(at, native, Filter(e.value))
    case LimitSketch(native, value) => BuiltPart(at, native, Limit(value))
  }

  function BuiltPart(at: Position, native: bool, c: Clause): Option<Clause> {
    if !native then Some(c)
    else
      var r := BuildClause(at, c);
      if r.None? then None else Some(ClauseRecord(r.value))
  }

  function StrippedClauses(cs: seq<ClauseSketch>): (r: seq<Clause>)
    ensures |r| == |cs|
  {
    if cs == [] then [] else [StrippedClause(cs[0])] + StrippedClauses(cs[1..])
  }

  function BuiltClauses(at: Position, cs: seq<ClauseSketch>): (r: Option<seq<Clause>>)
    ensures r.Some? ==> |r.value| == |cs|
  {
    if cs == [] then Some([])
    else
      var first, rest := BuiltClause(at, cs[0]), BuiltClauses(at, cs[1..]);
      if first.None? || rest.None? then None else Some([first.value] + rest.value)
  }

  function StrippedSource(s: SourceSketch): Source {
    match s
    case TableSketch => TableScan
    case RangeSketch(range) => IndexRange(StrippedClauses(range))
    case SearchSketch(filters) => SearchIndex(StrippedClauses(filters))
  }

  function BuiltSource(s: SourceSketch): Option<Source> {
    match s
    case TableSketch => Some(TableScan)
    case RangeSketch(range) =>
      var cs := BuiltClauses(Constraint, range);
      if cs.None? then None else Some(IndexRange(cs.value))
    case SearchSketch(filters) =>
      if filters == [] then Some(SearchIndex([]))
      else
        var first, rest := BuiltClause(FirstFilter, filters[0]), BuiltClauses(LaterFilter, filters[1..]);
        if first.None? || rest.None? then None else Some(SearchIndex([first.value] + rest.value))
  }

  function StrippedQuery(q: QuerySketch): Query {
    Query(q.header, StrippedSource(q.source), StrippedClauses(q.operators), q.pagination)
  }

  function BuiltQuery(q: QuerySketch): Option<Query> {
    var source, operators := BuiltSource(q.source), BuiltClauses(Operator, q.operators);
    if source.None? || operators.None? then None
    else Some(Query(q.header, source.value, operators.value, q.pagination))
  }

  // ----- records change neither the bytes nor what is accepted -----

  lemma {:induction false} BuiltCost(s: Sketch)
    ensures var e := Built(s);
            if e.None? then !Accepted(ExprCost(Stripped(s))) else ExprCost(e.value) == ExprCost(Stripped(s))
    decreases s, 1
  {
    match s
    case BadSketch =>
    case Sketch(native, op) =>
      match op
      case Literal(value) =>
      case FieldPath(path) =>
      case Operation(tag, operands) => BuiltAllCost(operands);
  }

  lemma {:induction false} BuiltAllCost(ss: seq<Sketch>)
    ensures var es := BuiltAll(ss);
            if es.None? then !Accepted(ExprsCost(StrippedAll(ss)))
            else ExprsCost(es.value) == ExprsCost(StrippedAll(ss))
    decreases ss, 0
  {
    hide Built, Stripped, ExprCost;
    if ss != [] {
      BuiltCost(ss[0]);
      BuiltAllCost(ss[1..]);
    }
  }

  lemma BuiltClauseCost(at: Position, c: ClauseSketch)
    ensures var b := BuiltClause(at, c);
            if b.None? then !Accepted(ClauseCost(at, StrippedClause(c)))
            else ClauseCost(at, b.value) == ClauseCost(at, StrippedClause(c))
  {
    hide Built, Stripped, ExprCost;
    if c.FilterSketch? {
      BuiltCost(c.expr);
    }
  }

  lemma {:induction false} BuiltClausesCost(at: Position, cs: seq<ClauseSketch>)
    ensures var b := BuiltClauses(at, cs);
            if b.None? then !Accepted(ClausesCost(at, StrippedClauses(cs)))
            else ClausesCost(at, b.value) == ClausesCost(at, StrippedClauses(cs))
  {
    hide BuiltClause, StrippedClause, ClauseCost;
    if cs != [] {
      BuiltClauseCost(at, cs[0]);
      BuiltClausesCost(at, cs[1..]);
    }
  }

  lemma BuiltSourceCost(s: SourceSketch)
    ensures var b := BuiltSource(s);
            if b.None? then !Accepted(SourceCost(StrippedSource(s)))
            else SourceCost(b.value) == SourceCost(StrippedSource(s))
  {
    hide BuiltClause, StrippedClause, ClauseCost, ClausesCost;
    match s
    case TableSketch =>
    case RangeSketch(range) => BuiltClausesCost(Constraint, range);
    case SearchSketch(filters) =>
      if filters != [] {
        BuiltClauseCost(FirstFilter, filters[0]);
        BuiltClausesCost(LaterFilter, filters[1..]);
        assert StrippedClauses(filters) == [StrippedClause(filters[0])] + StrippedClauses(filters[1..]);
      }
  }

  /**
   * Whichever parts of a query are built as records, the frame is that of the plain query, and the
   * query is refused, by a builder or at the end, exactly when the plain query is.
   */
  lemma RecordsAreTransparent(q: QuerySketch)
    ensures var b := BuiltQuery(q);
            (if b.None? then None else Encoding(b.value)) == Encoding(StrippedQuery(q))
  {
    hide BuiltSource, StrippedSource, SourceCost, BuiltClauses, StrippedClauses, ClausesCost;
    BuiltSourceCost(q.source);
    BuiltClausesCost(Operator, q.operators);
  }
}
