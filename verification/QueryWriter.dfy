/** The CQR1 writer: encodes queries, splicing native records in, and builds those records. */
module QueryWriter {
  import opened Options
  import opened Bytes
  import opened Utf8
  import opened ValueTree
  import opened QuerySpec
  import ValueWriter

  class QueryAbiWriter {
    const frame: Frame
    var nodes: nat
    var depth: nat

    constructor ()
      ensures Valid() && fresh(frame) && Spent() == NOTHING
    {
      frame := new Frame();
      nodes, depth := 0, 0;
    }

    ghost predicate Valid()
      reads this, frame
    {
      Accepted(Some(Spent()))
    }

    /** What has been written so far. */
    ghost function Spent(): Cost
      reads this, frame
    {
      Cost(frame.bytes, nodes, depth)
    }

    method PutScalar(bytes: Option<seq<byte>>) returns (ok: bool)
      requires Valid()
      modifies frame
      ensures Valid()
      ensures Spends(ok, old(Spent()), 0, Flat(bytes), Spent())
    {
      if bytes.None? {
        return false;
      }
      ok := frame.Append(bytes.value);
    }

    method PutString(v: Operand) returns (ok: bool)
      requires Valid()
      modifies frame
      ensures Valid()
      ensures Spends(ok, old(Spent()), 0, Flat(TextValue(v)), Spent())
    {
      hide Streamed, EncodeSlice;
      if !v.Str? {
        return false;
      }
      SliceLength(v.chunks);
      ok := ValueWriter.PutText(frame, v.chunks);
    }

    method PutOptionalValue(v: Operand) returns (ok: bool)
      requires Valid()
      modifies frame
      ensures Valid()
      ensures Spends(ok, old(Spent()), 0, Flat(OptionalValue(v)), Spent())
    {
      match v
      case Undefined => ok := frame.PutByte(0);
      case Buffer(data) =>
        ValueWriter.TwoParts(frame.bytes, [1], EncodeSlice(data));
        ValueWriter.TwoParts(frame.bytes + [1], U32(|data|), data);
        ok := frame.PutByte(1);
        if !ok {
          return;
        }
        ok := frame.PutU32(|data|);
        if !ok {
          return;
        }
        ok := frame.Append(data);
      case _ => ok := false;
    }

    method PutInteger(v: Operand) returns (ok: bool)
      requires Valid()
      modifies frame
      ensures Valid()
      ensures Spends(ok, old(Spent()), 0, Flat(IntegerValue(v)), Spent())
    {
      if !v.Num? || v.value < 0.0 || v.value > 9007199254740991.0 || v.value.Floor as real != v.value {
        return false;
      }
      ok := frame.Append(U64(v.value.Floor));
    }

    /** Splices a record in, if it belongs here and keeps to the limits. */
    method AppendRecord(r: NativeRecord, least: byte, most: byte, at: nat) returns (ok: bool)
      requires Valid() && depth >= at
      modifies this, frame
      ensures Valid()
      ensures Spends(ok, old(Spent()), at, RecordCost(r, least, most), Spent())
    {
      if r.kind < least || r.kind > most || at + r.depth > MAX_DEPTH || nodes + r.nodes > MAX_NODES {
        return false;
      }
      nodes := nodes + r.nodes;
      depth := Max(depth, at + r.depth);
      ok := frame.Append(r.bytes);
    }

    method Expression(e: Expr, at: nat) returns (ok: bool)
      requires Valid() && depth >= at
      modifies this, frame
      ensures Valid()
      ensures Spends(ok, old(Spent()), at, ExprCost(e), Spent())
      decreases e, 2
    {
      hide OpContents;
      match e
      case Record(r) => ok := AppendRecord(r, 1, 17, at);
      case Malformed => ok := false;
      case Plain(op) =>
        if at >= MAX_DEPTH || nodes + 1 > MAX_NODES {
          return false;
        }
        nodes := nodes + 1;
        depth := Max(depth, at + 1);
        ok := Contents(op, at + 1);
    }

    /** The tag of an operator and its operands, which are at the given depth. */
    method Contents(op: Op<Expr>, below: nat) returns (ok: bool)
      requires Valid() && depth >= below
      modifies this, frame
      ensures Valid()
      ensures Spends(ok, old(Spent()), below, OpContents(op), Spent())
      decreases op, 1
    {
      hide ExprsCost, OptionalValue, TextValue;
      match op
      case Literal(value) =>
        ValueWriter.TwoParts(frame.bytes, [1], (if OptionalValue(value).Some? then OptionalValue(value).value else []));
        ok := frame.PutByte(1);
        if ok {
          ok := PutOptionalValue(value);
        }
      case FieldPath(path) =>
        ValueWriter.TwoParts(frame.bytes, [2], (if TextValue(path).Some? then TextValue(path).value else []));
        ok := frame.PutByte(2);
        if ok {
          ok := PutString(path);
        }
      case Operation(tag, operands) =>
        ghost var before := Spent();
        ghost var front := Cost(OpFront(tag, |operands|), 0, 0);
        ok := PutFront(tag, |operands|);
        if !ok {
          return;
        }
        SpendsTwo(before, below, front, ExprsCost(operands));
        ok := Expressions(operands, below);
    }

    method PutFront(tag: OpTag, count: nat) returns (ok: bool)
      requires Valid()
      modifies frame
      ensures Valid()
      ensures if !ArityFits(tag, count) then !ok
              else Spends(ok, old(Spent()), 0, Some(Cost(OpFront(tag, count), 0, 0)), Spent())
    {
      if !ArityFits(tag, count) {
        return false;
      }
      ValueWriter.TwoParts(frame.bytes, [tag], U32(count));
      ok := frame.PutByte(tag);
      if ok && tag > 15 {
        ok := frame.PutU32(count);
      }
    }

    method Expressions(es: seq<Expr>, at: nat) returns (ok: bool)
      requires Valid() && depth >= at
      modifies this, frame
      ensures Valid()
      ensures Spends(ok, old(Spent()), at, ExprsCost(es), Spent())
      decreases es, 0
    {
      hide ExprCost, Spends;
      ghost var before := Spent();
      SpendsNothing(before, at);
      assert es[0..] == es;
      ghost var whole := ExprsCost(es);
      ghost var done := NOTHING;
      AfterNothing(whole);
      var index := 0;
      while index < |es|
        invariant Valid() && 0 <= index <= |es| && depth >= at
        invariant Spends(true, before, at, Some(done), Spent())
        invariant whole == After(done, ExprsCost(es[index..]))
      {
        assert es[index..][0] == es[index] && es[index..][1..] == es[index + 1..];
        ghost var cost, rest := ExprCost(es[index]), ExprsCost(es[index + 1..]);
        ghost var here := Spent();
        ok := Expression(es[index], at);
        SpendsMore(before, at, done, here, ok, cost, Spent(), rest);
        if !ok {
          return;
        }
        done := Plus(done, cost.value);
        index := index + 1;
      }
      assert es[index..] == [];
      AfterEnd(done);
      ok := true;
    }

    method PutClause(at: Position, c: Clause) returns (ok: bool)
      requires Valid()
      modifies this, frame
      ensures Valid()
      ensures Spends(ok, old(Spent()), 0, ClauseCost(at, c), Spent())
    {
      hide ExprCost, TextValue, OptionalValue, IntegerValue;
      match c
      case BadClause => ok := false;
      case ClauseRecord(r) =>
        match at {
          case Constraint => ok := AppendRecord(r, 21, 25, 0);
          case FirstFilter => ok := AppendRecord(r, 26, 26, 0);
          case LaterFilter => ok := AppendRecord(r, 27, 27, 0);
          case Operator => ok := AppendRecord(r, 28, 29, 0);
        }
      case Typed(kind, path, value) =>
        if at == Constraint && kind != Search && kind != OtherType {
          ok := PutTyped(KindByte(kind), path, value, false);
        } else if at == FirstFilter && kind == Search {
          ok := PutTyped(1, path, value, true);
        } else if at == LaterFilter && kind == Eq {
          ok := PutTyped(2, path, value, false);
        } else {
          ok := false;
        }
      case Filter(expr) =>
        if at != Operator {
          return false;
        }
        SpendsTwo(Spent(), 0, Cost([1], 0, 0), ExprCost(expr));
        ok := frame.PutByte(1);
        if ok {
          ok := Expression(expr, 0);
        }
      case Limit(value) =>
        if at != Operator {
          return false;
        }
        ValueWriter.TwoParts(frame.bytes, [2], (if IntegerValue(value).Some? then IntegerValue(value).value else []));
        ok := frame.PutByte(2);
        if ok {
          ok := PutInteger(value);
        }
    }

    method PutTyped(tag: byte, path: Operand, value: Operand, text: bool) returns (ok: bool)
      requires Valid()
      modifies frame
      ensures Valid()
      ensures var last := if text then TextValue(value) else OptionalValue(value);
              Spends(ok, old(Spent()), 0, Flat(Join(Some([tag]), Join(TextValue(path), last))), Spent())
    {
      hide TextValue, OptionalValue;
      ghost var last := if text then TextValue(value) else OptionalValue(value);
      if TextValue(path).Some? && last.Some? {
        ThreeParts(frame.bytes, [tag], TextValue(path).value, last.value);
      }
      ok := frame.PutByte(tag);
      if !ok {
        return;
      }
      ok := PutString(path);
      if !ok {
        return;
      }
      if text {
        ok := PutString(value);
      } else {
        ok := PutOptionalValue(value);
      }
    }

    method PutClauses(at: Position, cs: seq<Clause>) returns (ok: bool)
      requires Valid()
      modifies this, frame
      ensures Valid()
      ensures Spends(ok, old(Spent()), 0, ClausesCost(at, cs), Spent())
    {
      hide ClauseCost, Spends;
      ghost var before := Spent();
      SpendsNothing(before, 0);
      assert cs[0..] == cs;
      ghost var whole := ClausesCost(at, cs);
      ghost var done := NOTHING;
      AfterNothing(whole);
      var index := 0;
      while index < |cs|
        invariant Valid() && 0 <= index <= |cs|
        invariant Spends(true, before, 0, Some(done), Spent())
        invariant whole == After(done, ClausesCost(at, cs[index..]))
      {
        assert cs[index..][0] == cs[index] && cs[index..][1..] == cs[index + 1..];
        ghost var cost, rest := ClauseCost(at, cs[index]), ClausesCost(at, cs[index + 1..]);
        ghost var here := Spent();
        ok := PutClause(at, cs[index]);
        SpendsMore(before, 0, done, here, ok, cost, Spent(), rest);
        if !ok {
          return;
        }
        done := Plus(done, cost.value);
        index := index + 1;
      }
      assert cs[index..] == [];
      AfterEnd(done);
      ok := true;
    }

    method PutList(at: Position, cs: seq<Clause>) returns (ok: bool)
      requires Valid()
      modifies this, frame
      ensures Valid()
      ensures Spends(ok, old(Spent()), 0, ListCost(at, cs), Spent())
    {
      hide ClausesCost;
      if |cs| > MAX_OPERANDS {
        return false;
      }
      SpendsTwo(Spent(), 0, Cost(U32(|cs|), 0, 0), ClausesCost(at, cs));
      ok := frame.PutU32(|cs|);
      if ok {
        ok := PutClauses(at, cs);
      }
    }

    method PutSource(s: Source) returns (ok: bool)
      requires Valid()
      modifies this, frame
      ensures Valid()
      ensures Spends(ok, old(Spent()), 0, SourceCost(s), Spent())
    {
      hide ClausesCost, ClauseCost;
      match s
      case TableScan =>
        SpendsNothing(Spent(), 0);
        ok := true;
      case IndexRange(range) => ok := PutList(Constraint, range);
      case SearchIndex(filters) =>
        if filters == [] || |filters| > MAX_OPERANDS {
          return false;
        }
        ghost var before := Spent();
        ghost var count := Cost(U32(|filters|), 0, 0);
        ghost var first, rest := ClauseCost(FirstFilter, filters[0]), ClausesCost(LaterFilter, filters[1..]);
        SpendsTwo(before, 0, count, first);
        if first.Some? {
          SpendsTwo(before, 0, Plus(count, first.value), rest);
        }
        ok := frame.PutU32(|filters|);
        if !ok {
          return;
        }
        ok := PutClause(FirstFilter, filters[0]);
        if !ok {
          return;
        }
        ok := PutClauses(LaterFilter, filters[1..]);
    }

    /** The frame of a query, or None if the query is refused. */
    method Encode(q: Query) returns (r: Option<seq<byte>>)
      requires Valid() && Spent() == NOTHING
      modifies this, frame
      ensures r == Encoding(q)
    {
      hide SourceCost, ListCost, Spends;
      ghost var before, whole := Spent(), QueryCost(q);
      ghost var header, source := Flat(q.header), SourceCost(q.source);
      ghost var operators, pagination := ListCost(Operator, q.operators), Flat(q.pagination);
      SpendsNothing(before, 0);
      AfterNothing(whole);
      var ok := PutScalar(q.header);
      SpendsMore(before, 0, NOTHING, before, ok, header, Spent(), Sum(source, Sum(operators, pagination)));
      if !ok {
        FromNothing(false, whole, Spent());
        return None;
      }
      ghost var here, done := Spent(), Plus(NOTHING, header.value);
      ok := PutSource(q.source);
      SpendsMore(before, 0, done, here, ok, source, Spent(), Sum(operators, pagination));
      if !ok {
        FromNothing(false, whole, Spent());
        return None;
      }
      here, done := Spent(), Plus(done, source.value);
      ok := PutList(Operator, q.operators);
      SpendsMore(before, 0, done, here, ok, operators, Spent(), pagination);
      if !ok {
        FromNothing(false, whole, Spent());
        return None;
      }
      here, done := Spent(), Plus(done, operators.value);
      ok := PutScalar(q.pagination);
      SpendsLast(before, done, here, ok, pagination, Spent());
      FromNothing(ok, whole, Spent());
      return if ok then Some(frame.bytes) else None;
    }

    /** Builds the record of an expression in a writer of its own. */
    method RecordExpression(op: Op<Expr>) returns (r: Option<NativeRecord>)
      requires Valid() && Spent() == NOTHING
      modifies this, frame
      ensures r == BuildExpr(op)
    {
      hide OpContents;
      nodes, depth := 1, 1;
      var ok := Contents(op, 1);
      if OpContents(op).Some? {
        assert [] + OpContents(op).value.bytes == OpContents(op).value.bytes;
      }
      return if ok then Some(NativeRecord(OpKind(op), frame.bytes, nodes, depth)) else None;
    }

    /** Builds the record of a clause in a writer of its own. */
    method RecordClause(at: Position, c: Clause) returns (r: Option<NativeRecord>)
      requires Valid() && Spent() == NOTHING
      modifies this, frame
      ensures r == BuildClause(at, c)
    {
      hide ClauseCost, Spends, Accepted, ClauseKind;
      var ok := PutClause(at, c);
      FromNothing(ok, ClauseCost(at, c), Spent());
      return if ok then Some(NativeRecord(ClauseKind(at, c), frame.bytes, nodes, depth)) else None;
    }
  }

  // ----- spending against the limits -----

  /** `cost`, at some depth, on top of what has been spent. */
  ghost function Added(before: Cost, at: nat, cost: Cost): Cost {
    Cost(before.bytes + cost.bytes, before.nodes + cost.nodes, Max(before.depth, at + cost.depth))
  }

  /** `ok` says whether the cost is known and keeps to the limits; if so it was spent. */
  ghost predicate Spends(ok: bool, before: Cost, at: nat, cost: Option<Cost>, after: Cost) {
    && (ok <==> cost.Some? && Affordable(before, at, cost.value))
    && (ok ==> after == Added(before, at, cost.value))
  }

  ghost predicate Affordable(before: Cost, at: nat, cost: Cost) {
    Accepted(Some(Added(before, at, cost)))
  }

  lemma SliceLength(chunks: seq<Chunk>)
    ensures Streamed(chunks).Some? ==> |EncodeSlice(Streamed(chunks).value)| == 4 + |Streamed(chunks).value|
  {
  }

  lemma ThreeParts(before: seq<byte>, a: seq<byte>, b: seq<byte>, c: seq<byte>)
    ensures ((before + a) + b) + c == before + (a + (b + c))
  {
  }

  lemma AfterNothing(rest: Option<Cost>)
    ensures After(NOTHING, rest) == rest
  {
    if rest.Some? {
      assert [] + rest.value.bytes == rest.value.bytes;
    }
  }

  lemma AfterEnd(done: Cost)
    ensures After(done, Some(NOTHING)) == Some(done)
  {
    assert done.bytes + [] == done.bytes;
  }

  lemma SpendsNothing(before: Cost, at: nat)
    requires Accepted(Some(before)) && before.depth >= at
    ensures Spends(true, before, at, Some(NOTHING), before)
  {
    assert before.bytes + [] == before.bytes;
  }

  /** Spending two costs in turn is spending them together. */
  lemma SpendsTwo(before: Cost, at: nat, a: Cost, b: Option<Cost>)
    ensures b.Some? ==> Added(Added(before, at, a), at, b.value) == Added(before, at, Plus(a, b.value))
    ensures b.Some? && Affordable(before, at, Plus(a, b.value)) ==> Affordable(before, at, a)
  {
    if b.Some? {
      assert (before.bytes + a.bytes) + b.value.bytes == before.bytes + (a.bytes + b.value.bytes);
    }
  }

  /** One more element of a list: either it is spent too, or the whole list is refused. */
  lemma SpendsMore(before: Cost, at: nat, done: Cost, here: Cost, ok: bool, cost: Option<Cost>, after: Cost,
                   rest: Option<Cost>)
    requires Spends(true, before, at, Some(done), here)
    requires Spends(ok, here, at, cost, after)
    ensures cost.Some? ==> After(done, After(cost.value, rest)) == After(Plus(done, cost.value), rest)
    ensures ok ==> cost.Some? && Spends(true, before, at, Some(Plus(done, cost.value)), after)
    ensures ok ==> after.depth >= here.depth
    ensures !ok && cost.Some? ==>
      forall any: Cost :: Spends(false, before, at, After(Plus(done, cost.value), rest), any)
    ensures forall any: Cost :: Spends(false, before, at, None, any)
  {
    if cost.Some? {
      SpendsTwo(before, at, done, cost);
      if rest.Some? {
        SpendsTwo(before, at, Plus(done, cost.value), rest);
        assert done.bytes + (cost.value.bytes + rest.value.bytes) == (done.bytes + cost.value.bytes) + rest.value.bytes;
      }
    }
  }

  /** A frame starts from nothing: whether it is refused, and what it holds, follow from its cost. */
  lemma SpendsLast(before: Cost, done: Cost, here: Cost, ok: bool, cost: Option<Cost>, after: Cost)
    requires Spends(true, before, 0, Some(done), here) && Spends(ok, here, 0, cost, after)
    ensures Spends(ok, before, 0, After(done, cost), after)
  {
    SpendsTwo(before, 0, done, cost);
  }

  /** What a refusal, or an acceptance, from an empty writer says about the cost. */
  lemma FromNothing(ok: bool, cost: Option<Cost>, after: Cost)
    requires Spends(ok, NOTHING, 0, cost, after)
    ensures ok <==> Accepted(cost)
    ensures ok ==> after == cost.value
  {
    if cost.Some? {
      assert [] + cost.value.bytes == cost.value.bytes;
    }
  }
}
