/**
 * Effect specialization: for every call of an effect template, the operand assignments that its
 * arguments resolve to.
 */
module Specialize {
  import opened Options
  import opened Ordering
  import opened Operands

  datatype Field = Table | Index | FunctionReference

  datatype StaticOperand = StaticOperand(field: Field, parameterIndex: nat)

  datatype Timing = Immediate | Suspending

  datatype Template = Template(id: string, unit: UnitId, operands: seq<StaticOperand>, timing: Timing,
                               tailReturnSafe: bool)

  datatype Policy = BlockingFiberCompatibility | StaticHermesGuestPromise

  datatype Specialization = Specialization(templateId: string, callerModule: string, start: nat, end: nat,
                                           operands: map<Field, string>, position: CallPosition)

  predicate Compatible(policy: Policy, t: Template, call: CallEdge) {
    match policy
    case StaticHermesGuestPromise => true
    case BlockingFiberCompatibility =>
      t.timing != Suspending || call.position == SequentialAwait || (t.tailReturnSafe && call.position == TailReturn)
  }

  /** Operands are filled in from left to right; a later one for the same field replaces an earlier one. */
  function Assign(operands: seq<StaticOperand>, values: seq<string>): map<Field, string>
    requires |operands| == |values|
  {
    if operands == [] then map[]
    else
      var last := |operands| - 1;
      Assign(operands[..last], values[..last])[operands[last].field := values[last]]
  }

  /** Every value is one that the operand's argument resolves to. */
  ghost predicate Choice(p: Program, operands: seq<StaticOperand>, call: CallEdge, values: seq<string>) {
    && |values| == |operands|
    && forall j | 0 <= j < |operands| :: AnswerHolds(p, ArgumentAt(call, operands[j].parameterIndex), values[j])
  }

  ghost predicate IsAssignment(p: Program, operands: seq<StaticOperand>, call: CallEdge, m: map<Field, string>) {
    exists values :: Choice(p, operands, call, values) && m == Assign(operands, values)
  }

  function Specialized(t: Template, call: CallEdge, m: map<Field, string>): Specialization {
    Specialization(t.id, call.callerModule, call.start, call.end, m, call.position)
  }

  ghost predicate EmittedFor(p: Program, policy: Policy, t: Template, call: CallEdge, s: Specialization) {
    && p.Trusted(t.unit) && call in p.calls && call.target == t.unit
    && call.argumentsSafe && Compatible(policy, t, call)
    && IsAssignment(p, t.operands, call, s.operands) && s == Specialized(t, call, s.operands)
  }

  /** The last operand for the field. */
  ghost predicate IsLast(operands: seq<StaticOperand>, field: Field, j: int) {
    && 0 <= j < |operands| && operands[j].field == field
    && forall k | j < k < |operands| :: operands[k].field != field
  }

  /** Each field has the value of the last operand for it, and a field without an operand has none. */
  ghost predicate FilledFrom(operands: seq<StaticOperand>, values: seq<string>, m: map<Field, string>)
    requires |operands| == |values|
  {
    && (forall f | f in m :: exists j :: IsLast(operands, f, j) && m[f] == values[j])
    && (forall j | 0 <= j < |operands| :: operands[j].field in m)
  }

  lemma {:induction false} AssignFills(operands: seq<StaticOperand>, values: seq<string>)
    requires |operands| == |values|
    ensures FilledFrom(operands, values, Assign(operands, values))
  {
    hide FilledFrom;
    if operands == [] {
      NothingFilled();
    } else {
      var last := |operands| - 1;
      AssignFills(operands[..last], values[..last]);
      FilledMore(operands, values, Assign(operands[..last], values[..last]));
    }
  }

  lemma NothingFilled()
    ensures FilledFrom([], [], map[])
  {
  }

  lemma FilledMore(operands: seq<StaticOperand>, values: seq<string>, m: map<Field, string>)
    requires |operands| == |values| > 0
    requires FilledFrom(operands[..|operands| - 1], values[..|operands| - 1], m)
    ensures FilledFrom(operands, values, m[operands[|operands| - 1].field := values[|operands| - 1]])
  {
    var last := |operands| - 1;
    var front, longer := operands[..last], m[operands[last].field := values[last]];
    forall f | f in longer
      ensures exists j :: IsLast(operands, f, j) && longer[f] == values[j]
    {
      if f == operands[last].field {
        assert IsLast(operands, f, last);
      } else {
        var j :| IsLast(front, f, j) && m[f] == values[..last][j];
        LastStays(operands, f, j);
      }
    }
    forall j | 0 <= j < |operands|
      ensures operands[j].field in longer
    {
      assert j < last ==> operands[j].field == front[j].field;
    }
  }

  lemma LastStays(operands: seq<StaticOperand>, field: Field, j: int)
    requires operands != [] && IsLast(operands[..|operands| - 1], field, j) && operands[|operands| - 1].field != field
    ensures IsLast(operands, field, j)
  {
    var front := operands[..|operands| - 1];
    forall k | j < k < |operands|
      ensures operands[k].field != field
    {
      assert k < |front| ==> operands[k].field == front[k].field;
    }
  }

  lemma FilledIsUnique(operands: seq<StaticOperand>, values: seq<string>, m: map<Field, string>, m': map<Field, string>)
    requires |operands| == |values| && FilledFrom(operands, values, m) && FilledFrom(operands, values, m')
    ensures m == m'
  {
    forall f | f in m && f in m'
      ensures m[f] == m'[f]
    {
      var j :| IsLast(operands, f, j) && m[f] == values[j];
      var j' :| IsLast(operands, f, j') && m'[f] == values[j'];
      assert j == j';
    }
    forall f
      ensures f in m <==> f in m'
    {
      if f in m {
        var j :| IsLast(operands, f, j) && m[f] == values[j];
        assert operands[j].field in m';
      }
      if f in m' {
        var j :| IsLast(operands, f, j) && m'[f] == values[j];
        assert operands[j].field in m;
      }
    }
  }

  /**
   * What an emitted effect says: its template, the place and position of the call, and for each field the value of
   * the last operand for it. Suspending effects are emitted for blocking fibers only where they are awaited in
   * sequence, or returned by a template that is safe to return.
   */
  lemma EmittedMeans(p: Program, policy: Policy, t: Template, call: CallEdge, s: Specialization)
    ensures EmittedFor(p, policy, t, call, s) <==>
      && p.Trusted(t.unit) && call in p.calls && call.target == t.unit && call.argumentsSafe
      && (policy == BlockingFiberCompatibility && t.timing == Suspending ==>
            call.position == SequentialAwait || (call.position == TailReturn && t.tailReturnSafe))
      && s.templateId == t.id && s.callerModule == call.callerModule && s.start == call.start && s.end == call.end
      && s.position == call.position
      && exists values :: Choice(p, t.operands, call, values) && FilledFrom(t.operands, values, s.operands)
  {
    hide AnswerHolds, FilledFrom, Assign;
    forall values | Choice(p, t.operands, call, values)
      ensures FilledFrom(t.operands, values, s.operands) <==> s.operands == Assign(t.operands, values)
    {
      AssignFills(t.operands, values);
      if FilledFrom(t.operands, values, s.operands) {
        FilledIsUnique(t.operands, values, s.operands, Assign(t.operands, values));
      }
    }
  }

  /** m is m' with one of the values filled in. */
  ghost predicate ExpandsTo(m': map<Field, string>, field: Field, values: set<string>, m: map<Field, string>) {
    exists v | v in values :: m == m'[field := v]
  }

  /** One more operand: assignments extend by each of its values. */
  lemma AssignmentSnoc(p: Program, operands: seq<StaticOperand>, i: nat, call: CallEdge, values: set<string>,
                       m: map<Field, string>)
    requires i < |operands| && ArgumentAnswer(p, ArgumentAt(call, operands[i].parameterIndex)) == Some(values)
    ensures IsAssignment(p, operands[..i + 1], call, m) <==>
      exists m' :: IsAssignment(p, operands[..i], call, m') && ExpandsTo(m', operands[i].field, values, m)
  {
    HoldsIn(p, ArgumentAt(call, operands[i].parameterIndex), values);
    hide ArgumentAnswer, ArgumentAt, IsAssignment, ExpandsTo;
    if IsAssignment(p, operands[..i + 1], call, m) {
      var m' := AssignmentFront(p, operands, i, call, values, m);
    }
    forall m' | IsAssignment(p, operands[..i], call, m') && ExpandsTo(m', operands[i].field, values, m)
      ensures IsAssignment(p, operands[..i + 1], call, m)
    {
      AssignmentMore(p, operands, i, call, values, m', m);
    }
  }

  lemma AssignmentFront(p: Program, operands: seq<StaticOperand>, i: nat, call: CallEdge, values: set<string>,
                        m: map<Field, string>) returns (m': map<Field, string>)
    requires i < |operands|
    requires forall v :: AnswerHolds(p, ArgumentAt(call, operands[i].parameterIndex), v) <==> v in values
    requires IsAssignment(p, operands[..i + 1], call, m)
    ensures IsAssignment(p, operands[..i], call, m') && ExpandsTo(m', operands[i].field, values, m)
  {
    hide AnswerHolds, ArgumentAt;
    var front, longer := operands[..i], operands[..i + 1];
    assert longer[..i] == front && longer[i] == operands[i];
    var chosen :| Choice(p, longer, call, chosen) && m == Assign(longer, chosen);
    m' := Assign(front, chosen[..i]);
    assert Choice(p, front, call, chosen[..i]);
    assert AnswerHolds(p, ArgumentAt(call, longer[i].parameterIndex), chosen[i]);
    assert chosen[i] in values;
  }

  lemma AssignmentMore(p: Program, operands: seq<StaticOperand>, i: nat, call: CallEdge, values: set<string>,
                       m': map<Field, string>, m: map<Field, string>)
    requires i < |operands|
    requires forall v :: AnswerHolds(p, ArgumentAt(call, operands[i].parameterIndex), v) <==> v in values
    requires IsAssignment(p, operands[..i], call, m') && ExpandsTo(m', operands[i].field, values, m)
    ensures IsAssignment(p, operands[..i + 1], call, m)
  {
    hide AnswerHolds, ArgumentAt;
    var front, longer := operands[..i], operands[..i + 1];
    assert longer[..i] == front && longer[i] == operands[i];
    var v :| v in values && m == m'[operands[i].field := v];
    var chosen :| Choice(p, front, call, chosen) && m' == Assign(front, chosen);
    var more := chosen + [v];
    assert more[..i] == chosen;
    assert Choice(p, longer, call, more);
    assert m == Assign(longer, more);
  }

  /** Extends each assignment by each value. */
  method Expand(assignments: seq<map<Field, string>>, field: Field, values: set<string>)
    returns (expanded: seq<map<Field, string>>)
    ensures forall m :: m in expanded <==> exists m' :: m' in assignments && ExpandsTo(m', field, values, m)
  {
    hide ExpandsTo;
    expanded := [];
    var i := 0;
    while i < |assignments|
      invariant 0 <= i <= |assignments|
      invariant forall m :: m in expanded <==>
                  exists m' :: m' in assignments[..i] && ExpandsTo(m', field, values, m)
    {
      var more := ExpandOne(assignments[i], field, values);
      assert assignments[..i + 1] == assignments[..i] + [assignments[i]];
      expanded := expanded + more;
      i := i + 1;
    }
    assert assignments[..i] == assignments;
  }

  method ExpandOne(assignment: map<Field, string>, field: Field, values: set<string>)
    returns (expanded: seq<map<Field, string>>)
    ensures forall m :: m in expanded <==> ExpandsTo(assignment, field, values, m)
  {
    expanded := [];
    var rest := values;
    while rest != {}
      invariant rest <= values
      invariant forall m :: m in expanded <==> ExpandsTo(assignment, field, values - rest, m)
      decreases rest
    {
      var v :| v in rest;
      ghost var done := values - rest;
      rest := rest - {v};
      assert values - rest == done + {v};
      forall m
        ensures ExpandsTo(assignment, field, values - rest, m) <==>
                ExpandsTo(assignment, field, done, m) || m == assignment[field := v]
      {
        if m == assignment[field := v] {
          assert v in values - rest;
        }
      }
      expanded := expanded + [assignment[field := v]];
    }
    assert values - rest == values;
  }

  /** The assignments of a call: none unless every operand resolves. */
  method Assignments(resolver: Resolver, t: Template, call: CallEdge) returns (assignments: seq<map<Field, string>>)
    requires resolver.Sound() && resolver.visiting == {}
    modifies resolver
    ensures resolver.Sound() && resolver.visiting == {}
    ensures forall m :: m in assignments <==> IsAssignment(resolver.program, t.operands, call, m)
  {
    hide AnswerHolds, ArgumentAnswer, IsAssignment, Answer;
    ghost var p := resolver.program;
    assignments := [map[]];
    NoOperands(p, call);
    assert t.operands[..0] == [];
    var i := 0;
    while i < |t.operands|
      invariant 0 <= i <= |t.operands| && resolver.Sound() && resolver.visiting == {}
      invariant forall m :: m in assignments <==> IsAssignment(p, t.operands[..i], call, m)
    {
      var operand := t.operands[i];
      if |call.arguments| <= operand.parameterIndex {
        UnknownHasNoAnswer(p);
        UnresolvedOperand(p, t.operands, i, call);
        return [];
      }
      var argument := call.arguments[operand.parameterIndex];
      if argument.Parameter? {
        var key := ParameterKey(argument.unit, argument.index);
        assert [] + [key] == [key];
      }
      var values := resolver.ResolveArgument(argument, []);
      if values.None? {
        UnresolvedOperand(p, t.operands, i, call);
        return [];
      }
      var expanded := Expand(assignments, operand.field, values.value);
      forall m
        ensures m in expanded <==> IsAssignment(p, t.operands[..i + 1], call, m)
      {
        AssignmentSnoc(p, t.operands, i, call, values.value, m);
      }
      assignments := expanded;
      i := i + 1;
    }
    assert t.operands[..i] == t.operands;
  }

  lemma HoldsIn(p: Program, a: ArgumentFlow, values: set<string>)
    requires ArgumentAnswer(p, a) == Some(values)
    ensures forall v :: AnswerHolds(p, a, v) <==> v in values
  {
  }

  lemma NoOperands(p: Program, call: CallEdge)
    ensures forall m :: IsAssignment(p, [], call, m) <==> m == map[]
  {
    assert Choice(p, [], call, []);
  }

  lemma UnresolvedOperand(p: Program, operands: seq<StaticOperand>, i: nat, call: CallEdge)
    requires i < |operands| && ArgumentAnswer(p, ArgumentAt(call, operands[i].parameterIndex)).None?
    ensures forall m :: !IsAssignment(p, operands, call, m)
  {
    forall values
      ensures !Choice(p, operands, call, values)
    {
      if |values| == |operands| {
        assert !AnswerHolds(p, ArgumentAt(call, operands[i].parameterIndex), values[i]);
      }
    }
  }

  /**
   * Everything that is emitted, sorted by a comparison that is given and without repetitions side by
   * side.
   */
  method SpecializeEffects(p: Program, templates: seq<Template>, policy: Policy,
                           before: (Specialization, Specialization) -> bool)
    returns (output: seq<Specialization>)
    requires Comparable(before)
    ensures forall s :: s in output <==> exists t, call :: t in templates && EmittedFor(p, policy, t, call, s)
    ensures InOrder(before, output) && forall i | 0 < i < |output| :: output[i - 1] != output[i]
  {
    hide EmittedFor;
    var all := SpecializeAll(p, templates, policy);
    SortMeans(before, all);
    UniqueMeans(before, Sort(before, all));
    output := Unique(Sort(before, all));
  }

  method SpecializeAll(p: Program, templates: seq<Template>, policy: Policy) returns (output: seq<Specialization>)
    ensures forall s :: s in output <==> exists t, call :: t in templates && EmittedFor(p, policy, t, call, s)
  {
    hide IsAssignment;
    var resolver := new Resolver(p);
    output := [];
    var i := 0;
    while i < |templates|
      invariant 0 <= i <= |templates| && resolver.Sound() && resolver.visiting == {} && fresh(resolver)
      invariant resolver.program == p
      invariant forall s :: s in output <==> exists t, call :: t in templates[..i] && EmittedFor(p, policy, t, call, s)
    {
      var more := SpecializeTemplate(resolver, templates[i], policy);
      assert templates[..i + 1] == templates[..i] + [templates[i]];
      output := output + more;
      i := i + 1;
    }
    assert templates[..i] == templates;
  }

  lemma EmittedForTrusted(p: Program, policy: Policy, t: Template)
    ensures forall call, s | EmittedFor(p, policy, t, call, s) ::
              p.Trusted(t.unit) && call in p.calls && call.target == t.unit
  {
  }

  method SpecializeTemplate(resolver: Resolver, t: Template, policy: Policy) returns (output: seq<Specialization>)
    requires resolver.Sound() && resolver.visiting == {}
    modifies resolver
    ensures resolver.Sound() && resolver.visiting == {}
    ensures forall s :: s in output <==> exists call :: EmittedFor(resolver.program, policy, t, call, s)
  {
    hide EmittedFor;
    ghost var p := resolver.program;
    EmittedForTrusted(p, policy, t);
    output := [];
    if !resolver.program.Trusted(t.unit) {
      return;
    }
    var calls := resolver.program.Incoming(t.unit);
    CallsToExact(p.calls, t.unit);
    var i := 0;
    while i < |calls|
      invariant 0 <= i <= |calls| && resolver.Sound() && resolver.visiting == {}
      invariant forall s :: s in output <==> exists k :: 0 <= k < i && EmittedFor(p, policy, t, calls[k], s)
    {
      assert calls[i] in calls;
      var more := SpecializeCallIfAllowed(resolver, policy, t, calls[i]);
      output := output + more;
      i := i + 1;
    }
    forall s, call | EmittedFor(p, policy, t, call, s)
      ensures s in output
    {
      assert call in calls;
      var k :| 0 <= k < |calls| && calls[k] == call;
    }
  }

  method SpecializeCallIfAllowed(resolver: Resolver, policy: Policy, t: Template, call: CallEdge)
    returns (output: seq<Specialization>)
    requires resolver.Sound() && resolver.visiting == {}
    requires resolver.program.Trusted(t.unit) && call in resolver.program.calls && call.target == t.unit
    modifies resolver
    ensures resolver.Sound() && resolver.visiting == {}
    ensures forall s :: s in output <==> EmittedFor(resolver.program, policy, t, call, s)
  {
    hide IsAssignment, Compatible;
    if !call.argumentsSafe || !Compatible(policy, t, call) {
      return [];
    }
    output := SpecializeCall(resolver, t, call);
  }

  method SpecializeCall(resolver: Resolver, t: Template, call: CallEdge) returns (output: seq<Specialization>)
    requires resolver.Sound() && resolver.visiting == {}
    modifies resolver
    ensures resolver.Sound() && resolver.visiting == {}
    ensures forall s :: s in output <==>
              IsAssignment(resolver.program, t.operands, call, s.operands) && s == Specialized(t, call, s.operands)
  {
    hide IsAssignment;
    var assignments := Assignments(resolver, t, call);
    output := seq(|assignments|, k requires 0 <= k < |assignments| => Specialized(t, call, assignments[k]));
    forall s
      ensures s in output <==> s.operands in assignments && s == Specialized(t, call, s.operands)
    {
      if s.operands in assignments && s == Specialized(t, call, s.operands) {
        var k :| 0 <= k < |assignments| && assignments[k] == s.operands;
        assert output[k] == s;
      }
    }
  }
}
