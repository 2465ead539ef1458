/** What resolved operands say about the operands of actual runs. */
module ActualRuns {
  import opened Options
  import opened Grounding
  import opened Operands
  import opened Specialize

  datatype Value = Text(text: string) | NotText

  /** An activation of a unit, through a call or from outside the program, with its actual arguments. */
  datatype Activation = Activation(unit: UnitId, via: Option<CallEdge>, arguments: seq<Value>)
  {
    /** An argument that is missing is no string. */
    function Got(index: nat): Value {
      if index < |arguments| then arguments[index] else NotText
    }
  }

  /**
   * Whether an argument stays in its place. The flag of a call is cleared for an argument that is awaited
   * or spread, which is then unknown; if it is spread, what stands behind it is shifted.
   */
  predicate Keeps(c: CallEdge, index: nat) {
    c.argumentsSafe || forall j | 0 <= j < index && j < |c.arguments| :: c.arguments[j] != Unknown
  }

  predicate Literally(c: CallEdge, index: nat) {
    index < |c.arguments| && Keeps(c, index) && c.arguments[index].LiteralString?
  }

  predicate Forwards(c: CallEdge, index: nat) {
    index < |c.arguments| && Keeps(c, index) && c.arguments[index].Parameter?
  }

  /** The call is made in this activation, whose parameters it forwards. */
  ghost predicate MadeIn(caller: Activation, c: CallEdge, callee: Activation) {
    forall j: nat | Forwards(c, j) ::
      caller.unit == c.arguments[j].unit && callee.Got(j) == caller.Got(c.arguments[j].index)
  }

  /**
   * A run of the program: trusted units are activated only by its calls, and every call passes the
   * literals that stay in their places and forwards the parameters that do from one earlier activation.
   */
  ghost predicate Legal(p: Program, run: seq<Activation>) {
    forall i | 0 <= i < |run| :: LegalAt(p, run, i)
  }

  ghost predicate LegalAt(p: Program, run: seq<Activation>, i: nat)
    requires i < |run|
  {
    match run[i].via
    case None => !p.Trusted(run[i].unit)
    case Some(c) =>
      && c in p.calls && c.target == run[i].unit
      && (forall j: nat | Literally(c, j) :: run[i].Got(j) == Text(c.arguments[j].value))
      && ((exists j: nat :: Forwards(c, j)) ==> exists k :: 0 <= k < i && MadeIn(run[k], c, run[i]))
  }

  /** Every call of the unit passes the parameter in its place. */
  ghost predicate Kept(p: Program, key: ParameterKey) {
    forall c | c in p.Incoming(key.unit) :: Keeps(c, key.index)
  }

  /** All along the backward flow from the key, the argument that is followed stays in its place. */
  ghost predicate SafeFlow(p: Program, key: ParameterKey) {
    forall path | IsPath(Flow(p), path) && path[0] == key :: Kept(p, path[|path| - 1])
  }

  lemma SafeFlowSteps(p: Program, key: ParameterKey, d: ParameterKey)
    requires SafeFlow(p, key) && d in Sources(p, key)
    ensures SafeFlow(p, d)
  {
    hide Kept;
    forall path | IsPath(Flow(p), path) && path[0] == d
      ensures Kept(p, path[|path| - 1])
    {
      PathCons(Flow(p), key, path);
      assert ([key] + path)[|path|] == path[|path| - 1];
    }
  }

  lemma SafeHere(p: Program, key: ParameterKey)
    requires SafeFlow(p, key)
    ensures Kept(p, key)
  {
    hide Kept;
    assert IsPath(Flow(p), [key]);
  }

  /** The value is one of the strings that the parameter resolves to. */
  ghost predicate AnswerIncludes(p: Program, key: ParameterKey, v: Value) {
    v.Text? && v.text in ReachableLiterals(p, key)
  }

  /** In every run, a resolved parameter gets one of the strings it resolves to. */
  lemma {:induction false} ParameterIsSound(p: Program, run: seq<Activation>, i: nat, key: ParameterKey)
    requires Legal(p, run) && i < |run| && run[i].unit == key.unit
    requires Resolvable(p, key) && SafeFlow(p, key)
    ensures AnswerIncludes(p, key, run[i].Got(key.index))
    decreases i
  {
    hide Resolvable, SafeFlow, ReachableLiterals, Reaches, Keeps;
    ResolvableByCalls(p, key);
    assert LegalAt(p, run, i);
    var c := run[i].via.value;
    CallsToExact(p.calls, key.unit);
    SafeHere(p, key);
    var a := ArgumentAt(c, key.index);
    UnknownHasNoAnswer(p);
    match a
    case LiteralString(value) =>
      assert Literally(c, key.index);
      assert AnswerHolds(p, a, value);
      AnswerReaches(p, key, c, value);
      ReachableIfReaches(p, key, value);
    case Parameter(unit, index) =>
      assert Forwards(c, key.index);
      var k :| 0 <= k < i && MadeIn(run[k], c, run[i]);
      var d := ParameterKey(unit, index);
      SourceOf(p, key, c);
      SafeFlowSteps(p, key, d);
      ParameterIsSound(p, run, k, d);
      var text := run[k].Got(index).text;
      assert AnswerHolds(p, a, text);
      AnswerReaches(p, key, c, text);
      ReachableIfReaches(p, key, text);
  }

  lemma ReachableIfReaches(p: Program, key: ParameterKey, value: string)
    requires Reaches(p, key, value)
    ensures value in ReachableLiterals(p, key)
  {
    ReachesIsLiteral(p, key, value);
  }

  // ----- the operands of an effect -----

  /** Every operand argument of the call resolves, along arguments that stay in their places. */
  ghost predicate OperandsResolve(p: Program, t: Template, call: CallEdge) {
    forall j | 0 <= j < |t.operands| ::
      && t.operands[j].parameterIndex < |call.arguments|
      && ArgumentResolves(p, call.arguments[t.operands[j].parameterIndex])
  }

  ghost predicate ArgumentResolves(p: Program, a: ArgumentFlow) {
    && ArgumentAnswer(p, a).Some?
    && (a.Parameter? ==> SafeFlow(p, ParameterKey(a.unit, a.index)))
  }

  /** The strings that an activation has got for the operands. */
  ghost predicate ActualOperands(t: Template, a: Activation, values: seq<string>) {
    && |values| == |t.operands|
    && forall j | 0 <= j < |values| :: a.Got(t.operands[j].parameterIndex) == Text(values[j])
  }

  /** In every run, the operands that an effect is performed with are among those emitted for its call. */
  lemma ActualOperandsAreEmitted(p: Program, policy: Policy, t: Template, run: seq<Activation>, i: nat, call: CallEdge)
    returns (values: seq<string>)
    requires Legal(p, run) && i < |run| && run[i].unit == t.unit && run[i].via == Some(call)
    requires p.Trusted(t.unit) && call.argumentsSafe && Compatible(policy, t, call) && OperandsResolve(p, t, call)
    ensures ActualOperands(t, run[i], values)
    ensures EmittedFor(p, policy, t, call, Specialized(t, call, Assign(t.operands, values)))
  {
    hide SafeFlow, Resolvable, ReachableLiterals;
    assert LegalAt(p, run, i);
    forall j | 0 <= j < |t.operands|
      ensures var index := t.operands[j].parameterIndex;
              run[i].Got(index).Text? && AnswerHolds(p, ArgumentAt(call, index), run[i].Got(index).text)
    {
      ArgumentIsSound(p, run, i, call, t.operands[j].parameterIndex);
    }
    values := seq(|t.operands|, j requires 0 <= j < |t.operands| => TextOf(run[i].Got(t.operands[j].parameterIndex)));
    assert Choice(p, t.operands, call, values);
  }

  function TextOf(v: Value): string {
    if v.Text? then v.text else ""
  }

  lemma ArgumentIsSound(p: Program, run: seq<Activation>, i: nat, call: CallEdge, index: nat)
    requires Legal(p, run) && i < |run| && run[i].via == Some(call) && call.argumentsSafe
    requires index < |call.arguments| && ArgumentResolves(p, call.arguments[index])
    ensures run[i].Got(index).Text? && AnswerHolds(p, call.arguments[index], run[i].Got(index).text)
  {
    hide SafeFlow, Resolvable, ReachableLiterals;
    assert LegalAt(p, run, i);
    var a := call.arguments[index];
    if a.Parameter? {
      assert Forwards(call, index);
      var k :| 0 <= k < i && MadeIn(run[k], call, run[i]);
      ParameterIsSound(p, run, k, ParameterKey(a.unit, a.index));
    } else {
      assert Literally(call, index);
    }
  }

  // ----- why every argument on the way must stay in its place -----

  /** A call forwards parameters of one unit: the one that it is in. */
  ghost predicate ForwardsOwn(p: Program) {
    forall c, i, j | c in p.calls && ArgumentAt(c, i).Parameter? && ArgumentAt(c, j).Parameter? ::
      ArgumentAt(c, i).unit == ArgumentAt(c, j).unit
  }

  /** Every unit whose parameters are forwarded is activated in the run. */
  ghost predicate SeesCallers(p: Program, run: seq<Activation>) {
    forall c, j: nat | c in p.calls && Forwards(c, j) :: Seen(run, c.arguments[j].unit)
  }

  ghost predicate Seen(run: seq<Activation>, unit: UnitId) {
    exists k :: 0 <= k < |run| && run[k].unit == unit
  }

  /** In every run, the parameter gets one of the strings it resolves to. */
  ghost predicate AlwaysResolved(p: Program, key: ParameterKey) {
    forall run: seq<Activation>, i: nat | Legal(p, run) && i < |run| && run[i].unit == key.unit ::
      AnswerIncludes(p, key, run[i].Got(key.index))
  }

  /**
   * Exactly when an answer can be relied on. The flag is tested on the call of the effect alone; what is
   * needed all along the flow behind it is that no unknown argument of a call whose flag is cleared
   * stands before the one that is followed.
   */
  lemma SoundIffFlowIsSafe(p: Program, key: ParameterKey, base: seq<Activation>)
    requires Resolvable(p, key) && ForwardsOwn(p) && Legal(p, base) && SeesCallers(p, base)
    ensures AlwaysResolved(p, key) <==> SafeFlow(p, key)
  {
    hide Resolvable, ReachableLiterals, SafeFlow, Legal, SeesCallers, ForwardsOwn;
    if SafeFlow(p, key) {
      forall run: seq<Activation>, i: nat | Legal(p, run) && i < |run| && run[i].unit == key.unit
        ensures AnswerIncludes(p, key, run[i].Got(key.index))
      {
        ParameterIsSound(p, run, i, key);
      }
    } else {
      var run := ShiftedRun(p, key, base);
      assert !AnswerIncludes(p, key, run[|run| - 1].Got(key.index));
    }
  }

  /** The last activation has got no string for the parameter. */
  ghost predicate LacksText(run: seq<Activation>, key: ParameterKey) {
    run != [] && run[|run| - 1].unit == key.unit && run[|run| - 1].Got(key.index) == NotText
  }

  lemma ShiftedRun(p: Program, key: ParameterKey, base: seq<Activation>) returns (run: seq<Activation>)
    requires !SafeFlow(p, key) && ForwardsOwn(p) && Legal(p, base) && SeesCallers(p, base)
    ensures Legal(p, run) && LacksText(run, key)
  {
    hide Legal, SeesCallers, ForwardsOwn, Keeps;
    var path: seq<ParameterKey> :| IsPath(Flow(p), path) && path[0] == key && !Kept(p, path[|path| - 1]);
    var c :| c in p.Incoming(path[|path| - 1].unit) && !Keeps(c, path[|path| - 1].index);
    run := Shift(p, path, c, base);
  }

  /** A run in which a spread argument shifts a string away, and the gap is forwarded to the head of the path. */
  lemma {:induction false} Shift(p: Program, path: seq<ParameterKey>, c: CallEdge, base: seq<Activation>)
    returns (run: seq<Activation>)
    requires IsPath(Flow(p), path) && c in p.Incoming(path[|path| - 1].unit) && !Keeps(c, path[|path| - 1].index)
    requires ForwardsOwn(p) && Legal(p, base) && SeesCallers(p, base)
    ensures Legal(p, run) && LacksText(run, path[0])
    decreases |path|
  {
    hide Legal, SeesCallers, ForwardsOwn, Keeps;
    CallsToExact(p.calls, path[0].unit);
    if |path| == 1 {
      var caller := CallerOf(p, c, base);
      run := Call(p, base, c, caller, path[0].index);
    } else {
      assert DependsOn(Flow(p), path[0], path[1]);
      PathSlice(Flow(p), path, 1, |path|);
      var before := Shift(p, path[1..], c, base);
      var e :| e in p.Incoming(path[0].unit) && ArgumentAt(e, path[0].index) == Parameter(path[1].unit, path[1].index);
      OwnUnit(p, e, path[0].index);
      run := Call(p, before, e, |before| - 1, path[0].index);
    }
  }

  lemma CallerOf(p: Program, c: CallEdge, run: seq<Activation>) returns (caller: nat)
    requires c in p.calls && ForwardsOwn(p) && SeesCallers(p, run)
    ensures MayCall(run, caller, c)
  {
    hide Keeps;
    if j: nat :| Forwards(c, j) {
      OwnUnit(p, c, j);
      assert Seen(run, c.arguments[j].unit);
      caller :| caller < |run| && run[caller].unit == c.arguments[j].unit;
    } else {
      caller := 0;
    }
  }

  lemma OwnUnit(p: Program, c: CallEdge, index: nat)
    requires c in p.calls && ForwardsOwn(p) && ArgumentAt(c, index).Parameter?
    ensures forall j: nat | Forwards(c, j) :: c.arguments[j].unit == ArgumentAt(c, index).unit
  {
    hide Keeps;
    forall j: nat | Forwards(c, j)
      ensures c.arguments[j].unit == ArgumentAt(c, index).unit
    {
      assert ArgumentAt(c, j) == c.arguments[j];
    }
  }

  /** The activation is one that the call can be made in. */
  ghost predicate MayCall(run: seq<Activation>, caller: nat, c: CallEdge) {
    forall j: nat | Forwards(c, j) :: caller < |run| && run[caller].unit == c.arguments[j].unit
  }

  /** The call is made; in the place that is asked for it passes what it forwards, or no string if it may be shifted. */
  lemma Call(p: Program, run: seq<Activation>, c: CallEdge, caller: nat, index: nat) returns (longer: seq<Activation>)
    requires Legal(p, run) && c in p.calls && MayCall(run, caller, c)
    requires Keeps(c, index) ==>
      Forwards(c, index) && run[caller].Got(c.arguments[index].index) == NotText
    ensures Legal(p, longer) && LacksText(longer, ParameterKey(c.target, index))
  {
    hide Legal, Keeps;
    var got := seq(|c.arguments|, j requires 0 <= j < |c.arguments| => Given(run, caller, c, j));
    var callee := Activation(c.target, Some(c), got);
    longer := run + [callee];
    assert forall j: nat | Literally(c, j) :: callee.Got(j) == Text(c.arguments[j].value);
    if j: nat :| Forwards(c, j) {
      assert MadeIn(run[caller], c, callee);
      assert longer[caller] == run[caller];
    }
    LegalSnoc(p, run, longer);
  }

  ghost function Given(run: seq<Activation>, caller: nat, c: CallEdge, j: nat): Value {
    if Literally(c, j) then Text(c.arguments[j].value)
    else if Forwards(c, j) && caller < |run| then run[caller].Got(c.arguments[j].index)
    else NotText
  }

  lemma LegalSnoc(p: Program, run: seq<Activation>, longer: seq<Activation>)
    requires Legal(p, run) && |longer| == |run| + 1 && longer[..|run|] == run
    requires LegalAt(p, longer, |run|)
    ensures Legal(p, longer)
  {
    forall i | 0 <= i < |longer|
      ensures LegalAt(p, longer, i)
    {
      if i < |run| {
        assert LegalAt(p, run, i);
        assert forall k | 0 <= k < |run| :: longer[k] == longer[..|run|][k];
        LegalEarlier(p, run, longer, i);
      }
    }
  }

  lemma LegalEarlier(p: Program, run: seq<Activation>, longer: seq<Activation>, i: nat)
    requires i < |run| <= |longer| && LegalAt(p, run, i)
    requires forall k | 0 <= k < |run| :: longer[k] == run[k]
    ensures LegalAt(p, longer, i)
  {
    hide MadeIn, Literally, Forwards;
    if run[i].via.Some? && exists j: nat :: Forwards(run[i].via.value, j) {
      var k :| 0 <= k < i && MadeIn(run[k], run[i].via.value, run[i]);
      assert longer[k] == run[k];
    }
  }

  // ----- an operand that is missing -----

  /** outer(...rest, "a"), and in outer the second parameter is loaded. */
  const SPREADING := CallEdge("m", 0, 1, "outer", [Unknown, LiteralString("a")], false, SequentialAwait)
  const FORWARDING := CallEdge("m", 2, 3, "load", [Parameter("outer", 1)], true, SequentialAwait)
  const SHIFTING := Program([SPREADING, FORWARDING], None)
  const LOAD := Template("load", "load", [StaticOperand(Table, 0)], Immediate, false)

  /** The spread has two elements, and the second is what the second parameter gets. */
  const SHIFTED := [Activation("outer", Some(SPREADING), [Text("b"), Text("c"), Text("a")]),
                    Activation("load", Some(FORWARDING), [Text("c")])]

  /** The effect is performed with "c", and what is emitted for its call has only "a". */
  lemma ShiftedOperandIsMissing(policy: Policy)
    ensures Legal(SHIFTING, SHIFTED) && SHIFTED[1].via == Some(FORWARDING) && SHIFTED[1].unit == LOAD.unit
    ensures ActualOperands(LOAD, SHIFTED[1], ["c"])
    ensures !EmittedFor(SHIFTING, policy, LOAD, FORWARDING, Specialized(LOAD, FORWARDING, map[Table := "c"]))
    ensures EmittedFor(SHIFTING, policy, LOAD, FORWARDING, Specialized(LOAD, FORWARDING, map[Table := "a"]))
  {
    hide ArgumentAnswer;
    assert SPREADING.arguments[0] == Unknown;
    assert !Keeps(SPREADING, 1);
    assert LegalAt(SHIFTING, SHIFTED, 0);
    assert Forwards(FORWARDING, 0) && MadeIn(SHIFTED[0], FORWARDING, SHIFTED[1]);
    assert LegalAt(SHIFTING, SHIFTED, 1);
    ShiftedAnswer();
    assert Assign(LOAD.operands, ["a"]) == map[Table := "a"] by {
      assert LOAD.operands[..0] == [] && ["a"][..0] == [];
    }
    assert Choice(SHIFTING, LOAD.operands, FORWARDING, ["a"]);
    forall values | Choice(SHIFTING, LOAD.operands, FORWARDING, values)
      ensures Assign(LOAD.operands, values) == map[Table := "a"]
    {
      assert AnswerHolds(SHIFTING, ArgumentAt(FORWARDING, 0), values[0]);
      assert values == ["a"];
    }
    assert map[Table := "c"][Table] != map[Table := "a"][Table];
  }

  lemma ShiftedAnswer()
    ensures ArgumentAnswer(SHIFTING, Parameter("outer", 1)) == Some({"a"})
  {
    hide Resolvable, ReachableLiterals;
    var p, key := SHIFTING, ParameterKey("outer", 1);
    OuterCalls();
    assert ArgumentAt(SPREADING, 1) == LiteralString("a");
    ResolvableByCalls(p, key);
    ReachableTogether(p, key);
    assert [SPREADING][..0] == [];
    TogetherNothing(p, 1);
    assert ArgumentAnswer(p, LiteralString("a")) == Some({"a"});
    assert Resolvable(p, key);
    assert Together(p, [SPREADING], 1) == {"a"};
  }

  lemma OuterCalls()
    ensures SHIFTING.Incoming("outer") == [SPREADING]
  {
    assert |"outer"| == 5 && |"load"| == 4;
    assert [SPREADING, FORWARDING][1..] == [FORWARDING] && [FORWARDING][1..] == [];
    assert CallsTo([FORWARDING], "outer") == [];
  }
}
