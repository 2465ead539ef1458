/**
 * Which strings can reach a static operand: literals followed backwards through the parameters they
 * are forwarded by, with a cache of answers and cycles cut.
 */
module Operands {
  import opened Options
  import opened Grounding

  type UnitId = string

  datatype ArgumentFlow = LiteralString(value: string) | Parameter(unit: UnitId, index: nat) | Unknown

  datatype CallPosition = Synchronous | SequentialAwait | TailReturn

  datatype CallEdge = CallEdge(callerModule: string, start: nat, end: nat, target: UnitId,
                               arguments: seq<ArgumentFlow>, argumentsSafe: bool, position: CallPosition)

  datatype ParameterKey = ParameterKey(unit: UnitId, index: nat)

  /** The calls, and the units all of whose calls are known; None means all units. */
  datatype Program = Program(calls: seq<CallEdge>, complete: Option<set<UnitId>>)
  {
    predicate Trusted(unit: UnitId) {
      complete.None? || unit in complete.value
    }

    function Incoming(unit: UnitId): seq<CallEdge> {
      CallsTo(calls, unit)
    }
  }

  function CallsTo(calls: seq<CallEdge>, unit: UnitId): seq<CallEdge> {
    if calls == [] then []
    else (if calls[0].target == unit then [calls[0]] else []) + CallsTo(calls[1..], unit)
  }

  lemma {:induction false} CallsToExact(calls: seq<CallEdge>, unit: UnitId)
    ensures forall c :: c in CallsTo(calls, unit) <==> c in calls && c.target == unit
  {
    if calls != [] {
      CallsToExact(calls[1..], unit);
      assert calls == [calls[0]] + calls[1..];
    }
  }

  // ----- the backward flow of parameters -----

  function ArgumentAt(call: CallEdge, index: nat): ArgumentFlow {
    if index < |call.arguments| then call.arguments[index] else Unknown
  }

  /** Every call of the unit is known and passes something known in this place. */
  predicate Fits(p: Program, key: ParameterKey) {
    && p.Trusted(key.unit)
    && p.Incoming(key.unit) != []
    && forall c | c in p.Incoming(key.unit) :: ArgumentAt(c, key.index) != Unknown
  }

  /** The parameters that are forwarded to this one. */
  function Sources(p: Program, key: ParameterKey): set<ParameterKey> {
    set c | c in p.Incoming(key.unit) && ArgumentAt(c, key.index).Parameter? ::
      ParameterKey(ArgumentAt(c, key.index).unit, ArgumentAt(c, key.index).index)
  }

  function Flow(p: Program): System<ParameterKey> {
    System(k => Fits(p, k), k => Sources(p, k))
  }

  /** The backward flow from the key is complete, ends in literals and has no cycle. */
  ghost predicate Resolvable(p: Program, key: ParameterKey) {
    Grounded(Flow(p), key)
  }

  ghost predicate PassesLiteral(p: Program, key: ParameterKey, value: string) {
    exists c | c in p.Incoming(key.unit) :: ArgumentAt(c, key.index) == LiteralString(value)
  }

  /** The literal is passed somewhere back along the flow. */
  ghost predicate Reaches(p: Program, key: ParameterKey, value: string) {
    exists path :: IsPath(Flow(p), path) && path[0] == key && PassesLiteral(p, path[|path| - 1], value)
  }

  function AllLiterals(calls: seq<CallEdge>): set<string> {
    set c, a | c in calls && a in c.arguments && a.LiteralString? :: a.value
  }

  ghost function ReachableLiterals(p: Program, key: ParameterKey): set<string> {
    set v | v in AllLiterals(p.calls) && Reaches(p, key, v)
  }

  /** What resolving a parameter must answer. */
  ghost function Answer(p: Program, key: ParameterKey): Option<set<string>> {
    if Resolvable(p, key) then Some(ReachableLiterals(p, key)) else None
  }

  ghost function ArgumentAnswer(p: Program, a: ArgumentFlow): Option<set<string>> {
    match a
    case LiteralString(value) => Some({value})
    case Parameter(unit, index) => Answer(p, ParameterKey(unit, index))
    case Unknown => None
  }

  lemma ReachesIsLiteral(p: Program, key: ParameterKey, value: string)
    requires Reaches(p, key, value)
    ensures value in AllLiterals(p.calls)
  {
    var path: seq<ParameterKey> :|
      IsPath(Flow(p), path) && path[0] == key && PassesLiteral(p, path[|path| - 1], value);
    var last := path[|path| - 1];
    CallsToExact(p.calls, last.unit);
    var c :| c in p.Incoming(last.unit) && ArgumentAt(c, last.index) == LiteralString(value);
    assert c.arguments[last.index] in c.arguments;
  }

  /** One step back: a reachable literal is passed here, or reaches a source. */
  lemma ReachesUnfolds(p: Program, key: ParameterKey, value: string)
    ensures Reaches(p, key, value) <==>
      PassesLiteral(p, key, value) || exists d | d in Sources(p, key) :: Reaches(p, d, value)
  {
    hide PassesLiteral, Reaches, Sources;
    if Reaches(p, key, value) && !PassesLiteral(p, key, value) {
      var d := ReachesBack(p, key, value);
    }
    if PassesLiteral(p, key, value) {
      ReachesHere(p, key, value);
    }
    forall d | d in Sources(p, key) && Reaches(p, d, value)
      ensures Reaches(p, key, value)
    {
      ReachesOn(p, key, d, value);
    }
  }

  lemma ReachesHere(p: Program, key: ParameterKey, value: string)
    requires PassesLiteral(p, key, value)
    ensures Reaches(p, key, value)
  {
    assert IsPath(Flow(p), [key]);
  }

  lemma ReachesBack(p: Program, key: ParameterKey, value: string) returns (d: ParameterKey)
    requires Reaches(p, key, value) && !PassesLiteral(p, key, value)
    ensures d in Sources(p, key) && Reaches(p, d, value)
  {
    hide PassesLiteral;
    var path :| IsPath(Flow(p), path) && path[0] == key && PassesLiteral(p, path[|path| - 1], value);
    d := path[1];
    assert DependsOn(Flow(p), path[0], path[1]);
    PathSlice(Flow(p), path, 1, |path|);
    assert path[1..][0] == d && path[1..][|path[1..]| - 1] == path[|path| - 1];
  }

  lemma ReachesOn(p: Program, key: ParameterKey, d: ParameterKey, value: string)
    requires d in Sources(p, key) && Reaches(p, d, value)
    ensures Reaches(p, key, value)
  {
    hide PassesLiteral;
    var path :| IsPath(Flow(p), path) && path[0] == d && PassesLiteral(p, path[|path| - 1], value);
    PathCons(Flow(p), key, path);
    assert ([key] + path)[|path|] == path[|path| - 1];
  }

  /** The answers of the arguments in one place of some calls, put together. */
  ghost function Together(p: Program, calls: seq<CallEdge>, index: nat): set<string> {
    if calls == [] then {}
    else
      var rest := calls[..|calls| - 1];
      var own := ArgumentAnswer(p, ArgumentAt(calls[|calls| - 1], index));
      Together(p, rest, index) + (if own.Some? then own.value else {})
  }

  lemma {:induction false} TogetherHolds(p: Program, calls: seq<CallEdge>, index: nat, value: string)
    ensures value in Together(p, calls, index) <==>
      exists c | c in calls :: AnswerHolds(p, ArgumentAt(c, index), value)
  {
    hide ArgumentAnswer, ArgumentAt;
    if calls != [] {
      var last := |calls| - 1;
      assert calls == calls[..last] + [calls[last]];
      TogetherHolds(p, calls[..last], index, value);
    }
  }

  ghost predicate AnswerHolds(p: Program, a: ArgumentFlow, value: string) {
    var answer := ArgumentAnswer(p, a);
    answer.Some? && value in answer.value
  }

  lemma AnswerReaches(p: Program, key: ParameterKey, c: CallEdge, value: string)
    requires c in p.Incoming(key.unit) && AnswerHolds(p, ArgumentAt(c, key.index), value)
    ensures Reaches(p, key, value)
  {
    hide Reaches;
    ReachesUnfolds(p, key, value);
    var a := ArgumentAt(c, key.index);
    if a.Parameter? {
      assert ParameterKey(a.unit, a.index) in Sources(p, key);
    } else {
      assert PassesLiteral(p, key, value);
    }
  }

  lemma ReachesAnswer(p: Program, key: ParameterKey, value: string) returns (c: CallEdge)
    requires Resolvable(p, key) && Reaches(p, key, value)
    ensures c in p.Incoming(key.unit) && AnswerHolds(p, ArgumentAt(c, key.index), value)
  {
    hide Reaches, Grounded;
    ReachesUnfolds(p, key, value);
    ResolvableByCalls(p, key);
    if PassesLiteral(p, key, value) {
      c :| c in p.Incoming(key.unit) && ArgumentAt(c, key.index) == LiteralString(value);
    } else {
      var d :| d in Sources(p, key) && Reaches(p, d, value);
      c :| c in p.Incoming(key.unit) && ArgumentAt(c, key.index) == Parameter(d.unit, d.index);
      ReachesIsLiteral(p, d, value);
    }
  }

  /** A resolvable parameter gets what its calls pass, put together; and that is something. */
  lemma ReachableTogether(p: Program, key: ParameterKey)
    requires Resolvable(p, key)
    ensures ReachableLiterals(p, key) == Together(p, p.Incoming(key.unit), key.index)
    ensures ReachableLiterals(p, key) != {}
  {
    var k: nat :| Within(Flow(p), key, k);
    var some := SomeLiteral(p, key, k);
    hide Reaches, Resolvable, ArgumentAnswer, ArgumentAt, Together;
    ReachesIsLiteral(p, key, some);
    var calls := p.Incoming(key.unit);
    forall v
      ensures v in ReachableLiterals(p, key) <==> v in Together(p, calls, key.index)
    {
      TogetherHolds(p, calls, key.index, v);
      if v in ReachableLiterals(p, key) {
        var c := ReachesAnswer(p, key, v);
      }
      if v in Together(p, calls, key.index) {
        var c :| c in calls && AnswerHolds(p, ArgumentAt(c, key.index), v);
        AnswerReaches(p, key, c, v);
        ReachesIsLiteral(p, key, v);
      }
    }
    assert some in ReachableLiterals(p, key);
  }

  lemma {:induction false} SomeLiteral(p: Program, key: ParameterKey, k: nat) returns (v: string)
    requires Within(Flow(p), key, k)
    ensures Reaches(p, key, v)
    decreases k
  {
    var c := p.Incoming(key.unit)[0];
    var a := ArgumentAt(c, key.index);
    if a.LiteralString? {
      v := a.value;
      assert PassesLiteral(p, key, v);
    } else {
      var d := ParameterKey(a.unit, a.index);
      SourceOf(p, key, c);
      assert Within(Flow(p), d, k - 1);
      v := SomeLiteral(p, d, k - 1);
    }
    ReachesUnfolds(p, key, v);
  }

  /** Being resolvable, call by call. */
  lemma ResolvableByCalls(p: Program, key: ParameterKey)
    ensures Resolvable(p, key) <==>
      && p.Trusted(key.unit) && p.Incoming(key.unit) != []
      && forall c | c in p.Incoming(key.unit) :: ArgumentAnswer(p, ArgumentAt(c, key.index)).Some?
  {
    GroundedUnfolds(Flow(p), key);
    if Resolvable(p, key) {
      forall c | c in p.Incoming(key.unit)
        ensures ArgumentAnswer(p, ArgumentAt(c, key.index)).Some?
      {
        var a := ArgumentAt(c, key.index);
        if a.Parameter? {
          assert ParameterKey(a.unit, a.index) in Sources(p, key);
        }
      }
    }
  }

  /** What some calls pass in one place, put together; None if one of them has no answer. */
  ghost function PassedBy(p: Program, calls: seq<CallEdge>, index: nat): Option<set<string>> {
    if calls == [] then Some({})
    else
      var rest := PassedBy(p, calls[..|calls| - 1], index);
      var own := ArgumentAnswer(p, ArgumentAt(calls[|calls| - 1], index));
      if rest.Some? && own.Some? then Some(rest.value + own.value) else None
  }

  lemma {:induction false} PassedByMeans(p: Program, calls: seq<CallEdge>, index: nat)
    ensures PassedBy(p, calls, index) ==
            if forall c | c in calls :: ArgumentAnswer(p, ArgumentAt(c, index)).Some?
            then Some(Together(p, calls, index)) else None
  {
    hide ArgumentAnswer, ArgumentAt;
    if calls != [] {
      var last := |calls| - 1;
      assert calls == calls[..last] + [calls[last]];
      PassedByMeans(p, calls[..last], index);
    }
  }

  lemma {:induction false} PassedByPrefix(p: Program, calls: seq<CallEdge>, i: nat, index: nat)
    requires i <= |calls| && PassedBy(p, calls[..i], index).None?
    ensures PassedBy(p, calls, index).None?
    decreases |calls|
  {
    hide ArgumentAnswer, ArgumentAt;
    if i < |calls| {
      assert calls[..|calls| - 1][..i] == calls[..i];
      PassedByPrefix(p, calls[..|calls| - 1], i, index);
    } else {
      assert calls[..i] == calls;
    }
  }

  lemma AnswerIsPassed(p: Program, key: ParameterKey)
    requires p.Trusted(key.unit)
    ensures var calls := p.Incoming(key.unit);
            && (calls == [] ==> Answer(p, key) == None)
            && (calls != [] ==> Answer(p, key) == PassedBy(p, calls, key.index))
    ensures Answer(p, key) != Some({})
  {
    hide Resolvable, ArgumentAnswer, ArgumentAt, ReachableLiterals;
    ResolvableByCalls(p, key);
    PassedByMeans(p, p.Incoming(key.unit), key.index);
    if Resolvable(p, key) {
      ReachableTogether(p, key);
    }
  }

  class Resolver {
    const program: Program
    var cache: map<ParameterKey, Option<set<string>>>
    var visiting: set<ParameterKey>

    constructor (program: Program)
      ensures this.program == program && Sound() && visiting == {}
    {
      this.program := program;
      cache, visiting := map[], {};
    }

    /** Every cached answer is right, whatever was asked before. */
    ghost predicate Sound()
      reads this
    {
      forall k | k in cache :: cache[k] == Answer(program, k)
    }

    ghost predicate Waiting(stack: seq<ParameterKey>, next: ParameterKey)
      reads this
    {
      visiting == (set k | k in stack) && IsPath(Flow(program), stack + [next])
    }

    method ResolveArgument(argument: ArgumentFlow, ghost stack: seq<ParameterKey>) returns (r: Option<set<string>>)
      requires Sound() && visiting == (set k | k in stack)
      requires argument.Parameter? ==> IsPath(Flow(program), stack + [ParameterKey(argument.unit, argument.index)])
      modifies this
      ensures Sound() && visiting == old(visiting)
      ensures r == ArgumentAnswer(program, argument)
      decreases Keys(program) - visiting, 3
    {
      match argument
      case LiteralString(value) => r := Some({value});
      case Parameter(unit, index) => r := ResolveParameter(ParameterKey(unit, index), stack);
      case Unknown => r := None;
    }

    method ResolveParameter(key: ParameterKey, ghost stack: seq<ParameterKey>) returns (r: Option<set<string>>)
      requires Sound() && Waiting(stack, key)
      modifies this
      ensures Sound() && visiting == old(visiting)
      ensures r == Answer(program, key)
      decreases Keys(program) - visiting, 2
    {
      hide Resolvable, ReachableLiterals, Fits, Sources, Keys;
      if key in cache {
        return cache[key];
      }
      if key in visiting {
        CutIsSound(program, stack, key);
        return None;
      }
      ResolvableByCalls(program, key);
      if !program.Trusted(key.unit) {
        cache := cache[key := None];
        return None;
      }
      r := ResolveCalls(key, stack);
      cache := cache[key := r];
    }

    method ResolveCalls(key: ParameterKey, ghost stack: seq<ParameterKey>) returns (r: Option<set<string>>)
      requires Sound() && Waiting(stack, key) && key !in visiting && program.Trusted(key.unit)
      modifies this
      ensures Sound() && visiting == old(visiting)
      ensures r == Answer(program, key)
      decreases Keys(program) - visiting, 1
    {
      hide Answer, Fits, Sources, ArgumentAnswer, ArgumentAt, Keys;
      visiting := visiting + {key};
      ghost var longer := stack + [key];
      assert visiting == set k | k in longer;
      var values := {};
      var calls := program.Incoming(key.unit);
      var complete := calls != [];
      AnswerIsPassed(program, key);
      assert calls[..0] == [];
      var i := 0;
      while i < |calls|
        invariant 0 <= i <= |calls| && Sound() && visiting == old(visiting) + {key}
        invariant complete ==> PassedBy(program, calls[..i], key.index) == Some(values)
        invariant !complete ==> Answer(program, key) == None
      {
        assert visiting - {key} == old(visiting);
        var more := ResolveAt(key, calls[i], longer);
        assert calls[..i + 1][..i] == calls[..i];
        if more.None? {
          complete := false;
          PassedByPrefix(program, calls, i + 1, key.index);
          break;
        }
        values := values + more.value;
        i := i + 1;
      }
      assert calls[..|calls|] == calls;
      visiting := visiting - {key};
      r := if complete && values != {} then Some(values) else None;
    }

    /** What one call passes in the place of a parameter that is being visited. */
    method ResolveAt(key: ParameterKey, call: CallEdge, ghost longer: seq<ParameterKey>)
      returns (r: Option<set<string>>)
      requires Sound() && visiting == (set k | k in longer) && key in visiting && call in program.Incoming(key.unit)
      requires longer != [] && longer[|longer| - 1] == key && IsPath(Flow(program), longer)
      modifies this
      ensures Sound() && visiting == old(visiting)
      ensures r == ArgumentAnswer(program, ArgumentAt(call, key.index))
      decreases Keys(program) - (visiting - {key}), 0
    {
      hide Resolvable, ReachableLiterals, Fits, Sources, ArgumentAnswer, Keys;
      if |call.arguments| <= key.index {
        UnknownHasNoAnswer(program);
        return None;
      }
      var argument := call.arguments[key.index];
      if argument.Parameter? {
        SourceOf(program, key, call);
        PathSnoc(Flow(program), longer, ParameterKey(argument.unit, argument.index));
      }
      KeyIsKnown(program, key, call);
      r := ResolveArgument(argument, longer);
    }
  }

  lemma TogetherNothing(p: Program, index: nat)
    ensures Together(p, [], index) == {}
  {
  }

  lemma UnknownHasNoAnswer(p: Program)
    ensures ArgumentAnswer(p, Unknown).None?
  {
  }

  lemma SourceOf(p: Program, key: ParameterKey, c: CallEdge)
    requires c in p.Incoming(key.unit) && ArgumentAt(c, key.index).Parameter?
    ensures ParameterKey(ArgumentAt(c, key.index).unit, ArgumentAt(c, key.index).index) in Flow(p).deps(key)
  {
  }

  /** A parameter met again while it is being resolved is on a cycle. */
  lemma CutIsSound(p: Program, stack: seq<ParameterKey>, key: ParameterKey)
    requires IsPath(Flow(p), stack + [key]) && key in stack
    ensures !Resolvable(p, key)
  {
    var path := stack + [key];
    var i :| 0 <= i < |stack| && stack[i] == key;
    PathSlice(Flow(p), path, i, |path|);
    CycleIsUngrounded(Flow(p), path[i..]);
  }

  lemma KeyIsKnown(p: Program, key: ParameterKey, c: CallEdge)
    requires c in p.Incoming(key.unit) && key.index < |c.arguments|
    ensures key in Keys(p)
  {
    CallsToExact(p.calls, key.unit);
    LongestIsLongest(p.calls, c);
    assert key == ParameterKey(c.target, key.index);
  }

  /** The parameters that anything can be forwarded to. */
  ghost function Keys(p: Program): set<ParameterKey> {
    set c, i | c in p.calls && 0 <= i <= LongestCall(p.calls) :: ParameterKey(c.target, i)
  }

  ghost function LongestCall(calls: seq<CallEdge>): nat {
    if calls == [] then 0
    else
      var rest := LongestCall(calls[1..]);
      if |calls[0].arguments| > rest then |calls[0].arguments| else rest
  }

  lemma {:induction false} LongestIsLongest(calls: seq<CallEdge>, c: CallEdge)
    requires c in calls
    ensures |c.arguments| <= LongestCall(calls)
  {
    if c != calls[0] {
      LongestIsLongest(calls[1..], c);
    }
  }
}
