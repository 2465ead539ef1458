/**
 * The expressions that values flow through inside a callable, and what following them back gives:
 * the paths from their origins.
 */
module ValueExpr {
  import opened Options
  import opened Provenance

  const MAX_VARIANTS := 32

  datatype Callee = Named(name: string, range: Range) | StaticPromiseAll(promise: Range) | OtherCallee

  datatype Element = Hole | Spread | Item(value: Expr)

  datatype Argument = Argument(value: Expr, spread: bool, awaits: bool)

  datatype Expr =
    | Wrapped(inner: Expr)
    | Identifier(range: Range)
    | CallExpression(range: Range, optional: bool, callee: Callee, arguments: seq<Argument>)
    | ConditionalExpression(range: Range, consequent: Expr, alternate: Expr)
    | ArrayExpression(range: Range, elements: seq<Element>)
    | OtherExpression(range: Range)

  /** Without parentheses and type annotations. */
  function Unwrap(e: Expr): (v: Expr)
    ensures !v.Wrapped? && (e.Wrapped? ==> v < e) && (!e.Wrapped? ==> v == e)
  {
    if e.Wrapped? then Unwrap(e.inner) else e
  }

  function RangeOf(e: Expr): Range { Unwrap(e).range }

  datatype Binding = Binding(start: nat, end: nat)

  datatype Initializer = Initializer(value: Expr, constant: bool)

  /** The parameters of a callable, what its identifiers are bound to, and the initializers by declaration. */
  datatype Scope = Scope(parameterNames: seq<string>, parameterStarts: seq<nat>,
                         bindings: map<Range, Binding>, initializers: map<nat, Initializer>)

  datatype Path = Path(origin: Origin<Range>, steps: seq<Step<Range>>)

  // ----- one step back -----

  /** An expression to follow, and the declarations whose initializers are being followed. */
  datatype State = State(value: Expr, resolving: set<nat>)

  datatype Child = Child(step: Step<Range>, state: State)

  datatype Shape = Known(origin: Origin<Range>) | Follow(children: seq<Child>)

  function FirstAt(starts: seq<nat>, start: nat): Option<nat> {
    if starts == [] then None
    else if starts[0] == start then Some(0)
    else
      var rest := FirstAt(starts[1..], start);
      if rest.Some? then Some(rest.value + 1) else None
  }

  function ParameterOrigin(scope: Scope, reference: Range): Option<Origin<Range>>
    requires reference in scope.bindings
  {
    var b := scope.bindings[reference];
    var index := FirstAt(scope.parameterStarts, b.start);
    if index.Some? && index.value < |scope.parameterNames| then
      Some(ParameterValue(index.value, scope.parameterNames[index.value], Range(b.start, b.end), reference))
    else None
  }

  function AliasOf(b: Binding, initializer: Initializer, reference: Range): Alias<Range> {
    Alias(Range(b.start, b.end), RangeOf(initializer.value), reference)
  }

  predicate HasConstant(scope: Scope, reference: Range) {
    && reference in scope.bindings && scope.bindings[reference].start in scope.initializers
    && scope.initializers[scope.bindings[reference].start].constant
  }

  /** The array that is passed to Promise.all, and the alias it is passed by. */
  datatype PassedArray = PassedArray(elements: seq<Element>, alias: Option<Alias<Range>>)

  function ArrayPassed(scope: Scope, arguments: seq<Argument>): Option<PassedArray> {
    if |arguments| != 1 || arguments[0].spread then None
    else
      var argument := Unwrap(arguments[0].value);
      match argument
      case ArrayExpression(_, elements) => Some(PassedArray(elements, None))
      case Identifier(reference) =>
        if !HasConstant(scope, reference) then None
        else
          var b := scope.bindings[reference];
          var initializer := scope.initializers[b.start];
          var target := Unwrap(initializer.value);
          if target.ArrayExpression? then Some(PassedArray(target.elements, Some(AliasOf(b, initializer, reference))))
          else None
      case _ => None
  }

  function AllItems(elements: seq<Element>): bool {
    forall k | 0 <= k < |elements| :: elements[k].Item?
  }

  /** The elements that a call of Promise.all waits for; none if they are not all known. */
  function PromiseChildren(scope: Scope, call: Expr, resolving: set<nat>): seq<Child>
    requires call.CallExpression? && call.callee.StaticPromiseAll?
  {
    var passed := ArrayPassed(scope, call.arguments);
    if passed.None? || call.callee.promise in scope.bindings || !AllItems(passed.value.elements) then []
    else
      var items := passed.value.elements;
      seq(|items|, k requires 0 <= k < |items| =>
        Child(PromiseAllStep(call.range, call.callee.promise, RangeOf(call.arguments[0].value), passed.value.alias, k,
                             |items|, RangeOf(items[k].value)),
              State(Unwrap(items[k].value), resolving)))
  }

  function Explore(scope: Scope, s: State): Shape {
    var v := Unwrap(s.value);
    match v
    case Identifier(range) => ExploreIdentifier(scope, range, s.resolving)
    case CallExpression(range, optional, callee, arguments) =>
      if optional then Follow([])
      else (match callee
            case OtherCallee => Known(EffectSite(range))
            case Named(name, calleeRange) =>
              if exists a :: a in arguments && (a.spread || a.awaits) then Follow([])
              else Known(CallResult(range, name, calleeRange))
            case StaticPromiseAll(_) => Follow(PromiseChildren(scope, v, s.resolving)))
    case ConditionalExpression(range, consequent, alternate) =>
      Follow([Child(ChoiceStep(range, 0, RangeOf(consequent)), State(consequent, s.resolving)),
              Child(ChoiceStep(range, 1, RangeOf(alternate)), State(alternate, s.resolving))])
    case _ => Follow([])
  }

  function ExploreIdentifier(scope: Scope, range: Range, resolving: set<nat>): Shape {
    if range !in scope.bindings then Follow([])
    else
      var b := scope.bindings[range];
      var parameter := ParameterOrigin(scope, range);
      if parameter.Some? then Known(parameter.value)
      else if !HasConstant(scope, range) || b.start in resolving then Follow([])
      else
        var initializer := scope.initializers[b.start];
        Follow([Child(AliasStep(AliasOf(b, initializer, range)), State(initializer.value, resolving + {b.start}))])
  }

  // ----- all the way back -----

  datatype Gathered = OutOfFuel | Stopped | Paths(paths: seq<Path>)

  function Stepped(paths: seq<Path>, step: Step<Range>): seq<Path> {
    seq(|paths|, k requires 0 <= k < |paths| => paths[k].(steps := paths[k].steps + [step]))
  }

  /** All paths to an expression; None if it has not been followed to the end with this much fuel. */
  function Resolve(scope: Scope, s: State, fuel: nat): Option<seq<Path>>
    decreases fuel, 0
  {
    if fuel == 0 then None
    else match Explore(scope, s)
      case Known(origin) => Some([Path(origin, [])])
      case Follow(children) =>
        match Gather(scope, children, fuel - 1)
        case OutOfFuel => None
        case Stopped => Some([])
        case Paths(paths) => Some(paths)
  }

  /** The paths through some children; it stops for good once there are too many. */
  function Gather(scope: Scope, children: seq<Child>, fuel: nat): Gathered
    decreases fuel, |children|
  {
    if children == [] then Paths([])
    else
      var last := children[|children| - 1];
      match Gather(scope, children[..|children| - 1], fuel)
      case OutOfFuel => OutOfFuel
      case Stopped => Stopped
      case Paths(paths) => Added(paths, last.step, Resolve(scope, last.state, fuel))
  }

  function Added(paths: seq<Path>, step: Step<Range>, more: Option<seq<Path>>): Gathered {
    if more.None? then OutOfFuel
    else if |paths + Stepped(more.value, step)| > MAX_VARIANTS then Stopped
    else Paths(paths + Stepped(more.value, step))
  }

  /** Following the expression comes to an end. */
  ghost predicate Ends(scope: Scope, s: State) {
    exists fuel: nat :: Resolve(scope, s, fuel).Some?
  }

  lemma {:induction false} MoreFuel(scope: Scope, s: State, fuel: nat, fuel': nat)
    requires fuel <= fuel' && Resolve(scope, s, fuel).Some?
    ensures Resolve(scope, s, fuel') == Resolve(scope, s, fuel)
    decreases fuel, 0
  {
    hide Explore, Added;
    var shape := Explore(scope, s);
    if shape.Follow? {
      MoreFuelGathers(scope, shape.children, fuel - 1, fuel' - 1);
    }
  }

  lemma {:induction false} MoreFuelGathers(scope: Scope, children: seq<Child>, fuel: nat, fuel': nat)
    requires fuel <= fuel' && Gather(scope, children, fuel) != OutOfFuel
    ensures Gather(scope, children, fuel') == Gather(scope, children, fuel)
    decreases fuel, |children|
  {
    hide Stepped;
    if children != [] {
      var front, last := children[..|children| - 1], children[|children| - 1];
      MoreFuelGathers(scope, front, fuel, fuel');
      if Gather(scope, front, fuel).Paths? {
        MoreFuel(scope, last.state, fuel, fuel');
      }
    }
  }

  lemma {:induction false} GatherFew(scope: Scope, children: seq<Child>, fuel: nat)
    ensures var g := Gather(scope, children, fuel); g.Paths? ==> |g.paths| <= MAX_VARIANTS
  {
    hide Resolve, Stepped;
    if children != [] {
      GatherFew(scope, children[..|children| - 1], fuel);
    }
  }

  /** No more than 32 paths come back. */
  lemma PathsAreFew(scope: Scope, s: State, fuel: nat)
    requires Resolve(scope, s, fuel).Some?
    ensures |Resolve(scope, s, fuel).value| <= MAX_VARIANTS
  {
    hide Explore, Gather;
    var shape := Explore(scope, s);
    if shape.Follow? {
      GatherFew(scope, shape.children, fuel - 1);
    }
  }

  // ----- every path is an unbroken chain -----

  function OriginRange<R>(origin: Origin<R>): R {
    match origin
    case ParameterValue(_, _, _, reference) => reference
    case CallResult(callsite, _, _) => callsite
    case EffectSite(site) => site
  }

  function StepInput<R>(step: Step<R>): R {
    match step
    case AliasStep(alias) => alias.initializer
    case ChoiceStep(_, _, child) => child
    case PromiseAllStep(_, _, _, _, _, _, child) => child
  }

  function StepOutput<R>(step: Step<R>): R {
    match step
    case AliasStep(alias) => alias.reference
    case ChoiceStep(site, _, _) => site
    case PromiseAllStep(site, _, _, _, _, _, _) => site
  }

  /** Where a path has got to. */
  function PathEnd<R>(origin: Origin<R>, steps: seq<Step<R>>): R {
    if steps == [] then OriginRange(origin) else StepOutput(steps[|steps| - 1])
  }

  /** Each step starts where the path has got to before it, and the path ends at the value. */
  predicate Continuous<R(==)>(origin: Origin<R>, steps: seq<Step<R>>, value: R) {
    && (forall k | 0 <= k < |steps| :: StepInput(steps[k]) == PathEnd(origin, steps[..k]))
    && PathEnd(origin, steps) == value
  }

  lemma ContinuousOn<R>(origin: Origin<R>, steps: seq<Step<R>>, step: Step<R>)
    requires Continuous(origin, steps, StepInput(step))
    ensures Continuous(origin, steps + [step], StepOutput(step))
  {
    hide PathEnd;
    var longer := steps + [step];
    forall k | 0 <= k < |longer|
      ensures StepInput(longer[k]) == PathEnd(origin, longer[..k])
    {
      assert longer[..k] == steps[..k];
      assert steps[..|steps|] == steps;
    }
    assert PathEnd(origin, longer) == StepOutput(step) by { EndOfLonger(origin, steps, step); }
  }

  lemma EndOfLonger<R>(origin: Origin<R>, steps: seq<Step<R>>, step: Step<R>)
    ensures PathEnd(origin, steps + [step]) == StepOutput(step)
  {
  }

  ghost predicate AllReach(paths: seq<Path>, value: Range) {
    forall p | p in paths :: Continuous(p.origin, p.steps, value)
  }

  /** The children that are followed lead from their own expressions to the expression. */
  lemma ExploreConnects(scope: Scope, s: State)
    ensures match Explore(scope, s)
            case Known(origin) => OriginRange(origin) == RangeOf(s.value)
            case Follow(children) => forall c | c in children ::
              StepInput(c.step) == RangeOf(c.state.value) && StepOutput(c.step) == RangeOf(s.value)
  {
    var v := Unwrap(s.value);
    if v.CallExpression? && v.callee.StaticPromiseAll? {
      forall c | c in PromiseChildren(scope, v, s.resolving)
        ensures StepInput(c.step) == RangeOf(c.state.value) && StepOutput(c.step) == RangeOf(s.value)
      {
      }
    }
  }

  /** Every path that comes back is an unbroken chain from its origin to the expression. */
  lemma {:induction false} PathsAreContinuous(scope: Scope, s: State, fuel: nat)
    requires Resolve(scope, s, fuel).Some?
    ensures AllReach(Resolve(scope, s, fuel).value, RangeOf(s.value))
    decreases fuel, 0
  {
    hide Explore;
    ExploreConnects(scope, s);
    var shape := Explore(scope, s);
    if shape.Follow? {
      GatherIsContinuous(scope, shape.children, RangeOf(s.value), fuel - 1);
    }
  }

  lemma {:induction false} GatherIsContinuous(scope: Scope, children: seq<Child>, value: Range, fuel: nat)
    requires forall c | c in children :: StepInput(c.step) == RangeOf(c.state.value) && StepOutput(c.step) == value
    ensures var g := Gather(scope, children, fuel); g.Paths? ==> AllReach(g.paths, value)
    decreases fuel, |children|
  {
    hide Resolve, Continuous, StepInput, StepOutput, RangeOf;
    if children != [] {
      var front, last := children[..|children| - 1], children[|children| - 1];
      GatherIsContinuous(scope, front, value, fuel);
      var more := Resolve(scope, last.state, fuel);
      if more.Some? {
        PathsAreContinuous(scope, last.state, fuel);
        SteppedIsContinuous(more.value, last.step);
      }
    }
  }

  lemma SteppedIsContinuous(paths: seq<Path>, step: Step<Range>)
    requires AllReach(paths, StepInput(step))
    ensures AllReach(Stepped(paths, step), StepOutput(step))
  {
    hide Continuous;
    forall p | p in Stepped(paths, step)
      ensures Continuous(p.origin, p.steps, StepOutput(step))
    {
      var k :| 0 <= k < |paths| && p == paths[k].(steps := paths[k].steps + [step]);
      assert paths[k] in paths;
      ContinuousOn(paths[k].origin, paths[k].steps, step);
    }
  }
}
