/** The collector of value paths, and the check that authenticates a path against its sink. */
module ValueCollector {
  import opened Options
  import opened Provenance
  import opened ValueExpr
  import opened ValueEnds
  import ValueFlows

  class Collector {
    const scope: Scope
    /** The declarations whose initializers are being followed. */
    var resolving: set<nat>

    constructor (scope: Scope)
      ensures this.scope == scope && resolving == {}
    {
      this.scope := scope;
      resolving := {};
    }

    /** The paths to an expression. Fuel says how deep following it goes, where it ends. */
    method Resolve(value: Expr, ghost fuel: nat) returns (paths: seq<Path>)
      requires ValueExpr.Resolve(scope, State(value, resolving), fuel).Some?
      modifies this
      ensures resolving == old(resolving)
      ensures Some(paths) == ValueExpr.Resolve(scope, old(State(value, resolving)), fuel)
      decreases fuel, 2
    {
      hide Gather;
      var v := Unwrap(value);
      match v {
        case Identifier(range) =>
          paths := ResolveIdentifier(value, range, fuel);
        case CallExpression(range, optional, callee, arguments) =>
          if optional {
            NothingGathered(scope, fuel - 1);
            return [];
          }
          match callee {
            case OtherCallee =>
              paths := [Path(EffectSite(range), [])];
            case StaticPromiseAll(_) =>
              paths := ResolvePromiseAll(value, v, fuel);
            case Named(name, calleeRange) =>
              if exists a :: a in arguments && (a.spread || a.awaits) {
                NothingGathered(scope, fuel - 1);
                return [];
              }
              paths := [Path(CallResult(range, name, calleeRange), [])];
          }
        case ConditionalExpression(range, consequent, alternate) =>
          paths := ResolveChoice(value, v, fuel);
        case _ =>
          NothingGathered(scope, fuel - 1);
          paths := [];
      }
    }

    method ResolveIdentifier(value: Expr, reference: Range, ghost fuel: nat) returns (paths: seq<Path>)
      requires Unwrap(value) == Identifier(reference)
      requires ValueExpr.Resolve(scope, State(value, resolving), fuel).Some?
      modifies this
      ensures resolving == old(resolving)
      ensures Some(paths) == ValueExpr.Resolve(scope, old(State(value, resolving)), fuel)
      decreases fuel, 1
    {
      hide Gather, Added;
      NothingGathered(scope, fuel - 1);
      if reference !in scope.bindings {
        return [];
      }
      var binding := scope.bindings[reference];
      var parameter := ParameterOrigin(scope, reference);
      if parameter.Some? {
        return [Path(parameter.value, [])];
      }
      if binding.start !in scope.initializers {
        return [];
      }
      var initializer := scope.initializers[binding.start];
      if !initializer.constant || binding.start in resolving {
        return [];
      }
      ghost var before := State(value, resolving);
      OneGathered(scope, ChildrenOf(scope, before), fuel - 1);
      resolving := resolving + {binding.start};
      var more := Resolve(initializer.value, fuel - 1);
      resolving := resolving - {binding.start};
      paths := Stepped(more, AliasStep(AliasOf(binding, initializer, reference)));
    }

    method ResolveChoice(value: Expr, choice: Expr, ghost fuel: nat) returns (paths: seq<Path>)
      requires choice == Unwrap(value) && choice.ConditionalExpression?
      requires ValueExpr.Resolve(scope, State(value, resolving), fuel).Some?
      modifies this
      ensures resolving == old(resolving)
      ensures Some(paths) == ValueExpr.Resolve(scope, old(State(value, resolving)), fuel)
      decreases fuel, 1
    {
      hide Gather, Added;
      TwoGathered(scope, ChildrenOf(scope, State(value, resolving)), fuel - 1);
      var first := Resolve(choice.consequent, fuel - 1);
      paths := Stepped(first, ChoiceStep(choice.range, 0, RangeOf(choice.consequent)));
      var second := Resolve(choice.alternate, fuel - 1);
      AddedIs(paths, ChoiceStep(choice.range, 1, RangeOf(choice.alternate)), second);
      paths := paths + Stepped(second, ChoiceStep(choice.range, 1, RangeOf(choice.alternate)));
      if |paths| > MAX_VARIANTS {
        paths := [];
      }
    }

    method ResolvePromiseAll(value: Expr, call: Expr, ghost fuel: nat) returns (paths: seq<Path>)
      requires call == Unwrap(value) && call.CallExpression? && !call.optional && call.callee.StaticPromiseAll?
      requires ValueExpr.Resolve(scope, State(value, resolving), fuel).Some?
      modifies this
      ensures resolving == old(resolving)
      ensures Some(paths) == ValueExpr.Resolve(scope, old(State(value, resolving)), fuel)
      decreases fuel, 1
    {
      hide Gather, PromiseChildren, Added;
      var children := PromiseChildren(scope, call, resolving);
      PromiseKeepsResolving(scope, call, resolving);
      NothingGathered(scope, fuel - 1);
      paths := [];
      var i := 0;
      assert children[..0] == [];
      while i < |children|
        invariant 0 <= i <= |children| && resolving == old(resolving)
        invariant Gather(scope, children[..i], fuel - 1) == Paths(paths)
        invariant Gather(scope, children, fuel - 1) != OutOfFuel
      {
        GatheredPrefix(scope, children, i + 1, fuel - 1);
        GatherAt(scope, children, i, fuel - 1);
        AddedMeans(scope, children, i, fuel - 1);
        assert children[i].state == State(children[i].state.value, resolving);
        var more := Resolve(children[i].state.value, fuel - 1);
        AddedIs(paths, children[i].step, more);
        paths := paths + Stepped(more, children[i].step);
        if |paths| > MAX_VARIANTS {
          return [];
        }
        i := i + 1;
      }
      assert children[..i] == children;
    }
  }

  lemma NothingGathered(scope: Scope, fuel: int)
    ensures fuel >= 0 ==> Gather(scope, [], fuel) == Paths([])
  {
  }

  lemma PromiseKeepsResolving(scope: Scope, call: Expr, resolving: set<nat>)
    requires call.CallExpression? && call.callee.StaticPromiseAll?
    ensures forall c | c in PromiseChildren(scope, call, resolving) :: c.state.resolving == resolving
  {
  }

  lemma AddedIs(paths: seq<Path>, step: Step<Range>, more: seq<Path>)
    ensures Added(paths, step, Some(more)) ==
            if |paths + Stepped(more, step)| > MAX_VARIANTS then Stopped else Paths(paths + Stepped(more, step))
  {
  }

  lemma OneGathered(scope: Scope, children: seq<Child>, fuel: nat)
    requires |children| == 1 && Gather(scope, children, fuel) != OutOfFuel
    ensures var more := Resolve(scope, children[0].state, fuel);
            more.Some? && Gather(scope, children, fuel) == Paths(Stepped(more.value, children[0].step))
  {
    hide Resolve;
    assert children[..0] == [] && children[..1] == children;
    GatherAt(scope, children, 0, fuel);
    var more := Resolve(scope, children[0].state, fuel);
    if more.Some? {
      PathsAreFew(scope, children[0].state, fuel);
      assert [] + Stepped(more.value, children[0].step) == Stepped(more.value, children[0].step);
    }
  }

  /** The first of two children never stops the second from being looked at. */
  lemma TwoGathered(scope: Scope, children: seq<Child>, fuel: nat)
    requires |children| == 2 && Gather(scope, children, fuel) != OutOfFuel
    ensures var first, second := Resolve(scope, children[0].state, fuel), Resolve(scope, children[1].state, fuel);
            && first.Some? && second.Some?
            && Gather(scope, children, fuel) ==
               Added(Stepped(first.value, children[0].step), children[1].step, second)
  {
    hide Resolve, Added, Stepped;
    assert children[..1] == [children[0]] && children[..2] == children;
    GatheredPrefix(scope, children, 1, fuel);
    OneGathered(scope, children[..1], fuel);
    GatherAt(scope, children, 1, fuel);
    AddedMeans(scope, children, 1, fuel);
  }

  // ----- authentication -----

  /** Compares a path with the expression its sink is given, in order. */
  method AuthenticateContinuity(origin: Origin<Anchor>, steps: seq<Step<Anchor>>, sinkValue: Anchor) returns (ok: bool)
    ensures ok == Continuous(origin, steps, sinkValue)
  {
    var cursor := OriginRange(origin);
    var i := 0;
    while i < |steps|
      invariant 0 <= i <= |steps| && cursor == PathEnd(origin, steps[..i])
      invariant forall k | 0 <= k < i :: StepInput(steps[k]) == PathEnd(origin, steps[..k])
    {
      if cursor != StepInput(steps[i]) {
        return false;
      }
      cursor := StepOutput(steps[i]);
      assert steps[..i + 1][i] == steps[i];
      i := i + 1;
    }
    assert steps[..i] == steps;
    ok := cursor == sinkValue;
  }

  function Authentic(module_: string, digest: string, r: Range): Anchor {
    Anchor(module_, digest, r.start, r.end)
  }

  function MapAlias<R, S>(f: R -> S, a: Alias<R>): Alias<S> {
    Alias(f(a.binding), f(a.initializer), f(a.reference))
  }

  function MapOrigin<R, S>(f: R -> S, origin: Origin<R>): Origin<S> {
    match origin
    case ParameterValue(index, name, declaration, reference) =>
      ParameterValue(index, name, f(declaration), f(reference))
    case CallResult(callsite, callee, calleeRange) => CallResult(f(callsite), callee, f(calleeRange))
    case EffectSite(site) => EffectSite(f(site))
  }

  function MapStep<R, S>(f: R -> S, step: Step<R>): Step<S> {
    match step
    case AliasStep(alias) => AliasStep(MapAlias(f, alias))
    case ChoiceStep(site, branch, child) => ChoiceStep(f(site), branch, f(child))
    case PromiseAllStep(site, promise, argument, arrayAlias, childIndex, childCount, child) =>
      PromiseAllStep(f(site), f(promise), f(argument),
                     if arrayAlias.None? then None else Some(MapAlias(f, arrayAlias.value)),
                     childIndex, childCount, f(child))
  }

  function MapSteps<R, S>(f: R -> S, steps: seq<Step<R>>): seq<Step<S>> {
    seq(|steps|, k requires 0 <= k < |steps| => MapStep(f, steps[k]))
  }

  /** Putting anchors for ranges breaks no chain, and if the anchors tell ranges apart it mends none. */
  lemma MappedIsContinuous<R, S>(f: R -> S, origin: Origin<R>, steps: seq<Step<R>>, value: R)
    ensures Continuous(origin, steps, value) ==> Continuous(MapOrigin(f, origin), MapSteps(f, steps), f(value))
    ensures (forall a, b :: f(a) == f(b) ==> a == b) &&
            Continuous(MapOrigin(f, origin), MapSteps(f, steps), f(value)) ==>
              Continuous(origin, steps, value)
  {
    hide PathEnd, MapOrigin;
    MappedEnd(f, origin, steps);
    forall k | 0 <= k < |steps|
      ensures PathEnd(MapOrigin(f, origin), MapSteps(f, steps)[..k]) == f(PathEnd(origin, steps[..k]))
    {
      MappedEnd(f, origin, steps[..k]);
      assert MapSteps(f, steps)[..k] == MapSteps(f, steps[..k]);
    }
    assert forall k | 0 <= k < |steps| :: StepInput(MapSteps(f, steps)[k]) == f(StepInput(steps[k]));
  }

  lemma MappedEnd<R, S>(f: R -> S, origin: Origin<R>, steps: seq<Step<R>>)
    ensures PathEnd(MapOrigin(f, origin), MapSteps(f, steps)) == f(PathEnd(origin, steps))
  {
  }

  /** Whatever the collector returns for an expression authenticates, for every sink on that expression. */
  method CollectAndAuthenticate(scope: Scope, value: Expr, module_: string, digest: string, ghost fuel: nat)
    returns (paths: seq<Path>, ok: bool)
    requires Resolve(scope, State(value, {}), fuel).Some?
    ensures ok && |paths| <= MAX_VARIANTS
    ensures Some(paths) == Resolve(scope, State(value, {}), fuel)
    ensures forall p :: p in paths <==>
              ValueFlows.FlowsTo(scope, State(value, {}), p) && !ValueFlows.CutAlong(scope, State(value, {}), p, fuel)
  {
    hide Continuous, Authentic, ValueFlows.FlowsTo, ValueFlows.CutAlong;
    var collector := new Collector(scope);
    paths := collector.Resolve(value, fuel);
    PathsAreFew(scope, State(value, {}), fuel);
    PathsAreContinuous(scope, State(value, {}), fuel);
    ValueFlows.PathsAreFlows(scope, State(value, {}), fuel);
    ok := true;
    var i := 0;
    var anchor := r => Authentic(module_, digest, r);
    while i < |paths|
      invariant 0 <= i <= |paths| && ok
    {
      assert paths[i] in paths;
      MappedIsContinuous(anchor, paths[i].origin, paths[i].steps, RangeOf(value));
      var authentic := AuthenticateContinuity(MapOrigin(anchor, paths[i].origin), MapSteps(anchor, paths[i].steps),
                                              anchor(RangeOf(value)));
      ok := ok && authentic;
      i := i + 1;
    }
  }
}
