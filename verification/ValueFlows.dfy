/**
 * Which values flow into an expression, as a relation that does not mention how they are collected; and that the
 * paths collected are exactly those of the relation, but for parts that more than 32 paths lead to.
 */
module ValueFlows {
  import opened Options
  import opened Provenance
  import opened ValueExpr

  // ----- the relation -----

  ghost predicate IsParameter(scope: Scope, b: Binding, index: nat) {
    && index < |scope.parameterStarts| && index < |scope.parameterNames|
    && scope.parameterStarts[index] == b.start
    && forall i | 0 <= i < index :: scope.parameterStarts[i] != b.start
  }

  /** The expression itself is the origin. */
  ghost predicate IsOrigin(scope: Scope, v: Expr, origin: Origin<Range>) {
    match origin
    case ParameterValue(index, name, declaration, reference) =>
      && v == Identifier(reference) && reference in scope.bindings
      && var b := scope.bindings[reference];
         IsParameter(scope, b, index) && name == scope.parameterNames[index] && declaration == Range(b.start, b.end)
    case CallResult(callsite, callee, calleeRange) =>
      && v.CallExpression? && v.range == callsite && !v.optional && v.callee == Named(callee, calleeRange)
      && forall a | a in v.arguments :: !a.spread && !a.awaits
    case EffectSite(site) =>
      v.CallExpression? && v.range == site && !v.optional && v.callee == OtherCallee
  }

  /** The identifier is bound to a constant, not a parameter, whose initializer is not being followed already. */
  ghost predicate IsConstant(scope: Scope, reference: Range, resolving: set<nat>) {
    && reference in scope.bindings
    && var b := scope.bindings[reference];
       && (forall index :: !IsParameter(scope, b, index))
       && b.start in scope.initializers && scope.initializers[b.start].constant && b.start !in resolving
  }

  /** The array is written as the argument, or is the initializer of a constant that is. */
  ghost predicate IsPassed(scope: Scope, argument: Expr, elements: seq<Element>, alias: Option<Alias<Range>>) {
    match alias
    case None => argument.ArrayExpression? && argument.elements == elements
    case Some(a) =>
      && argument == Identifier(a.reference) && a.reference in scope.bindings
      && var b := scope.bindings[a.reference];
         && a.binding == Range(b.start, b.end)
         && b.start in scope.initializers && scope.initializers[b.start].constant
         && var target := Unwrap(scope.initializers[b.start].value);
            target.ArrayExpression? && target.elements == elements && a.initializer == target.range
  }

  /** The step leads from that part, in its state, to the expression. */
  ghost predicate Leads(scope: Scope, v: Expr, resolving: set<nat>, step: Step<Range>, part: State) {
    match step
    case AliasStep(alias) =>
      && v == Identifier(alias.reference) && IsConstant(scope, alias.reference, resolving)
      && var b := scope.bindings[alias.reference];
         var value := scope.initializers[b.start].value;
         && alias.binding == Range(b.start, b.end) && alias.initializer == RangeOf(value)
         && part == State(value, resolving + {b.start})
    case ChoiceStep(site, branch, child) =>
      && v.ConditionalExpression? && v.range == site && child == RangeOf(part.value) && part.resolving == resolving
      && ((branch == 0 && part.value == v.consequent) || (branch == 1 && part.value == v.alternate))
    case PromiseAllStep(site, promise, argument, alias, index, count, child) =>
      && v.CallExpression? && v.range == site && !v.optional && v.callee == StaticPromiseAll(promise)
      && promise !in scope.bindings
      && |v.arguments| == 1 && !v.arguments[0].spread && argument == RangeOf(v.arguments[0].value)
      && part.resolving == resolving && child == RangeOf(part.value)
      && exists elements: seq<Element> ::
           && IsPassed(scope, Unwrap(v.arguments[0].value), elements, alias)
           && (forall k | 0 <= k < |elements| :: elements[k].Item?)
           && |elements| == count && index < count && part.value == Unwrap(elements[index].value)
  }

  function Last(p: Path): Step<Range>
    requires p.steps != []
  {
    p.steps[|p.steps| - 1]
  }

  function Front(p: Path): Path
    requires p.steps != []
  {
    Path(p.origin, p.steps[..|p.steps| - 1])
  }

  /** The path leads from an origin, step by step, to the expression. */
  ghost predicate FlowsTo(scope: Scope, s: State, p: Path)
    decreases |p.steps|
  {
    if p.steps == [] then IsOrigin(scope, Unwrap(s.value), p.origin)
    else exists part :: Leads(scope, Unwrap(s.value), s.resolving, Last(p), part) && FlowsTo(scope, part, Front(p))
  }

  // ----- parts that too many paths lead to -----

  /** A part that the path comes through has been given up. */
  ghost predicate CutBelow(scope: Scope, s: State, p: Path, depth: nat)
    decreases depth, 0
  {
    && p.steps != [] && depth > 0
    && exists part :: Leads(scope, Unwrap(s.value), s.resolving, Last(p), part)
                      && CutAlong(scope, part, Front(p), depth - 1)
  }

  /** More than 32 paths lead to the expression through parts that have not been given up. */
  ghost predicate Crowded(scope: Scope, s: State, depth: nat)
    decreases depth, 2
  {
    exists ps: set<Path> :: |ps| > MAX_VARIANTS && AllArrive(scope, s, ps, depth)
  }

  ghost predicate AllArrive(scope: Scope, s: State, ps: set<Path>, depth: nat)
    decreases depth, 1
  {
    forall p | p in ps :: FlowsTo(scope, s, p) && !CutBelow(scope, s, p, depth)
  }

  ghost predicate CutAlong(scope: Scope, s: State, p: Path, depth: nat)
    decreases depth, 3
  {
    Crowded(scope, s, depth) || CutBelow(scope, s, p, depth)
  }

  // ----- what is explored is what leads to the expression -----

  lemma {:induction false} FirstAtMeans(starts: seq<nat>, start: nat)
    ensures match FirstAt(starts, start)
            case None => forall i | 0 <= i < |starts| :: starts[i] != start
            case Some(k) => k < |starts| && starts[k] == start && forall i | 0 <= i < k :: starts[i] != start
  {
    if starts != [] && starts[0] != start {
      FirstAtMeans(starts[1..], start);
    }
  }

  lemma ParameterMeans(scope: Scope, reference: Range)
    requires reference in scope.bindings
    ensures match ParameterOrigin(scope, reference)
            case None => forall index :: !IsParameter(scope, scope.bindings[reference], index)
            case Some(origin) => origin.ParameterValue? && IsOrigin(scope, Identifier(reference), origin)
                                 && IsParameter(scope, scope.bindings[reference], origin.index)
  {
    FirstAtMeans(scope.parameterStarts, scope.bindings[reference].start);
  }

  lemma OneParameter(scope: Scope, b: Binding, i: nat, j: nat)
    requires IsParameter(scope, b, i) && IsParameter(scope, b, j)
    ensures i == j
  {
  }

  /** The children are all parts that lead to the expression, each by a step of its own. */
  ghost predicate AreParts(scope: Scope, s: State, children: seq<Child>) {
    && (forall c | c in children :: Leads(scope, Unwrap(s.value), s.resolving, c.step, c.state))
    && (forall step, part | Leads(scope, Unwrap(s.value), s.resolving, step, part) :: Child(step, part) in children)
    && (forall i, j | 0 <= i < j < |children| :: children[i].step != children[j].step)
  }

  lemma ExploreMeans(scope: Scope, s: State)
    ensures match Explore(scope, s)
            case Known(origin) =>
              && (forall o :: IsOrigin(scope, Unwrap(s.value), o) <==> o == origin)
              && AreParts(scope, s, [])
            case Follow(children) =>
              && (forall o :: !IsOrigin(scope, Unwrap(s.value), o))
              && AreParts(scope, s, children)
  {
    var v := Unwrap(s.value);
    match v
    case Identifier(range) => IdentifierMeans(scope, s, range);
    case CallExpression(_, _, _, _) => CallMeans(scope, s);
    case ConditionalExpression(_, _, _) =>
    case _ =>
  }

  lemma IdentifierMeans(scope: Scope, s: State, range: Range)
    requires Unwrap(s.value) == Identifier(range)
    ensures match ExploreIdentifier(scope, range, s.resolving)
            case Known(origin) =>
              && (forall o :: IsOrigin(scope, Unwrap(s.value), o) <==> o == origin)
              && AreParts(scope, s, [])
            case Follow(children) =>
              && (forall o :: !IsOrigin(scope, Unwrap(s.value), o))
              && AreParts(scope, s, children)
  {
    if range in scope.bindings {
      ParameterMeans(scope, range);
      forall o, origin | IsOrigin(scope, Identifier(range), o) && ParameterOrigin(scope, range) == Some(origin)
        ensures o == origin
      {
        OneParameter(scope, scope.bindings[range], o.index, origin.index);
      }
    }
  }

  lemma CallMeans(scope: Scope, s: State)
    requires Unwrap(s.value).CallExpression?
    ensures match Explore(scope, s)
            case Known(origin) =>
              && (forall o :: IsOrigin(scope, Unwrap(s.value), o) <==> o == origin)
              && AreParts(scope, s, [])
            case Follow(children) =>
              && (forall o :: !IsOrigin(scope, Unwrap(s.value), o))
              && AreParts(scope, s, children)
  {
    var v := Unwrap(s.value);
    if !v.optional && v.callee.StaticPromiseAll? {
      PromiseMeans(scope, s);
    }
  }

  lemma PassedMeans(scope: Scope, arguments: seq<Argument>)
    requires |arguments| == 1 && !arguments[0].spread
    ensures forall elements, alias ::
              IsPassed(scope, Unwrap(arguments[0].value), elements, alias)
              <==> ArrayPassed(scope, arguments) == Some(PassedArray(elements, alias))
  {
  }

  lemma PromiseMeans(scope: Scope, s: State)
    requires var v := Unwrap(s.value); v.CallExpression? && !v.optional && v.callee.StaticPromiseAll?
    ensures AreParts(scope, s, PromiseChildren(scope, Unwrap(s.value), s.resolving))
  {
    hide ArrayPassed, IsPassed;
    var v := Unwrap(s.value);
    var children := PromiseChildren(scope, v, s.resolving);
    var passed := ArrayPassed(scope, v.arguments);
    if |v.arguments| == 1 && !v.arguments[0].spread {
      PassedMeans(scope, v.arguments);
    } else {
      NothingPassed(scope, v.arguments);
    }
    forall step, part | Leads(scope, v, s.resolving, step, part)
      ensures Child(step, part) in children
    {
      var elements: seq<Element> :| IsPassed(scope, Unwrap(v.arguments[0].value), elements, step.arrayAlias)
                      && (forall k | 0 <= k < |elements| :: elements[k].Item?)
                      && |elements| == step.childCount && step.childIndex < step.childCount
                      && part.value == Unwrap(elements[step.childIndex].value);
      assert children[step.childIndex] == Child(step, part);
    }
    forall c | c in children
      ensures Leads(scope, v, s.resolving, c.step, c.state)
    {
      var k :| 0 <= k < |children| && children[k] == c;
      assert IsPassed(scope, Unwrap(v.arguments[0].value), passed.value.elements, c.step.arrayAlias);
    }
  }

  lemma NothingPassed(scope: Scope, arguments: seq<Argument>)
    requires !(|arguments| == 1 && !arguments[0].spread)
    ensures ArrayPassed(scope, arguments).None?
  {
  }

  // ----- the paths collected are those of the relation -----

  ghost predicate NoneTwice(paths: seq<Path>) {
    forall i, j | 0 <= i < j < |paths| :: paths[i] != paths[j]
  }

  /** The path comes through one of the children, by its step, and has not been given up there. */
  ghost predicate Through(scope: Scope, children: seq<Child>, p: Path, depth: nat) {
    p.steps != [] && exists c | c in children && c.step == Last(p) ::
      FlowsTo(scope, c.state, Front(p)) && !CutAlong(scope, c.state, Front(p), depth)
  }

  lemma ThroughMeans(scope: Scope, s: State, children: seq<Child>, p: Path, depth: nat)
    requires depth > 0 && AreParts(scope, s, children) && forall o :: !IsOrigin(scope, Unwrap(s.value), o)
    ensures Through(scope, children, p, depth - 1) <==> FlowsTo(scope, s, p) && !CutBelow(scope, s, p, depth)
  {
    hide Leads, CutAlong, IsOrigin;
    if Through(scope, children, p, depth - 1) {
      var c :| c in children && c.step == Last(p) && FlowsTo(scope, c.state, Front(p))
               && !CutAlong(scope, c.state, Front(p), depth - 1);
      forall part | Leads(scope, Unwrap(s.value), s.resolving, Last(p), part)
        ensures part == c.state
      {
        OnePart(scope, s, children, Last(p), part, c.state);
      }
    }
    if FlowsTo(scope, s, p) && !CutBelow(scope, s, p, depth) {
      var part :| Leads(scope, Unwrap(s.value), s.resolving, Last(p), part) && FlowsTo(scope, part, Front(p));
      assert Child(Last(p), part) in children;
    }
  }

  lemma OnePart(scope: Scope, s: State, children: seq<Child>, step: Step<Range>, part: State, other: State)
    requires AreParts(scope, s, children)
    requires Leads(scope, Unwrap(s.value), s.resolving, step, part)
    requires Leads(scope, Unwrap(s.value), s.resolving, step, other)
    ensures part == other
  {
    hide Leads;
    var i :| 0 <= i < |children| && children[i] == Child(step, part);
    var j :| 0 <= j < |children| && children[j] == Child(step, other);
    assert i == j;
  }

  ghost predicate ManyThrough(scope: Scope, children: seq<Child>, ps: set<Path>, depth: nat) {
    |ps| > MAX_VARIANTS && forall p | p in ps :: Through(scope, children, p, depth)
  }

  /** The first children give exactly the paths that come through them; or there are more than 32 of these. */
  ghost predicate Gathers(scope: Scope, children: seq<Child>, fuel: nat) {
    match Gather(scope, children, fuel)
    case OutOfFuel => true
    case Paths(paths) => NoneTwice(paths) && forall p :: p in paths <==> Through(scope, children, p, fuel)
    case Stopped => exists ps :: ManyThrough(scope, children, ps, fuel)
  }

  function SetOf(paths: seq<Path>): set<Path> {
    set p | p in paths
  }

  lemma {:induction false} NoneTwiceCount(paths: seq<Path>)
    requires NoneTwice(paths)
    ensures |SetOf(paths)| == |paths|
  {
    if paths != [] {
      var n := |paths| - 1;
      NoneTwiceCount(paths[..n]);
      assert paths == paths[..n] + [paths[n]];
      assert SetOf(paths) == SetOf(paths[..n]) + {paths[n]};
    }
  }

  lemma SteppedAt(paths: seq<Path>, step: Step<Range>, k: nat)
    requires k < |paths|
    ensures var p := Stepped(paths, step)[k]; p.steps != [] && Last(p) == step && Front(p) == paths[k]
  {
  }

  lemma SteppedMeans(paths: seq<Path>, step: Step<Range>)
    ensures NoneTwice(paths) ==> NoneTwice(Stepped(paths, step))
    ensures forall p :: p in Stepped(paths, step) <==> p.steps != [] && Last(p) == step && Front(p) in paths
  {
    var stepped := Stepped(paths, step);
    assert |stepped| == |paths|;
    hide Stepped, Last, Front;
    forall k | 0 <= k < |paths|
      ensures stepped[k].steps != [] && Last(stepped[k]) == step && Front(stepped[k]) == paths[k]
    {
      SteppedAt(paths, step, k);
    }
    forall p: Path | p.steps != [] && Last(p) == step && Front(p) in paths
      ensures p in stepped
    {
      var k :| 0 <= k < |paths| && paths[k] == Front(p);
      OneLonger(p, stepped[k]);
    }
    if NoneTwice(paths) {
      forall i, j | 0 <= i < j < |stepped|
        ensures stepped[i] != stepped[j]
      {
        assert Front(stepped[i]) != Front(stepped[j]);
      }
    }
  }

  lemma OneLonger(p: Path, q: Path)
    requires p.steps != [] && q.steps != [] && Last(p) == Last(q) && Front(p) == Front(q)
    ensures p == q
  {
    assert p.steps == Front(p).steps + [Last(p)];
    assert q.steps == Front(q).steps + [Last(q)];
  }

  /** One more child adds the paths that come through it, which are all new. */
  lemma GathersMore(scope: Scope, front: seq<Child>, c: Child, paths: seq<Path>, more: seq<Path>, fuel: nat)
    requires forall d | d in front :: d.step != c.step
    requires NoneTwice(paths) && forall p :: p in paths <==> Through(scope, front, p, fuel)
    requires NoneTwice(more)
    requires forall p :: p in more <==> FlowsTo(scope, c.state, p) && !CutAlong(scope, c.state, p, fuel)
    ensures var all := paths + Stepped(more, c.step);
            NoneTwice(all) && forall p :: p in all <==> Through(scope, front + [c], p, fuel)
  {
    hide FlowsTo, CutAlong, Stepped;
    SteppedMeans(more, c.step);
    var stepped := Stepped(more, c.step);
    var all := paths + stepped;
    forall i, j | 0 <= i < j < |all|
      ensures all[i] != all[j]
    {
      if i < |paths| <= j {
        assert all[i] in paths && all[j] in stepped;
      }
    }
    forall p
      ensures p in all <==> Through(scope, front + [c], p, fuel)
    {
      assert p in all <==> p in paths || p in stepped;
    }
  }

  lemma {:induction false} GatherIsThrough(scope: Scope, children: seq<Child>, fuel: nat)
    requires forall i, j | 0 <= i < j < |children| :: children[i].step != children[j].step
    ensures Gathers(scope, children, fuel)
    decreases fuel, |children|, 0
  {
    hide Resolve, FlowsTo, CutAlong, Stepped;
    if children != [] {
      var front, last := children[..|children| - 1], children[|children| - 1];
      assert children == front + [last];
      GatherIsThrough(scope, front, fuel);
      match Gather(scope, front, fuel)
      case OutOfFuel =>
      case Stopped =>
        var ps :| ManyThrough(scope, front, ps, fuel);
        assert ManyThrough(scope, children, ps, fuel);
      case Paths(paths) =>
        var more := Resolve(scope, last.state, fuel);
        if more.Some? {
          PathsAreFlows(scope, last.state, fuel);
          GathersMore(scope, front, last, paths, more.value, fuel);
          var all := paths + Stepped(more.value, last.step);
          NoneTwiceCount(all);
          assert |all| > MAX_VARIANTS ==> ManyThrough(scope, children, SetOf(all), fuel);
        }
    }
  }

  /**
   * The paths collected are exactly those that lead to the expression and come through no part, the expression
   * itself included, that more than 32 paths lead to. None is collected twice.
   */
  lemma {:induction false} PathsAreFlows(scope: Scope, s: State, fuel: nat)
    requires Resolve(scope, s, fuel).Some?
    ensures var paths := Resolve(scope, s, fuel).value;
            && NoneTwice(paths)
            && forall p :: p in paths <==> FlowsTo(scope, s, p) && !CutAlong(scope, s, p, fuel)
    decreases fuel, 0, 1
  {
    hide Explore, Gather, AreParts, IsOrigin;
    ExploreMeans(scope, s);
    match Explore(scope, s)
    case Known(origin) => KnownIsFlow(scope, s, origin, fuel);
    case Follow(children) =>
      PartsDiffer(scope, s, children);
      GatherIsThrough(scope, children, fuel - 1);
      FollowedAreFlows(scope, s, children, fuel);
  }

  lemma PartsDiffer(scope: Scope, s: State, children: seq<Child>)
    requires AreParts(scope, s, children)
    ensures forall i, j | 0 <= i < j < |children| :: children[i].step != children[j].step
  {
  }

  lemma KnownIsFlow(scope: Scope, s: State, origin: Origin<Range>, depth: nat)
    requires depth > 0 && AreParts(scope, s, []) && forall o :: IsOrigin(scope, Unwrap(s.value), o) <==> o == origin
    ensures forall p :: p == Path(origin, []) <==> FlowsTo(scope, s, p) && !CutAlong(scope, s, p, depth)
  {
    hide Leads, IsOrigin;
    forall p
      ensures FlowsTo(scope, s, p) <==> p == Path(origin, [])
      ensures !CutBelow(scope, s, p, depth)
    {
    }
    forall ps: set<Path> | AllArrive(scope, s, ps, depth)
      ensures |ps| <= 1
    {
      assert ps <= {Path(origin, [])};
      SubsetIsSmaller(ps, {Path(origin, [])});
    }
  }

  lemma {:induction false} SubsetIsSmaller(a: set<Path>, b: set<Path>)
    requires a <= b
    ensures |a| <= |b|
  {
    if x :| x in a {
      SubsetIsSmaller(a - {x}, b - {x});
    }
  }

  lemma FollowedAreFlows(scope: Scope, s: State, children: seq<Child>, depth: nat)
    requires depth > 0 && AreParts(scope, s, children) && forall o :: !IsOrigin(scope, Unwrap(s.value), o)
    requires Gather(scope, children, depth - 1) != OutOfFuel && Gathers(scope, children, depth - 1)
    ensures var g := Gather(scope, children, depth - 1);
            var paths := if g.Paths? then g.paths else [];
            && NoneTwice(paths)
            && forall p :: p in paths <==> FlowsTo(scope, s, p) && !CutAlong(scope, s, p, depth)
  {
    hide AreParts, IsOrigin, Gather, FlowsTo, CutBelow, Through;
    forall p
      ensures Through(scope, children, p, depth - 1) <==> FlowsTo(scope, s, p) && !CutBelow(scope, s, p, depth)
    {
      ThroughMeans(scope, s, children, p, depth);
    }
    match Gather(scope, children, depth - 1)
    case Stopped =>
      var ps :| ManyThrough(scope, children, ps, depth - 1);
      assert AllArrive(scope, s, ps, depth);
    case Paths(paths) =>
      GatherFew(scope, children, depth - 1);
      forall ps: set<Path> | AllArrive(scope, s, ps, depth)
        ensures |ps| <= MAX_VARIANTS
      {
        NoneTwiceCount(paths);
        assert ps <= SetOf(paths);
        SubsetIsSmaller(ps, SetOf(paths));
      }
  }

  // ----- where nothing is given up -----

  ghost predicate AllFlow(scope: Scope, s: State, ps: set<Path>) {
    forall p | p in ps :: FlowsTo(scope, s, p)
  }

  /** No more than 32 paths lead to the expression. */
  ghost predicate FewFlow(scope: Scope, s: State) {
    forall ps | AllFlow(scope, s, ps) :: |ps| <= MAX_VARIANTS
  }

  /** Nor to any part that the path comes through. */
  ghost predicate FewAlong(scope: Scope, s: State, p: Path)
    decreases |p.steps|
  {
    && FewFlow(scope, s)
    && (p.steps != [] ==>
          forall part | Leads(scope, Unwrap(s.value), s.resolving, Last(p), part) :: FewAlong(scope, part, Front(p)))
  }

  lemma {:induction false} FewIsNotCut(scope: Scope, s: State, p: Path, depth: nat)
    requires FewAlong(scope, s, p)
    ensures !CutAlong(scope, s, p, depth)
    decreases depth
  {
    hide Leads, FlowsTo;
    forall ps | AllArrive(scope, s, ps, depth)
      ensures |ps| <= MAX_VARIANTS
    {
      assert AllFlow(scope, s, ps);
    }
    if p.steps != [] && depth > 0 {
      forall part | Leads(scope, Unwrap(s.value), s.resolving, Last(p), part)
        ensures !CutAlong(scope, part, Front(p), depth - 1)
      {
        FewIsNotCut(scope, part, Front(p), depth - 1);
      }
    }
  }

  /** A path that comes through no part with more than 32 paths is collected exactly if it leads to the expression. */
  lemma FlowsAreCollected(scope: Scope, s: State, p: Path, fuel: nat)
    requires Resolve(scope, s, fuel).Some? && FewAlong(scope, s, p)
    ensures p in Resolve(scope, s, fuel).value <==> FlowsTo(scope, s, p)
  {
    hide FewAlong, FlowsTo, CutAlong;
    PathsAreFlows(scope, s, fuel);
    FewIsNotCut(scope, s, p, fuel);
  }

  /** An expression that more than 32 paths lead to, through parts that have not been given up, has none collected. */
  lemma CrowdedHasNone(scope: Scope, s: State, fuel: nat)
    requires Resolve(scope, s, fuel).Some? && Crowded(scope, s, fuel)
    ensures Resolve(scope, s, fuel).value == []
  {
    PathsAreFlows(scope, s, fuel);
    SomeOrNone(Resolve(scope, s, fuel).value);
  }

  lemma SomeOrNone(paths: seq<Path>)
    ensures paths == [] || exists p :: p in paths
  {
    if paths != [] {
      assert paths[0] in paths;
    }
  }

  /** The value of a conditional expression may come from either branch. */
  lemma BothBranches(scope: Scope, range: Range, f: Expr, g: Expr, origin: Origin<Range>, fuel: nat)
    requires var s := State(ConditionalExpression(range, f, g), {});
             Resolve(scope, s, fuel).Some? && FewFlow(scope, s)
    requires IsOrigin(scope, Unwrap(f), origin) || IsOrigin(scope, Unwrap(g), origin)
    ensures exists p :: p in Resolve(scope, State(ConditionalExpression(range, f, g), {}), fuel).value
                        && p.origin == origin && |p.steps| == 1
  {
    var s := State(ConditionalExpression(range, f, g), {});
    var branch := if IsOrigin(scope, Unwrap(f), origin) then 0 else 1;
    var part := State(if branch == 0 then f else g, {});
    var step := ChoiceStep(range, branch, RangeOf(part.value));
    var p := Path(origin, [step]);
    assert Front(p) == Path(origin, []) && Leads(scope, s.value, {}, Last(p), part);
    assert FlowsTo(scope, part, Front(p));
    forall other | Leads(scope, s.value, {}, Last(p), other)
      ensures other == part
    {
    }
    OriginIsFew(scope, part, origin);
    FlowsAreCollected(scope, s, p, fuel);
  }

  lemma OriginIsFew(scope: Scope, s: State, origin: Origin<Range>)
    requires IsOrigin(scope, Unwrap(s.value), origin)
    ensures FewFlow(scope, s)
  {
    hide Leads, IsOrigin;
    ExploreMeans(scope, s);
    forall ps | AllFlow(scope, s, ps)
      ensures |ps| <= MAX_VARIANTS
    {
      forall p | p in ps
        ensures p == Path(origin, [])
      {
      }
      SubsetIsSmaller(ps, {Path(origin, [])});
    }
  }
}
