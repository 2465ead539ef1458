/** When following an expression back comes to an end. */
module ValueEnds {
  import opened Grounding
  import opened Provenance
  import opened ValueExpr

  /** There are too many paths before the next child is looked at. */
  ghost predicate Stops(scope: Scope, children: seq<Child>) {
    exists fuel: nat :: Gather(scope, children, fuel) == Stopped
  }

  function ChildrenOf(scope: Scope, s: State): seq<Child> {
    var shape := Explore(scope, s);
    if shape.Follow? then shape.children else []
  }

  /** The states that are looked at. */
  ghost function Explored(scope: Scope, s: State): set<State> {
    set i | 0 <= i < |ChildrenOf(scope, s)| && !Stops(scope, ChildrenOf(scope, s)[..i]) :: ChildrenOf(scope, s)[i].state
  }

  ghost function Exploring(scope: Scope): System<State> {
    System(s => true, s => Explored(scope, s))
  }

  lemma StoppedAlways(scope: Scope, children: seq<Child>, fuel: nat)
    requires Gather(scope, children, fuel) != OutOfFuel
    ensures Gather(scope, children, fuel) == Stopped <==> Stops(scope, children)
  {
    if Stops(scope, children) {
      var other: nat :| Gather(scope, children, other) == Stopped;
      MoreFuelGathers(scope, children, if fuel < other then fuel else other, if fuel < other then other else fuel);
    }
  }

  lemma {:induction false} GatheredPrefix(scope: Scope, children: seq<Child>, i: nat, fuel: nat)
    requires i <= |children| && Gather(scope, children, fuel) != OutOfFuel
    ensures Gather(scope, children[..i], fuel) != OutOfFuel
    ensures Gather(scope, children[..i], fuel) == Stopped ==> Gather(scope, children, fuel) == Stopped
    decreases |children|
  {
    hide Resolve;
    if i == |children| {
      assert children[..i] == children;
    } else {
      assert children[..|children| - 1][..i] == children[..i];
      GatheredPrefix(scope, children[..|children| - 1], i, fuel);
    }
  }

  lemma GatherAt(scope: Scope, children: seq<Child>, i: nat, fuel: nat)
    requires i < |children|
    ensures Gather(scope, children[..i + 1], fuel) ==
            match Gather(scope, children[..i], fuel)
            case OutOfFuel => OutOfFuel
            case Stopped => Stopped
            case Paths(paths) => Added(paths, children[i].step, Resolve(scope, children[i].state, fuel))
  {
    assert children[..i + 1][..i] == children[..i];
  }

  lemma {:induction false} EnoughIsWithin(scope: Scope, s: State, fuel: nat)
    requires Resolve(scope, s, fuel).Some?
    ensures Within(Exploring(scope), s, fuel)
    decreases fuel
  {
    hide Explore, Resolve, Gather, Added;
    var children := ChildrenOf(scope, s);
    ResolveGathers(scope, s, fuel);
    forall d | d in Explored(scope, s)
      ensures Within(Exploring(scope), d, fuel - 1)
    {
      var i :| 0 <= i < |children| && !Stops(scope, children[..i]) && d == children[i].state;
      GatheredPrefix(scope, children, i, fuel - 1);
      GatheredPrefix(scope, children, i + 1, fuel - 1);
      StoppedAlways(scope, children[..i], fuel - 1);
      GatherAt(scope, children, i, fuel - 1);
      AddedMeans(scope, children, i, fuel - 1);
      EnoughIsWithin(scope, d, fuel - 1);
    }
  }

  lemma AddedMeans(scope: Scope, children: seq<Child>, i: nat, fuel: nat)
    requires i < |children| && Gather(scope, children[..i], fuel).Paths?
    ensures Gather(scope, children[..i + 1], fuel) == OutOfFuel <==> Resolve(scope, children[i].state, fuel).None?
  {
    GatherAt(scope, children, i, fuel);
  }

  lemma ResolveGathers(scope: Scope, s: State, fuel: nat)
    ensures Resolve(scope, s, fuel).Some? <==> fuel > 0 && Gather(scope, ChildrenOf(scope, s), fuel - 1) != OutOfFuel
  {
    hide Explore;
  }

  lemma {:induction false} WithinIsEnough(scope: Scope, s: State, fuel: nat)
    requires Within(Exploring(scope), s, fuel)
    ensures Resolve(scope, s, fuel).Some?
    decreases fuel, 1, 0
  {
    hide Explore, Resolve, Gather;
    var children := ChildrenOf(scope, s);
    PrefixIsGathered(scope, s, |children|, fuel);
    assert children[..|children|] == children;
    ResolveGathers(scope, s, fuel);
  }

  lemma {:induction false} PrefixIsGathered(scope: Scope, s: State, i: nat, fuel: nat)
    requires Within(Exploring(scope), s, fuel) && i <= |ChildrenOf(scope, s)|
    ensures Gather(scope, ChildrenOf(scope, s)[..i], fuel - 1) != OutOfFuel
    decreases fuel, 0, i
  {
    hide Explore, Resolve;
    if i > 0 {
      var children := ChildrenOf(scope, s);
      PrefixIsGathered(scope, s, i - 1, fuel);
      GatherAt(scope, children, i - 1, fuel - 1);
      var front := Gather(scope, children[..i - 1], fuel - 1);
      if front.Paths? {
        StoppedAlways(scope, children[..i - 1], fuel - 1);
        var d := children[i - 1].state;
        assert d in Exploring(scope).deps(s);
        assert Within(Exploring(scope), d, fuel - 1);
        WithinIsEnough(scope, d, fuel - 1);
      }
    }
  }

  lemma EndsIffGrounded(scope: Scope, s: State)
    ensures Ends(scope, s) <==> Grounded(Exploring(scope), s)
  {
    if Ends(scope, s) {
      var fuel: nat :| Resolve(scope, s, fuel).Some?;
      EnoughIsWithin(scope, s, fuel);
    }
    if Grounded(Exploring(scope), s) {
      var fuel: nat :| Within(Exploring(scope), s, fuel);
      WithinIsEnough(scope, s, fuel);
    }
  }

  // ----- only finitely many states -----

  function PartsOf(e: Expr): set<Expr> {
    {e} + match e
          case Wrapped(inner) => PartsOf(inner)
          case ConditionalExpression(_, consequent, alternate) => PartsOf(consequent) + PartsOf(alternate)
          case ArrayExpression(_, elements) =>
            set i, p | 0 <= i < |elements| && elements[i].Item? && p in PartsOf(elements[i].value) :: p
          case CallExpression(_, _, _, arguments) =>
            set i, p | 0 <= i < |arguments| && p in PartsOf(arguments[i].value) :: p
          case _ => {}
  }

  lemma {:induction false} PartsNest(e: Expr, p: Expr)
    requires p in PartsOf(e)
    ensures PartsOf(p) <= PartsOf(e)
    decreases e
  {
    if p != e {
      match e
      case Wrapped(inner) => PartsNest(inner, p);
      case ConditionalExpression(_, consequent, alternate) =>
        if p in PartsOf(consequent) { PartsNest(consequent, p); } else { PartsNest(alternate, p); }
      case ArrayExpression(_, elements) =>
        var i :| 0 <= i < |elements| && elements[i].Item? && p in PartsOf(elements[i].value);
        PartsNest(elements[i].value, p);
      case CallExpression(_, _, _, arguments) =>
        var i :| 0 <= i < |arguments| && p in PartsOf(arguments[i].value);
        PartsNest(arguments[i].value, p);
    }
  }

  lemma {:induction false} UnwrapIsPart(e: Expr)
    ensures Unwrap(e) in PartsOf(e)
    decreases e
  {
    if e.Wrapped? {
      UnwrapIsPart(e.inner);
    }
  }

  lemma ItemIsPart(e: Expr, k: nat)
    requires Unwrap(e).ArrayExpression? && k < |Unwrap(e).elements| && Unwrap(e).elements[k].Item?
    ensures Unwrap(Unwrap(e).elements[k].value) in PartsOf(e)
  {
    var v := Unwrap(e);
    UnwrapIsPart(e);
    PartsNest(e, v);
    var item := v.elements[k].value;
    UnwrapIsPart(item);
    assert Unwrap(item) in PartsOf(v);
  }

  /** All expressions there are: parts of one, and of the initializers. */
  function AllParts(scope: Scope, root: Expr): set<Expr> {
    PartsOf(root) + set d, p | d in scope.initializers && p in PartsOf(scope.initializers[d].value) :: p
  }

  ghost function AllStates(scope: Scope, s: State): set<State> {
    var declared := scope.initializers.Keys + s.resolving;
    set e, r | e in AllParts(scope, s.value) && r <= declared :: State(e, r)
  }

  lemma AllPartsNest(scope: Scope, root: Expr, p: Expr)
    requires p in AllParts(scope, root)
    ensures PartsOf(p) <= AllParts(scope, root)
  {
    hide PartsOf;
    if p in PartsOf(root) {
      PartsNest(root, p);
    } else {
      var d :| d in scope.initializers && p in PartsOf(scope.initializers[d].value);
      PartsNest(scope.initializers[d].value, p);
    }
  }

  lemma ChildIsPart(scope: Scope, root: Expr, s: State, c: Child)
    requires s.value in AllParts(scope, root) && c in ChildrenOf(scope, s)
    ensures c.state.value in AllParts(scope, root)
    ensures c.state.resolving <= s.resolving + scope.initializers.Keys
  {
    hide PartsOf, AllParts;
    var v := Unwrap(s.value);
    UnwrapIsPart(s.value);
    AllPartsNest(scope, root, s.value);
    match v
    case Identifier(range) =>
      InitializerIsPart(scope, root, scope.bindings[range].start);
    case ConditionalExpression(_, _, _) =>
      BranchesAreParts(v);
      AllPartsNest(scope, root, v);
    case CallExpression(_, _, _, arguments) =>
      PromiseChildIsPart(scope, root, v, s.resolving, c);
  }

  lemma InitializerIsPart(scope: Scope, root: Expr, d: nat)
    requires d in scope.initializers
    ensures scope.initializers[d].value in AllParts(scope, root)
  {
    assert scope.initializers[d].value in PartsOf(scope.initializers[d].value);
  }

  lemma BranchesAreParts(e: Expr)
    requires e.ConditionalExpression?
    ensures e.consequent in PartsOf(e) && e.alternate in PartsOf(e)
  {
    assert e.consequent in PartsOf(e.consequent) && e.alternate in PartsOf(e.alternate);
  }

  lemma ArgumentIsPart(e: Expr)
    requires e.CallExpression? && |e.arguments| == 1
    ensures e.arguments[0].value in PartsOf(e)
  {
    assert e.arguments[0].value in PartsOf(e.arguments[0].value);
  }

  lemma PromiseChildIsPart(scope: Scope, root: Expr, call: Expr, resolving: set<nat>, c: Child)
    requires call in AllParts(scope, root) && call.CallExpression? && call.callee.StaticPromiseAll?
    requires c in PromiseChildren(scope, call, resolving)
    ensures c.state.value in AllParts(scope, root) && c.state.resolving == resolving
  {
    hide PartsOf, AllParts, RangeOf;
    var argument := call.arguments[0].value;
    var passed := ArrayPassed(scope, call.arguments).value;
    var k :| 0 <= k < |passed.elements| && c.state.value == Unwrap(passed.elements[k].value);
    ArgumentIsPart(call);
    AllPartsNest(scope, root, call);
    if passed.alias.None? {
      AllPartsNest(scope, root, argument);
      ItemIsPart(argument, k);
    } else {
      var d := scope.bindings[Unwrap(argument).range].start;
      InitializerIsPart(scope, root, d);
      AllPartsNest(scope, root, scope.initializers[d].value);
      ItemIsPart(scope.initializers[d].value, k);
    }
  }

  /** A way from the expression, following it back, that comes back to a state it has passed. */
  ghost predicate Loops(scope: Scope, s: State) {
    exists p :: IsPath(Exploring(scope), p) && p[0] == s && p[|p| - 1] in p[..|p| - 1]
  }

  /** Following an expression comes to an end exactly if it never comes back to where it has been. */
  lemma EndsIffNoLoop(scope: Scope, s: State)
    ensures Ends(scope, s) <==> !Loops(scope, s)
  {
    assert s.value in PartsOf(s.value) && s.value in AllParts(scope, s.value);
    hide AllParts, Ends, Explore, PartsOf;
    var sys, universe := Exploring(scope), AllStates(scope, s);
    forall m, d | m in universe && d in sys.deps(m)
      ensures d in universe
    {
      var i :| 0 <= i < |ChildrenOf(scope, m)| && d == ChildrenOf(scope, m)[i].state;
      ChildIsPart(scope, s.value, m, ChildrenOf(scope, m)[i]);
      assert d == State(d.value, d.resolving);
    }
    assert s == State(s.value, s.resolving);
    assert s in universe;
    GroundedIffNoWitness(sys, s, universe);
    EndsIffGrounded(scope, s);
    assert forall p | Witness(sys, p) && p[0] == s :: Loops(scope, s);
    assert forall p | IsPath(sys, p) && p[0] == s && p[|p| - 1] in p[..|p| - 1] :: Witness(sys, p);
  }

  // ----- what can be told without following anything -----

  /** All states that could be looked at, whether or not looking stops before. */
  function Following(scope: Scope): System<State> {
    System(s => true, s => set c | c in ChildrenOf(scope, s) :: c.state)
  }

  lemma LookingIsFollowing(scope: Scope, p: seq<State>)
    requires IsPath(Exploring(scope), p)
    ensures IsPath(Following(scope), p)
  {
    hide Explore;
    forall i | 0 <= i < |p| - 1
      ensures DependsOn(Following(scope), p[i], p[i + 1])
    {
      assert DependsOn(Exploring(scope), p[i], p[i + 1]);
      var k :| 0 <= k < |ChildrenOf(scope, p[i])| && p[i + 1] == ChildrenOf(scope, p[i])[k].state;
      assert ChildrenOf(scope, p[i])[k] in ChildrenOf(scope, p[i]);
    }
  }

  /** Where nothing leads back to itself, stopped or not, following ends. */
  lemma EndsWithoutCircle(scope: Scope, s: State)
    requires !exists p :: IsPath(Following(scope), p) && p[0] == s && p[|p| - 1] in p[..|p| - 1]
    ensures Ends(scope, s)
  {
    hide Explore;
    EndsIffNoLoop(scope, s);
    if Loops(scope, s) {
      var p :| IsPath(Exploring(scope), p) && p[0] == s && p[|p| - 1] in p[..|p| - 1];
      LookingIsFollowing(scope, p);
    }
  }

  /** Each expression is the first that is followed from the one before it. */
  predicate FollowsFirst(scope: Scope, path: seq<State>) {
    forall i | 0 <= i < |path| - 1 :: IsFirst(scope, path[i], path[i + 1])
  }

  predicate IsFirst(scope: Scope, s: State, first: State) {
    ChildrenOf(scope, s) != [] && ChildrenOf(scope, s)[0].state == first
  }

  /**
   * Nothing stops the first element of an array, or the first branch of a choice, from being followed.
   * So a constant that leads back to itself through first elements, as one in an array of its own does,
   * is followed for ever.
   */
  lemma FirstCircleNeverEnds(scope: Scope, path: seq<State>)
    requires path != [] && FollowsFirst(scope, path) && path[|path| - 1] in path[..|path| - 1]
    ensures !Ends(scope, path[0])
  {
    hide Explore;
    forall i | 0 <= i < |path| - 1
      ensures DependsOn(Exploring(scope), path[i], path[i + 1])
    {
      assert IsFirst(scope, path[i], path[i + 1]);
      assert ChildrenOf(scope, path[i])[..0] == [];
      assert !Stops(scope, []);
    }
    assert IsPath(Exploring(scope), path);
    EndsIffNoLoop(scope, path[0]);
  }

  // ----- arrays of promises -----

  /** The array constants that are passed to Promise.all in an expression, without following other constants. */
  function ArrayUses(scope: Scope, e: Expr): set<nat> {
    var v := Unwrap(e);
    match v
    case ConditionalExpression(_, consequent, alternate) => ArrayUses(scope, consequent) + ArrayUses(scope, alternate)
    case CallExpression(_, _, StaticPromiseAll(_), arguments) =>
      if |arguments| != 1 then {}
      else
        var argument := Unwrap(arguments[0].value);
        (match argument
         case ArrayExpression(_, elements) =>
           set i, d | 0 <= i < |elements| && elements[i].Item? && d in ArrayUses(scope, elements[i].value) :: d
         case Identifier(reference) => if HasConstant(scope, reference) then {scope.bindings[reference].start} else {}
         case _ => {})
    case _ => {}
  }

  function ItemUses(scope: Scope, elements: seq<Element>): set<nat> {
    set i, d | 0 <= i < |elements| && elements[i].Item? && d in ArrayUses(scope, elements[i].value) :: d
  }

  /** No array constant leads back to itself by the arrays that its elements pass to Promise.all. */
  ghost predicate Ranked(scope: Scope, rank: nat -> nat) {
    forall d | d in scope.initializers && Unwrap(scope.initializers[d].value).ArrayExpression? ::
      RanksBelow(rank, ItemUses(scope, Unwrap(scope.initializers[d].value).elements), rank(d))
  }

  predicate RanksBelow(rank: nat -> nat, uses: set<nat>, bound: nat) {
    forall d | d in uses :: rank(d) < bound
  }

  lemma {:induction false} SomeBound(rank: nat -> nat, uses: set<nat>) returns (bound: nat)
    ensures RanksBelow(rank, uses, bound)
    decreases uses
  {
    if uses == {} {
      return 0;
    }
    var d :| d in uses;
    var rest := SomeBound(rank, uses - {d});
    bound := if rest <= rank(d) then rank(d) + 1 else rest;
    assert forall u | u in uses :: u == d || u in uses - {d};
  }

  lemma UsesUnwrapped(scope: Scope, e: Expr)
    ensures ArrayUses(scope, Unwrap(e)) == ArrayUses(scope, e)
  {
  }

  lemma ChildrenEnd(scope: Scope, s: State)
    requires forall c | c in ChildrenOf(scope, s) :: Ends(scope, c.state)
    ensures Ends(scope, s)
  {
    hide Explore, Ends, ChildrenOf;
    EndsIffGrounded(scope, s);
    GroundedUnfolds(Exploring(scope), s);
    forall d | d in Explored(scope, s)
      ensures Grounded(Exploring(scope), d)
    {
      var i :| 0 <= i < |ChildrenOf(scope, s)| && d == ChildrenOf(scope, s)[i].state;
      assert ChildrenOf(scope, s)[i] in ChildrenOf(scope, s);
      EndsIffGrounded(scope, d);
    }
  }

  /** Constants that refer to themselves are cut; so all ends when arrays do not lead back to themselves. */
  lemma {:induction false} RankedEnds(scope: Scope, rank: nat -> nat, s: State, bound: nat)
    requires Ranked(scope, rank) && RanksBelow(rank, ArrayUses(scope, s.value), bound)
    ensures Ends(scope, s)
    decreases scope.initializers.Keys - s.resolving, bound, s.value
  {
    hide Ends, Ranked, ArrayUses, RanksBelow;
    var v := Unwrap(s.value);
    UsesUnwrapped(scope, s.value);
    forall c | c in ChildrenOf(scope, s)
      ensures Ends(scope, c.state)
    {
      match v
      case Identifier(range) =>
        var d := scope.bindings[range].start;
        var wider := SomeBound(rank, ArrayUses(scope, c.state.value));
        assert d in scope.initializers.Keys - s.resolving && d !in scope.initializers.Keys - c.state.resolving;
        RankedEnds(scope, rank, c.state, wider);
      case ConditionalExpression(_, consequent, alternate) =>
        BranchUses(scope, rank, v, bound);
        RankedEnds(scope, rank, c.state, bound);
      case CallExpression(_, _, _, arguments) =>
        RankedPromise(scope, rank, s, v, c, bound);
    }
    ChildrenEnd(scope, s);
  }

  lemma BranchUses(scope: Scope, rank: nat -> nat, e: Expr, bound: nat)
    requires e.ConditionalExpression? && RanksBelow(rank, ArrayUses(scope, e), bound)
    ensures RanksBelow(rank, ArrayUses(scope, e.consequent), bound)
    ensures RanksBelow(rank, ArrayUses(scope, e.alternate), bound)
  {
  }

  lemma ItemUse(scope: Scope, rank: nat -> nat, elements: seq<Element>, k: nat, bound: nat)
    requires k < |elements| && elements[k].Item? && RanksBelow(rank, ItemUses(scope, elements), bound)
    ensures RanksBelow(rank, ArrayUses(scope, Unwrap(elements[k].value)), bound)
  {
    UsesUnwrapped(scope, elements[k].value);
  }

  lemma {:induction false} RankedPromise(scope: Scope, rank: nat -> nat, s: State, call: Expr, c: Child, bound: nat)
    requires Ranked(scope, rank) && RanksBelow(rank, ArrayUses(scope, s.value), bound)
    requires call == Unwrap(s.value) && call.CallExpression? && !call.optional && call.callee.StaticPromiseAll?
    requires c in PromiseChildren(scope, call, s.resolving)
    ensures Ends(scope, c.state)
    decreases scope.initializers.Keys - s.resolving, bound, s.value, 0
  {
    hide Ends, RanksBelow;
    UsesUnwrapped(scope, s.value);
    var argument := Unwrap(call.arguments[0].value);
    var elements := ArrayPassed(scope, call.arguments).value.elements;
    var k :| 0 <= k < |elements| && c.state == State(Unwrap(elements[k].value), s.resolving);
    if argument.ArrayExpression? {
      assert ItemUses(scope, elements) == ArrayUses(scope, call);
      ItemUse(scope, rank, elements, k, bound);
      assert elements[k].value < argument;
      RankedEnds(scope, rank, c.state, bound);
    } else {
      var d := scope.bindings[argument.range].start;
      assert d in ArrayUses(scope, call);
      RankBelow(rank, ArrayUses(scope, call), bound, d);
      ItemUse(scope, rank, elements, k, rank(d));
      RankedEnds(scope, rank, c.state, rank(d));
    }
  }

  lemma RankBelow(rank: nat -> nat, uses: set<nat>, bound: nat, d: nat)
    requires RanksBelow(rank, uses, bound) && d in uses
    ensures rank(d) < bound
  {
  }

  // ----- an array that waits for itself -----

  /** Promise.all(xs), in const xs = [Promise.all(xs)]. */
  const WAIT_FOR_SELF := CallExpression(Range(12, 27), false, StaticPromiseAll(Range(12, 19)),
                                        [Argument(Identifier(Range(24, 26)), false, false)])
  const SELF_WAITING := Scope([], [], map[Range(24, 26) := Binding(6, 8)],
                              map[6 := Initializer(ArrayExpression(Range(11, 28), [Item(WAIT_FOR_SELF)]), true)])

  /** The elements of an array constant are followed without noting the constant: this never ends. */
  lemma SelfWaitingNeverEnds()
    ensures !Ends(SELF_WAITING, State(WAIT_FOR_SELF, {}))
  {
    var scope, s := SELF_WAITING, State(WAIT_FOR_SELF, {});
    SelfWaitingChild();
    var path := [s, s];
    assert IsFirst(scope, s, s);
    assert path[..1] == [s];
    FirstCircleNeverEnds(scope, path);
  }

  lemma SelfWaitingChild()
    ensures var children := ChildrenOf(SELF_WAITING, State(WAIT_FOR_SELF, {}));
            |children| == 1 && children[0].state == State(WAIT_FOR_SELF, {})
  {
  }
}
