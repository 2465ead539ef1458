/** Static targets of calls: aliases, imports and exports followed to a unit, with a cache of answers. */
module Aliases {
  import opened Options
  import opened Grounding

  datatype Unit = Unit(name: string, alias: Option<string>)

  datatype Import = Import(typeOnly: bool, specifier: string, imported: string)

  datatype Module = Module(units: map<string, Unit>, imports: map<string, Import>, exports: map<string, string>)

  datatype Specifier = Specifier(importer: string, specifier: string)

  /** The modules of a program, and which one each import specifier means. */
  datatype Program = Program(modules: map<string, Module>, resolved: map<Specifier, string>)

  datatype Key = Key(module_: string, callee: string)

  datatype Resolution = Found(module_: string, unit: string) | NotFound | Failed

  datatype Next = Stop(result: Resolution) | Go(key: Key)

  /** One link of a chain. */
  function Step(p: Program, key: Key): Next {
    if key.module_ !in p.modules then Stop(Failed)
    else
      var m := p.modules[key.module_];
      if key.callee in m.units then
        var unit := m.units[key.callee];
        if unit.alias.Some? then Go(Key(key.module_, unit.alias.value)) else Stop(Found(key.module_, unit.name))
      else if key.callee !in m.imports || m.imports[key.callee].typeOnly then Stop(NotFound)
      else
        var binding := m.imports[key.callee];
        var specifier := Specifier(key.module_, binding.specifier);
        if specifier !in p.resolved then Stop(Failed)
        else if p.resolved[specifier] !in p.modules then Stop(NotFound)
        else
          var exports := p.modules[p.resolved[specifier]].exports;
          if binding.imported !in exports then Stop(NotFound)
          else Go(Key(p.resolved[specifier], exports[binding.imported]))
  }

  function After(p: Program, key: Key): set<Key> {
    var next := Step(p, key);
    if next.Go? then {next.key} else {}
  }

  function Chain(p: Program): System<Key> {
    System(k => true, k => After(p, k))
  }

  /** Where a chain of this length ends. */
  ghost function EndOf(p: Program, key: Key, length: nat): Resolution
    requires Within(Chain(p), key, length)
    decreases length
  {
    var next := Step(p, key);
    if next.Stop? then next.result
    else
      assert next.key in Chain(p).deps(key);
      EndOf(p, next.key, length - 1)
  }

  /** What following the chain gives: where it ends, or nothing if it never does. */
  ghost function Target(p: Program, key: Key): Resolution {
    if Grounded(Chain(p), key) then
      var length: nat :| Within(Chain(p), key, length);
      EndOf(p, key, length)
    else NotFound
  }

  lemma {:induction false} EndIsUnique(p: Program, key: Key, a: nat, b: nat)
    requires Within(Chain(p), key, a) && Within(Chain(p), key, b)
    ensures EndOf(p, key, a) == EndOf(p, key, b)
    decreases a
  {
    var next := Step(p, key);
    if next.Go? {
      assert next.key in Chain(p).deps(key);
      EndIsUnique(p, next.key, a - 1, b - 1);
    }
  }

  lemma TargetUnfolds(p: Program, key: Key)
    ensures Target(p, key) == match Step(p, key) case Stop(result) => result case Go(next) => Target(p, next)
  {
    hide Step;
    var next := Step(p, key);
    GroundedUnfolds(Chain(p), key);
    if next.Stop? {
      assert Within(Chain(p), key, 1);
    } else {
      assert next.key in Chain(p).deps(key);
    }
    if Grounded(Chain(p), key) {
      var length: nat :| Within(Chain(p), key, length) && Target(p, key) == EndOf(p, key, length);
      if next.Go? {
        assert Within(Chain(p), next.key, length - 1);
        assert EndOf(p, key, length) == EndOf(p, next.key, length - 1);
        TargetIs(p, next.key, length - 1);
      }
    }
  }

  lemma TargetIs(p: Program, key: Key, length: nat)
    requires Within(Chain(p), key, length)
    ensures Target(p, key) == EndOf(p, key, length)
  {
    hide Step;
    var other: nat :| Within(Chain(p), key, other) && Target(p, key) == EndOf(p, key, other);
    EndIsUnique(p, key, length, other);
  }

  /**
   * What a name means, case by case. A unit of the module comes before an import of the same name; an alias means
   * what its own name means; an import means what the exporting module calls what it exports under the imported
   * name, unless it is for types only.
   */
  lemma TargetMeans(p: Program, module_: string, callee: string)
    requires module_ in p.modules
    ensures var m, target := p.modules[module_], Target(p, Key(module_, callee));
      && (callee in m.units && m.units[callee].alias.None? ==> target == Found(module_, m.units[callee].name))
      && (callee in m.units && m.units[callee].alias.Some? ==>
            target == Target(p, Key(module_, m.units[callee].alias.value)))
      && (callee !in m.units && callee !in m.imports ==> target == NotFound)
      && (callee !in m.units && callee in m.imports && m.imports[callee].typeOnly ==> target == NotFound)
      && (callee !in m.units && callee in m.imports && !m.imports[callee].typeOnly ==>
            target == Imported(p, Specifier(module_, m.imports[callee].specifier), m.imports[callee].imported))
  {
    TargetUnfolds(p, Key(module_, callee));
    hide Target;
  }

  /** What a module exports under a name; a specifier that means no module fails for good. */
  ghost function Imported(p: Program, specifier: Specifier, name: string): Resolution {
    if specifier !in p.resolved then Failed
    else
      var exporter := p.resolved[specifier];
      if exporter !in p.modules || name !in p.modules[exporter].exports then NotFound
      else Target(p, Key(exporter, p.modules[exporter].exports[name]))
  }

  /** A chain that comes back to itself has no target. */
  lemma CycleHasNoTarget(p: Program, path: seq<Key>)
    requires IsPath(Chain(p), path) && |path| >= 2 && path[0] == path[|path| - 1]
    ensures Target(p, path[0]) == NotFound
  {
    CycleIsUngrounded(Chain(p), path);
  }

  /** The unit that is named by a key, and is not an alias. */
  predicate IsUnit(p: Program, key: Key, name: string) {
    && key.module_ in p.modules && key.callee in p.modules[key.module_].units
    && p.modules[key.module_].units[key.callee] == Unit(name, None)
  }

  /** A target that is found is the unit that the chain reaches, the first that is not an alias. */
  lemma FoundIsFirstUnit(p: Program, key: Key)
    ensures Target(p, key).Found? ==>
      exists path: seq<Key> :: IsPath(Chain(p), path) && path[0] == key
        && IsUnit(p, path[|path| - 1], Target(p, key).unit) && path[|path| - 1].module_ == Target(p, key).module_
        && forall i, name | 0 <= i < |path| - 1 :: !IsUnit(p, path[i], name)
  {
    hide Step, Target;
    if Target(p, key).Found? {
      var length := LengthOf(p, key);
      var path := PathToUnit(p, key, length);
    }
  }

  lemma LengthOf(p: Program, key: Key) returns (length: nat)
    requires Target(p, key).Found?
    ensures Within(Chain(p), key, length) && EndOf(p, key, length) == Target(p, key)
  {
    hide Step;
    length :| Within(Chain(p), key, length) && EndOf(p, key, length) == Target(p, key);
  }

  lemma {:induction false} PathToUnit(p: Program, key: Key, length: nat) returns (path: seq<Key>)
    requires Within(Chain(p), key, length) && EndOf(p, key, length).Found?
    ensures IsPath(Chain(p), path) && path[0] == key
    ensures var end, last := EndOf(p, key, length), path[|path| - 1];
            IsUnit(p, last, end.unit) && last.module_ == end.module_
    ensures forall i, name | 0 <= i < |path| - 1 :: !IsUnit(p, path[i], name)
    decreases length
  {
    var next := Step(p, key);
    if next.Stop? {
      return [key];
    }
    assert next.key in Chain(p).deps(key);
    var rest := PathToUnit(p, next.key, length - 1);
    PathCons(Chain(p), key, rest);
    path := [key] + rest;
  }

  // ----- following a chain -----

  /** The keys from which a chain can go on. */
  function Links(p: Program): set<Key> {
    set m, c | m in p.modules && c in p.modules[m].units :: Key(m, c)
  }

  function ImportLinks(p: Program): set<Key> {
    set m, c | m in p.modules && c in p.modules[m].imports :: Key(m, c)
  }

  ghost predicate Passed(p: Program, seen: set<Key>, trail: seq<Key>, key: Key) {
    IsPath(Chain(p), trail + [key]) && seen == set k | k in trail
  }

  method ResolveInner(p: Program, key: Key, seen: set<Key>, ghost trail: seq<Key>) returns (r: Resolution)
    requires Passed(p, seen, trail, key)
    ensures r == Target(p, key)
    decreases (Links(p) + ImportLinks(p)) - seen
  {
    hide Target, Links, ImportLinks;
    TargetUnfolds(p, key);
    if key in seen {
      CycleOnTrail(p, trail, key);
      return NotFound;
    }
    var next := Step(p, key);
    match next {
      case Stop(result) =>
        r := result;
      case Go(further) =>
        GoesOn(p, key);
        PathSnoc(Chain(p), trail + [key], further);
        ghost var longer := trail + [key];
        assert seen + {key} == set k | k in longer;
        r := ResolveInner(p, further, seen + {key}, longer);
    }
  }

  lemma GoesOn(p: Program, key: Key)
    requires Step(p, key).Go?
    ensures key in Links(p) + ImportLinks(p)
  {
    assert key == Key(key.module_, key.callee);
  }

  lemma CycleOnTrail(p: Program, trail: seq<Key>, key: Key)
    requires IsPath(Chain(p), trail + [key]) && key in trail
    ensures Target(p, key) == NotFound
  {
    hide Target;
    var whole := trail + [key];
    var i :| 0 <= i < |trail| && trail[i] == key;
    PathSlice(Chain(p), whole, i, |whole|);
    CycleHasNoTarget(p, whole[i..|whole|]);
  }

  method Resolve(p: Program, key: Key) returns (r: Resolution)
    ensures r == Target(p, key)
  {
    assert [] + [key] == [key];
    assert IsPath(Chain(p), [key]);
    r := ResolveInner(p, key, {}, []);
  }

  class TargetCache {
    const program: Program
    var cache: map<Key, Resolution>

    constructor (program: Program)
      ensures this.program == program && Sound() && cache == map[]
    {
      this.program := program;
      cache := map[];
    }

    ghost predicate Sound()
      reads this
    {
      forall k | k in cache :: cache[k] == Target(program, k) && !cache[k].Failed?
    }

    /** The target, whatever was asked before; failures are not kept. */
    method Lookup(key: Key) returns (r: Resolution)
      requires Sound()
      modifies this`cache
      ensures Sound() && r == Target(program, key)
      ensures cache == if r.Failed? then old(cache) else old(cache)[key := r]
    {
      hide Target;
      if key in cache {
        r := cache[key];
        assert cache == cache[key := r];
        return;
      }
      r := Resolve(program, key);
      if !r.Failed? {
        cache := cache[key := r];
      }
    }
  }
}
