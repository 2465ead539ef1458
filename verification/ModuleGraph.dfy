/**
 * Well-behaved chunks: each registers its namespace, requires its imports, publishes and returns. However they
 * import each other, in cycles too, they load without an error.
 */
module ModuleGraph {
  import opened Options
  import opened LifecycleSpec
  import opened ErrorFree

  predicate AreChunks(p: Package, units: seq<int>) {
    forall k | 0 <= k < |units| :: 0 <= units[k] < p.chunks
  }

  datatype Modules = Modules(imports: int -> seq<int>, name: int -> Namespace)
  {
    /** Every chunk has a factory, and imports chunks. */
    ghost predicate Fit(p: Package) {
      forall s | 0 <= s < p.chunks ::
        s in p.factories && AreChunks(p, imports(s))
    }
  }

  /** The slots that may be met while well-behaved chunks load each other. */
  ghost predicate Named(p: Package, slots: seq<UnitSlot>) {
    && p.chunks <= |slots|
    && forall s | 0 <= s < p.chunks ::
         (slots[s].state == Initializing ==> slots[s].namespace.Some?)
         && (slots[s].state == Uninitialized ==> slots[s] == FRESH_SLOT)
  }

  // ----- what well-behaved chunks do -----

  /** All that is done while s is initialized, depth first, and the slots afterwards. */
  function Transcript(p: Package, m: Modules, slots: seq<UnitSlot>, s: int): (r: (seq<GuestStep>, seq<UnitSlot>))
    requires m.Fit(p) && p.chunks <= |slots| && 0 <= s < p.chunks
    ensures |r.1| == |slots| && Unloaded(r.1) <= Unloaded(slots)
    decreases Unloaded(slots), 0, 0
  {
    if slots[s].state != Uninitialized then ([], slots)
    else
      var name := Some(m.name(s));
      var begun := slots[s := UnitSlot(name, Initializing, false)];
      assert s in Unloaded(slots) && s !in Unloaded(begun);
      var (steps, after) := Imported(p, m, begun, m.imports(s));
      ([Begin(s, name, false)] + steps + [Publish(s, name, false), Return],
       after[s := UnitSlot(name, Initialized, true)])
  }

  function Imported(p: Package, m: Modules, slots: seq<UnitSlot>, imports: seq<int>)
    : (r: (seq<GuestStep>, seq<UnitSlot>))
    requires m.Fit(p) && p.chunks <= |slots| && AreChunks(p, imports)
    ensures |r.1| == |slots| && Unloaded(r.1) <= Unloaded(slots)
    decreases Unloaded(slots), 1, |imports|
  {
    if imports == [] then ([], slots)
    else
      var (first, between) := Transcript(p, m, slots, imports[0]);
      var (others, after) := Imported(p, m, between, imports[1..]);
      ([Require(imports[0], false)] + first + others, after)
  }

  // ----- what it does to the slots -----

  /** What is being loaded, or has been, stays as it was; the new units have been loaded under their names. */
  ghost predicate LoadsMore(p: Package, m: Modules, a: seq<UnitSlot>, b: seq<UnitSlot>) {
    && |a| == |b|
    && forall s | 0 <= s < |a| ::
         b[s] == a[s] || (s < p.chunks && a[s].state == Uninitialized
                          && b[s] == UnitSlot(Some(m.name(s)), Initialized, true))
  }

  lemma {:induction false} TranscriptLoads(p: Package, m: Modules, slots: seq<UnitSlot>, s: int)
    requires m.Fit(p) && Named(p, slots) && 0 <= s < p.chunks
    ensures var after := Transcript(p, m, slots, s).1;
            LoadsMore(p, m, slots, after) && Named(p, after) && after[s].state != Uninitialized
    decreases Unloaded(slots), 0, 0
  {
    hide Imported;
    if slots[s].state == Uninitialized {
      var begun := slots[s := UnitSlot(Some(m.name(s)), Initializing, false)];
      assert s in Unloaded(slots) && s !in Unloaded(begun);
      ImportedLoads(p, m, begun, m.imports(s));
    }
  }

  lemma {:induction false} ImportedLoads(p: Package, m: Modules, slots: seq<UnitSlot>, imports: seq<int>)
    requires m.Fit(p) && Named(p, slots) && AreChunks(p, imports)
    ensures var after := Imported(p, m, slots, imports).1;
            LoadsMore(p, m, slots, after) && Named(p, after)
            && forall d | d in imports :: after[d].state != Uninitialized
    decreases Unloaded(slots), 1, |imports|
  {
    hide Transcript;
    if imports != [] {
      TranscriptLoads(p, m, slots, imports[0]);
      ImportedLoads(p, m, Transcript(p, m, slots, imports[0]).1, imports[1..]);
      assert forall d | d in imports :: d == imports[0] || d in imports[1..];
    }
  }

  // ----- it happens without an error -----

  /** Guest code that does what the transcript says loads the unit and leaves the rest of the script untouched. */
  lemma {:induction false} TranscriptPlays(p: Package, m: Modules, slots: seq<UnitSlot>, s: int,
                                           pending: seq<Option<Namespace>>, rest: seq<GuestStep>)
    requires m.Fit(p) && Named(p, slots) && 0 <= s < p.chunks
    ensures var (steps, after) := Transcript(p, m, slots, s);
            PlayUnit(p, Play(slots, pending, steps + rest), s) == Some(Play(after, pending, rest))
    decreases Unloaded(slots), 0, 0
  {
    hide Imported, PlayGuest;
    if slots[s].state == Uninitialized {
      var name := Some(m.name(s));
      var begun := slots[s := UnitSlot(name, Initializing, false)];
      assert s in Unloaded(slots) && s !in Unloaded(begun);
      var (steps, between) := Imported(p, m, begun, m.imports(s));
      var ending := [Publish(s, name, false), Return] + rest;
      var a := Play(slots, pending, [Begin(s, name, false)] + steps + [Publish(s, name, false), Return] + rest);
      PlayUnitUnfolds(p, a, s);
      var started := a.(slots := slots[s := slots[s].(state := Initializing)]);
      assert started.script[1..] == steps + ending;
      BeginPlays(p, started, s, name);
      assert started.slots[s := UnitSlot(name, Initializing, false)] == begun;
      ImportedPlays(p, m, begun, m.imports(s), pending, ending);
      ImportedLoads(p, m, begun, m.imports(s));
      assert ending[1..] == [Return] + rest;
      PublishPlays(p, Play(between, pending, ending), s, name, rest);
      var published := between[s := UnitSlot(name, Initializing, true)];
      assert PlayGuest(p, started) == Some(Play(published, pending, rest));
      assert published[s := UnitSlot(name, Initialized, true)] == between[s := UnitSlot(name, Initialized, true)];
    } else {
      assert [] + rest == rest;
    }
  }

  lemma BeginPlays(p: Package, a: Play, s: int, name: Option<Namespace>)
    requires 0 <= s < p.chunks && s < |a.slots| && a.slots[s].state == Initializing && !a.slots[s].published
    requires name.Some? && a.script != [] && a.script[0] == Begin(s, name, false)
    ensures PlayGuest(p, a) ==
            PlayGuest(p, a.(slots := a.slots[s := UnitSlot(name, Initializing, false)], script := a.script[1..]))
  {
  }

  lemma PublishPlays(p: Package, a: Play, s: int, name: Option<Namespace>, rest: seq<GuestStep>)
    requires 0 <= s < p.chunks && s < |a.slots| && a.slots[s] == UnitSlot(name, Initializing, false) && name.Some?
    requires a.script == [Publish(s, name, false), Return] + rest
    ensures PlayGuest(p, a) == Some(Play(a.slots[s := UnitSlot(name, Initializing, true)], a.pending, rest))
  {
    var b := a.(slots := a.slots[s := UnitSlot(name, Initializing, true)], script := a.script[1..]);
    assert a.script[1..][1..] == rest;
    assert PlayStep(p, a.(script := a.script[1..]), a.script[0]) == Some(b);
    assert PlayGuest(p, b) == Some(b.(script := rest));
  }

  lemma {:induction false} ImportedPlays(p: Package, m: Modules, slots: seq<UnitSlot>, imports: seq<int>,
                                         pending: seq<Option<Namespace>>, rest: seq<GuestStep>)
    requires m.Fit(p) && Named(p, slots) && AreChunks(p, imports)
    ensures var (steps, after) := Imported(p, m, slots, imports);
            PlayGuest(p, Play(slots, pending, steps + rest)) == PlayGuest(p, Play(after, pending, rest))
    decreases Unloaded(slots), 1, |imports|
  {
    hide Transcript, PlayGuest, PlayUnit;
    if imports == [] {
      assert [] + rest == rest;
    } else {
      var (first, between) := Transcript(p, m, slots, imports[0]);
      var (others, after) := Imported(p, m, between, imports[1..]);
      var script := [Require(imports[0], false)] + first + others + rest;
      assert script[1..] == first + (others + rest);
      TranscriptPlays(p, m, slots, imports[0], pending, others + rest);
      TranscriptLoads(p, m, slots, imports[0]);
      RequirePlays(p, Play(slots, pending, script), imports[0], Play(between, pending, others + rest));
      ImportedPlays(p, m, between, imports[1..], pending, rest);
    }
  }

  lemma RequirePlays(p: Package, a: Play, s: int, b: Play)
    requires a.script != [] && a.script[0] == Require(s, false)
    requires PlayUnit(p, a.(script := a.script[1..]), s) == Some(b)
    ensures PlayGuest(p, a) == PlayGuest(p, b)
  {
    hide PlayUnit;
  }

  // ----- it loads exactly what is reachable -----

  ghost predicate ImportPath(m: Modules, path: seq<int>) {
    path != [] && forall i | 0 <= i < |path| - 1 :: path[i + 1] in m.imports(path[i])
  }

  ghost predicate Reachable(m: Modules, s: int, t: int) {
    exists path :: ImportPath(m, path) && path[0] == s && path[|path| - 1] == t
  }

  /** What has been loaded has all its imports loaded, or being loaded. */
  ghost predicate Closed(p: Package, m: Modules, slots: seq<UnitSlot>)
    requires p.chunks <= |slots|
  {
    forall s, d | 0 <= s < p.chunks && slots[s].state == Initialized && d in m.imports(s) ::
      0 <= d < p.chunks ==> slots[d].state != Uninitialized
  }

  lemma ReachableByImport(m: Modules, s: int, d: int, t: int)
    requires d in m.imports(s) && Reachable(m, d, t)
    ensures Reachable(m, s, t)
  {
    var path :| ImportPath(m, path) && path[0] == d && path[|path| - 1] == t;
    assert ImportPath(m, [s] + path);
  }

  lemma ReachableItself(m: Modules, s: int)
    ensures Reachable(m, s, s)
  {
    assert ImportPath(m, [s]);
  }

  lemma {:induction false} TranscriptReaches(p: Package, m: Modules, slots: seq<UnitSlot>, s: int)
    requires m.Fit(p) && Named(p, slots) && 0 <= s < p.chunks && Closed(p, m, slots)
    ensures var after := Transcript(p, m, slots, s).1;
            && Closed(p, m, after)
            && forall t | 0 <= t < |slots| && after[t] != slots[t] :: Reachable(m, s, t)
    decreases Unloaded(slots), 0, 0
  {
    hide Imported, Reachable;
    if slots[s].state == Uninitialized {
      var begun := slots[s := UnitSlot(Some(m.name(s)), Initializing, false)];
      assert s in Unloaded(slots) && s !in Unloaded(begun);
      ImportedLoads(p, m, begun, m.imports(s));
      ImportedReaches(p, m, begun, m.imports(s));
      ReachableItself(m, s);
      var between := Imported(p, m, begun, m.imports(s)).1;
      forall t | 0 <= t < |slots| && t != s && between[t] != begun[t]
        ensures Reachable(m, s, t)
      {
        var d :| d in m.imports(s) && Reachable(m, d, t);
        ReachableByImport(m, s, d, t);
      }
    }
  }

  lemma {:induction false} ImportedReaches(p: Package, m: Modules, slots: seq<UnitSlot>, imports: seq<int>)
    requires m.Fit(p) && Named(p, slots) && AreChunks(p, imports) && Closed(p, m, slots)
    ensures var after := Imported(p, m, slots, imports).1;
            && Closed(p, m, after)
            && forall t | 0 <= t < |slots| && after[t] != slots[t] :: exists d :: d in imports && Reachable(m, d, t)
    decreases Unloaded(slots), 1, |imports|
  {
    hide Transcript, Reachable, Closed;
    if imports != [] {
      var between := Transcript(p, m, slots, imports[0]).1;
      TranscriptLoads(p, m, slots, imports[0]);
      TranscriptReaches(p, m, slots, imports[0]);
      ImportedReaches(p, m, between, imports[1..]);
    }
  }

  lemma {:induction false} ClosedHasPath(p: Package, m: Modules, slots: seq<UnitSlot>, path: seq<int>)
    requires m.Fit(p) && p.chunks <= |slots| && Closed(p, m, slots) && ImportPath(m, path)
    requires forall s | 0 <= s < p.chunks :: slots[s].state != Initializing
    requires 0 <= path[0] < p.chunks && slots[path[0]].state == Initialized
    ensures var t := path[|path| - 1]; 0 <= t < p.chunks && slots[t].state == Initialized
    decreases |path|
  {
    if |path| > 1 {
      assert path[1] in m.imports(path[0]);
      ClosedHasPath(p, m, slots, path[1..]);
    }
  }

  /**
   * Between top-level calls, initializing a well-behaved chunk loads exactly those chunks that can be reached
   * from it by imports and were not loaded, each under its own name, whatever cycles there are.
   */
  lemma LoadsWhatIsReachable(p: Package, m: Modules, slots: seq<UnitSlot>, s: int)
    requires m.Fit(p) && 0 <= s < p.chunks <= |slots| && Closed(p, m, slots)
    requires forall t | 0 <= t < |slots| :: Settled(slots[t])
    ensures var after := Transcript(p, m, slots, s).1;
            && |after| == |slots| && Closed(p, m, after)
            && forall t | 0 <= t < |slots| ::
                 after[t] == if slots[t].state == Uninitialized && t < p.chunks && Reachable(m, s, t)
                             then UnitSlot(Some(m.name(t)), Initialized, true) else slots[t]
  {
    hide Transcript, Reachable, Closed;
    var after := Transcript(p, m, slots, s).1;
    TranscriptLoads(p, m, slots, s);
    TranscriptReaches(p, m, slots, s);
    forall t | 0 <= t < p.chunks && Reachable(m, s, t)
      ensures after[t].state == Initialized
    {
      ReachableIsLoaded(p, m, after, s, t);
    }
  }

  lemma ReachableIsLoaded(p: Package, m: Modules, slots: seq<UnitSlot>, s: int, t: int)
    requires m.Fit(p) && p.chunks <= |slots| && Closed(p, m, slots)
    requires forall s | 0 <= s < p.chunks :: slots[s].state != Initializing
    requires 0 <= s < p.chunks && slots[s].state == Initialized && Reachable(m, s, t)
    ensures 0 <= t < p.chunks && slots[t].state == Initialized
  {
    hide Closed;
    var path :| ImportPath(m, path) && path[0] == s && path[|path| - 1] == t;
    ClosedHasPath(p, m, slots, path);
  }

  // ----- entries -----

  /** The publication unit reads the namespace of the entry's chunk, hands it off and returns. */
  function Publication(p: Package, entry: int, namespace: Option<Namespace>): seq<GuestStep> {
    [ReadEntry(entry, p.entryChunk(entry), false), PublishEntry(entry, entry, namespace, false), Return]
  }

  /** An entry whose chunk and imports are well-behaved is prepared without an error. */
  lemma EntryPlays(p: Package, m: Modules, slots: seq<UnitSlot>, entry: int, pending: seq<Option<Namespace>>,
                   rest: seq<GuestStep>)
    requires m.Fit(p) && p.chunks <= |slots| && forall t | 0 <= t < |slots| :: Settled(slots[t])
    requires 0 <= entry < p.entries && p.EntryFits(entry) && p.publicationUnit(entry) in p.factories
    requires |pending| == p.entries && pending[entry].None?
    ensures var r := Transcript(p, m, slots, p.entryChunk(entry));
            PlayEntry(p, Play(slots, pending, r.0 + Publication(p, entry, r.1[p.entryChunk(entry)].namespace) + rest),
                      entry)
              == Some(Play(r.1, pending, rest))
  {
    hide Transcript, PlayUnit, PlayGuest;
    var chunk := p.entryChunk(entry);
    var (steps, after) := Transcript(p, m, slots, chunk);
    var namespace := after[chunk].namespace;
    TranscriptLoads(p, m, slots, chunk);
    TranscriptPlays(p, m, slots, chunk, pending, Publication(p, entry, namespace) + rest);
    assert steps + Publication(p, entry, namespace) + rest == steps + (Publication(p, entry, namespace) + rest);
    PublicationPlays(p, Play(after, pending, Publication(p, entry, namespace) + rest), entry, namespace, rest);
    assert pending[entry := namespace][entry := None] == pending;
  }

  lemma PublicationPlays(p: Package, a: Play, entry: int, namespace: Option<Namespace>, rest: seq<GuestStep>)
    requires 0 <= entry < p.entries == |a.pending| && a.pending[entry].None? && namespace.Some?
    requires Loaded(a.slots, p.entryChunk(entry), namespace)
    requires a.script == Publication(p, entry, namespace) + rest
    ensures PlayGuest(p, a) == Some(Play(a.slots, a.pending[entry := namespace], rest))
  {
    var b := a.(script := a.script[1..]);
    var c := Play(a.slots, a.pending[entry := namespace], b.script[1..]);
    assert a.script[0] == ReadEntry(entry, p.entryChunk(entry), false);
    assert b.script[0] == PublishEntry(entry, entry, namespace, false);
    assert c.script[0] == Return && c.script[1..] == rest;
    assert PlayStep(p, b, a.script[0]) == Some(b);
    assert PlayStep(p, b.(script := b.script[1..]), b.script[0]) == Some(c);
    assert PlayGuest(p, c) == Some(c.(script := rest));
    assert PlayGuest(p, b) == PlayGuest(p, c);
  }
}
