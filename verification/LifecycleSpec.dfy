/**
 * What there is to know about a chunk runtime between and during top-level calls: its slots, its
 * support, what makes a state sound, and how guest code and the loader may change it.
 */
module LifecycleSpec {
  import opened Options

  /** The identity of a namespace object. */
  type Namespace = nat

  const MAX_UNIT_SLOTS: nat := 1024

  datatype UnitState = Uninitialized | Initializing | Initialized

  datatype UnitSlot = UnitSlot(namespace: Option<Namespace>, state: UnitState, published: bool)

  const FRESH_SLOT := UnitSlot(None, Uninitialized, false)

  datatype ExportSlot = ExportSlot(exports: Option<Namespace>, initializations: nat)

  const FRESH_EXPORT := ExportSlot(None, 0)

  /** What was compiled in. An entry is handed off by a publication unit and exports a chunk. */
  datatype Package = Package(entries: int, units: int, chunks: int, factories: set<int>,
                             entryChunk: int -> int, publicationUnit: int -> int, official: int -> bool)
  {
    predicate SelectionInRange(entry: int) {
      && 0 < entries <= MAX_UNIT_SLOTS && 0 <= entry < entries
      && 2 <= units <= MAX_UNIT_SLOTS && units > entries
    }

    predicate EntryFits(entry: int) {
      && official(entry) && 0 <= entryChunk(entry) < chunks && chunks <= publicationUnit(entry) < units
    }

    predicate Consistent() {
      && 0 < entries && 2 <= units <= MAX_UNIT_SLOTS && 0 < chunks && chunks + entries == units
      && (forall e | 0 <= e < entries :: EntryFits(e))
      && forall e, f | 0 <= e < f < entries :: publicationUnit(e) != publicationUnit(f)
    }
  }

  /** The retained pieces of a runtime other than its slots. */
  datatype Support = Support(bridge: bool, bootstrap: bool, validator: bool, facade: bool, reporter: bool,
                             constructors: bool, compileOutput: bool, bridgeUnits: nat, formatterUnits: nat,
                             declaredEntries: int, declaredUnits: int)

  const NO_SUPPORT := Support(false, false, false, false, false, false, false, 0, 0, 0, 0)

  /** One thing guest code does: a loader callback, with whether it swallows an error, or the end. */
  datatype GuestStep =
    | Require(slot: int, swallow: bool)
    | Begin(slot: int, namespace: Option<Namespace>, swallow: bool)
    | Publish(slot: int, namespace: Option<Namespace>, swallow: bool)
    | ReadEntry(entry: int, requested: int, swallow: bool)
    | PublishEntry(entry: int, handoff: int, namespace: Option<Namespace>, swallow: bool)
    | Throw
    | Return

  /** The number of loader callbacks in a script. */
  function Callbacks(script: seq<GuestStep>): nat {
    if script == [] then 0
    else (if script[0] == Throw || script[0] == Return then 0 else 1) + Callbacks(script[1..])
  }

  /** How a slot looks when no loading is going on. */
  predicate Settled(slot: UnitSlot) {
    match slot.state
    case Uninitialized => slot == FRESH_SLOT
    case Initialized => slot.published && slot.namespace.Some?
    case Initializing => false
  }

  /** Slots never go back, and a loaded one never changes. */
  predicate Advances(before: UnitSlot, after: UnitSlot) {
    match before.state
    case Uninitialized => true
    case Initializing =>
      after.state != Uninitialized && (before.published ==> after.published && after.namespace == before.namespace)
    case Initialized => after == before
  }

  /**
   * The loader's part of the retained state. `active` are the units whose factory is running, `runs`
   * how often each factory has run and `failures` the number of loader errors, all in this runtime.
   */
  datatype LoadState = LoadState(slots: seq<UnitSlot>, exports: seq<ExportSlot>, pending: seq<Option<Namespace>>,
                                 support: Support, live: bool, dirty: bool, validated: int,
                                 active: set<int>, runs: map<int, nat>, failures: nat)

  function Runs(runs: map<int, nat>, s: int): nat {
    if s in runs then runs[s] else 0
  }

  ghost predicate AllSettled(slots: seq<UnitSlot>) {
    forall s | 0 <= s < |slots| :: Settled(slots[s])
  }

  /** The factory of a chunk unit has run once if the unit has left its first state, and otherwise not at all. */
  ghost predicate RunsOnce(p: Package, slots: seq<UnitSlot>, runs: map<int, nat>) {
    forall s | 0 <= s < |slots| && s < p.chunks :: Runs(runs, s) == if slots[s].state == Uninitialized then 0 else 1
  }

  /**
   * The factory of a publication unit has run once if its entry is exported. Otherwise it has not run,
   * unless it is running or has failed.
   */
  ghost predicate PublicationSound(p: Package, st: LoadState, e: int, slot: ExportSlot) {
    var unit := p.publicationUnit(e);
    if slot.exports.Some? then Runs(st.runs, unit) == 1
    else Runs(st.runs, unit) == 0 || (Runs(st.runs, unit) == 1 && (st.dirty || unit in st.active))
  }

  /** The unit belongs to the application: it is a chunk, or hands off an entry. */
  ghost predicate Belongs(p: Package, unit: int) {
    0 <= unit < p.chunks || exists e :: 0 <= e < p.entries && p.publicationUnit(e) == unit
  }

  /** No other factory has run or is running. */
  ghost predicate OnlyOwnRun(p: Package, st: LoadState) {
    && (forall s | Runs(st.runs, s) > 0 :: Belongs(p, s))
    && (forall s | s in st.active :: Belongs(p, s))
  }

  /** The cache is only set while every slot is settled. */
  ghost predicate CacheSound(p: Package, st: LoadState) {
    st.validated == 0 || (st.validated == p.chunks > 0 && AllSettled(st.slots))
  }

  ghost predicate SlotsSound(p: Package, st: LoadState) {
    && |st.slots| == MAX_UNIT_SLOTS
    && (forall s | 0 <= s < MAX_UNIT_SLOTS :: SlotSound(p, st, s, st.slots[s]))
    && (st.failures > 0 ==> st.dirty)
    && RunsOnce(p, st.slots, st.runs)
    && CacheSound(p, st)
  }

  /** A slot on the stack is being loaded, and the other way round unless a loading failed. */
  ghost predicate SlotSound(p: Package, st: LoadState, s: int, slot: UnitSlot) {
    && (slot.state != Initializing ==> Settled(slot))
    && (slot.state != Uninitialized ==> s < p.chunks)
    && (slot.state == Initializing && !st.dirty ==> s in st.active)
    && (s in st.active && s < p.chunks ==> slot.state == Initializing)
  }

  ghost predicate Loaded(slots: seq<UnitSlot>, s: int, namespace: Option<Namespace>) {
    0 <= s < |slots| && slots[s].state == Initialized && slots[s].namespace == namespace
  }

  /** An export is the namespace of its loaded chunk, and so is what is pending. */
  ghost predicate ExportsSound(p: Package, st: LoadState) {
    && |st.pending| == |st.exports| == p.entries
    && (forall e | 0 <= e < p.entries :: ExportSound(p, st.slots, e, st.exports[e]))
    && (forall e | 0 <= e < p.entries :: PublicationSound(p, st, e, st.exports[e]))
    && OnlyOwnRun(p, st)
    && (forall e | 0 <= e < p.entries :: st.pending[e].Some? ==> Loaded(st.slots, p.entryChunk(e), st.pending[e]))
  }

  ghost predicate ExportSound(p: Package, slots: seq<UnitSlot>, e: int, slot: ExportSlot) {
    if slot.exports.None? then slot.initializations == 0
    else slot.initializations == 1 && Loaded(slots, p.entryChunk(e), slot.exports)
  }

  function Ready(p: Package): Support {
    Support(true, false, true, true, true, true, false, 1, 1, p.entries, p.units)
  }

  /** What holds whenever guest code may run. */
  ghost predicate Loading(p: Package, st: LoadState) {
    SlotsSound(p, st) && ExportsSound(p, st) && st.live && st.support == Ready(p) && p.Consistent()
  }

  /** A live runtime that passes a full scan of its slots, with no loader error behind it. */
  ghost predicate Sound(p: Package, st: LoadState) {
    && Loading(p, st) && !st.dirty && AllSettled(st.slots) && st.active == {}
    && forall e | 0 <= e < |st.pending| :: st.pending[e].None?
  }

  ghost predicate NothingRetained(st: LoadState) {
    && |st.slots| == MAX_UNIT_SLOTS && (forall s | 0 <= s < MAX_UNIT_SLOTS :: st.slots[s] == FRESH_SLOT)
    && st == LoadState(st.slots, [], [], NO_SUPPORT, false, false, 0, {}, map[], 0)
  }

  /** How guest code may change the state. */
  ghost predicate Grows(a: LoadState, b: LoadState) {
    && |a.slots| == |b.slots|
    && (forall s | 0 <= s < |a.slots| :: Advances(a.slots[s], b.slots[s]))
    && (a.dirty ==> b.dirty)
    && a.active == b.active && a.support == b.support && a.exports == b.exports && a.live == b.live
    && (b.validated != 0 ==> b.validated == a.validated && b.slots == a.slots)
    && (forall s | Runs(b.runs, s) != Runs(a.runs, s) :: 0 <= s < |b.slots| && b.slots[s].state != Uninitialized)
  }

  ghost function Unloaded(slots: seq<UnitSlot>): set<int> {
    set s | 0 <= s < |slots| && slots[s].state == Uninitialized
  }

  lemma GrowsTransitively(a: LoadState, b: LoadState, c: LoadState)
    requires Grows(a, b) && Grows(b, c)
    ensures Grows(a, c)
  {
    forall s | 0 <= s < |a.slots|
      ensures Advances(a.slots[s], c.slots[s])
    {
      assert Advances(a.slots[s], b.slots[s]) && Advances(b.slots[s], c.slots[s]);
    }
  }

  lemma GrowsMeans(a: LoadState, b: LoadState)
    requires Grows(a, b)
    ensures Unloaded(b.slots) <= Unloaded(a.slots) && AllAdvance(a.slots, b.slots)
    ensures b.active == a.active && b.exports == a.exports && b.live == a.live
  {
    forall s | s in Unloaded(b.slots)
      ensures s in Unloaded(a.slots)
    {
      assert Advances(a.slots[s], b.slots[s]);
    }
  }

  /** A loader error leaves the slots and the exports alone. */
  lemma FailureIsSound(p: Package, a: LoadState)
    requires Loading(p, a)
    ensures var b := a.(dirty := true, failures := a.failures + 1); Loading(p, b) && Grows(a, b)
  {
    var b := a.(dirty := true, failures := a.failures + 1);
    forall s | 0 <= s < MAX_UNIT_SLOTS
      ensures SlotSound(p, b, s, b.slots[s])
    {
      assert SlotSound(p, a, s, a.slots[s]);
    }
  }

  /** Starting to load a unit. */
  lemma StartIsSound(p: Package, a: LoadState, slot: int)
    requires Loading(p, a) && 0 <= slot < p.chunks && a.slots[slot].state == Uninitialized
    ensures var b := Started(a, slot);
            Loading(p, b) && Unloaded(b.slots) < Unloaded(a.slots)
  {
    var b := Started(a, slot);
    assert SlotSound(p, a, slot, a.slots[slot]);
    forall s | 0 <= s < MAX_UNIT_SLOTS
      ensures SlotSound(p, b, s, b.slots[s])
    {
      assert SlotSound(p, a, s, a.slots[s]);
    }
    forall e | 0 <= e < p.entries
      ensures ExportSound(p, b.slots, e, b.exports[e]) && PublicationSound(p, b, e, b.exports[e])
    {
      assert ExportSound(p, a.slots, e, a.exports[e]) && PublicationSound(p, a, e, a.exports[e]);
    }
    assert slot in Unloaded(a.slots) && slot !in Unloaded(b.slots);
  }

  function Started(a: LoadState, slot: int): LoadState
    requires 0 <= slot < |a.slots|
  {
    a.(validated := 0, slots := a.slots[slot := a.slots[slot].(state := Initializing)],
       active := a.active + {slot}, runs := a.runs[slot := Runs(a.runs, slot) + 1])
  }

  /** Coming back from a factory: the unit is off the stack, and either loaded or left behind as failed. */
  lemma FinishIsSound(p: Package, a: LoadState, b: LoadState, slot: int, failed: bool)
    requires Loading(p, a) && 0 <= slot < p.chunks && a.slots[slot].state == Uninitialized
    requires Loading(p, b) && Grows(Started(a, slot), b)
    requires failed || (b.slots[slot].published && b.slots[slot].namespace.Some?)
    ensures var c := Finished(a, b, slot, failed); Loading(p, c) && Grows(a, c)
  {
    var c := Finished(a, b, slot, failed);
    assert SlotSound(p, a, slot, a.slots[slot]) && SlotSound(p, b, slot, b.slots[slot]);
    assert Advances(Started(a, slot).slots[slot], b.slots[slot]);
    forall s | 0 <= s < MAX_UNIT_SLOTS
      ensures SlotSound(p, c, s, c.slots[s]) && Advances(a.slots[s], c.slots[s])
    {
      assert SlotSound(p, a, s, a.slots[s]) && SlotSound(p, b, s, b.slots[s]);
      assert Advances(Started(a, slot).slots[s], b.slots[s]);
    }
    forall e | 0 <= e < p.entries
      ensures ExportSound(p, c.slots, e, c.exports[e]) && PublicationSound(p, c, e, c.exports[e])
      ensures c.pending[e].Some? ==> Loaded(c.slots, p.entryChunk(e), c.pending[e])
    {
      assert ExportSound(p, b.slots, e, b.exports[e]) && PublicationSound(p, b, e, b.exports[e]);
      assert p.EntryFits(e);
    }
  }

  function Finished(a: LoadState, b: LoadState, slot: int, failed: bool): LoadState
    requires 0 <= slot < |b.slots|
  {
    if failed then b.(active := a.active, dirty := true, failures := b.failures + 1)
    else b.(active := a.active, validated := 0, slots := b.slots[slot := b.slots[slot].(state := Initialized)])
  }

  /** A callback that rewrites a slot that is being loaded. */
  lemma RewriteIsSound(p: Package, a: LoadState, slot: int, to: UnitSlot)
    requires Loading(p, a) && 0 <= slot < p.chunks && a.slots[slot].state == Initializing && !a.slots[slot].published
    requires to.state == Initializing
    ensures var b := a.(validated := 0, slots := a.slots[slot := to]); Loading(p, b) && Grows(a, b)
  {
    var b := a.(validated := 0, slots := a.slots[slot := to]);
    forall s | 0 <= s < MAX_UNIT_SLOTS
      ensures SlotSound(p, b, s, b.slots[s])
    {
      assert SlotSound(p, a, s, a.slots[s]);
    }
    forall e | 0 <= e < p.entries
      ensures ExportSound(p, b.slots, e, b.exports[e]) && PublicationSound(p, b, e, b.exports[e])
    {
      assert ExportSound(p, a.slots, e, a.exports[e]) && PublicationSound(p, a, e, a.exports[e]);
    }
  }

  /**
   * What a sound runtime means for its slots, factories and loader errors. A chunk unit has run once if
   * it is loaded, the publication unit of an entry once if the entry is exported, and nothing else has.
   */
  lemma SoundMeans(p: Package, st: LoadState, s: int)
    requires Sound(p, st)
    ensures st.failures == 0
    ensures 0 <= s < MAX_UNIT_SLOTS ==>
      && st.slots[s].state != Initializing
      && (st.slots[s].state == Initialized ==> s < p.chunks && st.slots[s].published && st.slots[s].namespace.Some?)
    ensures 0 <= s < p.chunks ==> Runs(st.runs, s) == if Loaded(st.slots, s, st.slots[s].namespace) then 1 else 0
    ensures 0 <= s < p.entries ==> Runs(st.runs, p.publicationUnit(s)) == if st.exports[s].exports.Some? then 1 else 0
    ensures !Belongs(p, s) ==> Runs(st.runs, s) == 0
  {
    if 0 <= s < MAX_UNIT_SLOTS {
      assert SlotSound(p, st, s, st.slots[s]) && Settled(st.slots[s]);
    }
    if 0 <= s < p.entries {
      assert PublicationSound(p, st, s, st.exports[s]);
    }
  }

  /** Whatever guest code does, no factory runs twice in one runtime. */
  lemma RunAtMostOnce(p: Package, st: LoadState, s: int)
    requires Loading(p, st)
    ensures Runs(st.runs, s) <= 1
  {
    if Runs(st.runs, s) > 0 && !(0 <= s < p.chunks) {
      var e :| 0 <= e < p.entries && p.publicationUnit(e) == s;
      assert PublicationSound(p, st, e, st.exports[e]);
    }
  }

  /** How often the factories of the first units have been started. */
  function Starts(runs: map<int, nat>, units: nat): nat {
    if units == 0 then 0 else Starts(runs, units - 1) + Runs(runs, units - 1)
  }

  /** There are no more starts in a runtime than units, and no more nested loadings than chunks. */
  lemma LoadingIsBounded(p: Package, st: LoadState)
    requires Loading(p, st)
    ensures Starts(st.runs, p.chunks) <= p.chunks && Starts(st.runs, p.units) <= p.units
    ensures |set s | s in st.active && s < p.chunks| <= p.chunks
  {
    StartsAreFew(p, st, p.chunks);
    StartsAreFew(p, st, p.units);
    var loading := set s | s in st.active && s < p.chunks;
    forall s | s in loading
      ensures 0 <= s
    {
      if e :| 0 <= e < p.entries && p.publicationUnit(e) == s {
        assert p.EntryFits(e);
      }
    }
    BelowIsFew(loading, p.chunks);
  }

  lemma {:induction false} StartsAreFew(p: Package, st: LoadState, units: nat)
    requires Loading(p, st)
    ensures Starts(st.runs, units) <= units
  {
    if units > 0 {
      StartsAreFew(p, st, units - 1);
      RunAtMostOnce(p, st, units - 1);
    }
  }

  lemma {:induction false} BelowIsFew(units: set<int>, bound: nat)
    requires forall s | s in units :: 0 <= s < bound
    ensures |units| <= bound
    decreases bound
  {
    if bound == 0 {
      assert forall s :: s !in units;
    } else {
      BelowIsFew(units - {bound - 1}, bound - 1);
    }
  }

  /** A top-level call, with everything that guest and host do during it. */
  datatype Call =
    | Prepare(entry: int, named: bool, script: seq<GuestStep>, answers: seq<bool>)
    | Invoke(entry: int, named: bool, invocationStatus: int, script: seq<GuestStep>, answers: seq<bool>)
    | Maintain(operation: nat, argument: nat, script: seq<GuestStep>, answers: seq<bool>)
    | Destroy(script: seq<GuestStep>, answers: seq<bool>)

  lemma DeclaredIsPackage(p: Package, st: LoadState)
    requires Sound(p, st)
    ensures st.support.declaredEntries == p.entries > 0
  {
  }

  lemma BoundaryHasSlots(p: Package, st: LoadState)
    requires Sound(p, st) || NothingRetained(st)
    ensures |st.slots| == MAX_UNIT_SLOTS
  {
  }

  lemma PreparedIsLoaded(p: Package, st: LoadState, entry: int)
    requires Sound(p, st) && 0 <= entry < p.entries && st.exports[entry].exports.Some?
    ensures Loaded(st.slots, p.entryChunk(entry), st.exports[entry].exports)
    ensures st.live && st.support.declaredEntries == p.entries
  {
    assert ExportSound(p, st.slots, entry, st.exports[entry]);
  }

  /** What a full scan asks of one slot. */
  ghost predicate PassesScan(p: Package, s: int, slot: UnitSlot) {
    if s < p.chunks && slot.state == Initialized then slot.published && slot.namespace.Some? else slot == FRESH_SLOT
  }

  ghost predicate FullScan(p: Package, slots: seq<UnitSlot>) {
    forall s | 0 <= s < |slots| :: PassesScan(p, s, slots[s])
  }

  ghost predicate ExportConsistent(slot: ExportSlot) {
    slot == FRESH_EXPORT || (slot.exports.Some? && slot.initializations == 1)
  }

  ghost predicate SupportValid(p: Package, s: Support) {
    && s.bridge && !s.bootstrap && s.validator && s.facade && s.reporter && s.constructors && !s.compileOutput
    && s.bridgeUnits == s.formatterUnits == 1
    && 0 < s.declaredEntries <= MAX_UNIT_SLOTS && 2 <= s.declaredUnits <= MAX_UNIT_SLOTS
    && p.chunks > 0 && p.chunks + s.declaredEntries == s.declaredUnits
  }

  /** A retained runtime that passes every check, with a full scan of its slots. */
  ghost predicate RetainedValid(p: Package, st: LoadState) {
    && SupportValid(p, st.support)
    && |st.exports| == |st.pending| == st.support.declaredEntries
    && !st.dirty
    && (forall e | 0 <= e < |st.exports| :: ExportConsistent(st.exports[e]))
    && FullScan(p, st.slots)
    && forall e | 0 <= e < |st.pending| :: st.pending[e].None?
  }

  /** A set cache stands for a full scan. */
  lemma SettledPassesScan(p: Package, st: LoadState)
    requires SlotsSound(p, st)
    ensures AllSettled(st.slots) <==> FullScan(p, st.slots)
  {
    forall s | 0 <= s < |st.slots|
      ensures Settled(st.slots[s]) <==> PassesScan(p, s, st.slots[s])
    {
      assert SlotSound(p, st, s, st.slots[s]);
    }
  }

  lemma LoadingIsSound(p: Package, st: LoadState)
    requires Loading(p, st)
    ensures SlotsSound(p, st) && st.live && |st.slots| == MAX_UNIT_SLOTS
  {
  }

  /** The retained check accepts exactly the sound states. */
  lemma ValidIsSound(p: Package, st: LoadState, validated: int)
    requires Loading(p, st) && SlotsSound(p, st.(validated := validated))
    ensures RetainedValid(p, st) && st.active == {} <==> Sound(p, st)
    ensures Loading(p, st.(validated := validated))
    ensures Sound(p, st) ==> Sound(p, st.(validated := validated))
  {
    SettledPassesScan(p, st);
    forall e | 0 <= e < p.entries
      ensures ExportConsistent(st.exports[e])
    {
      assert ExportSound(p, st.slots, e, st.exports[e]);
    }
    var st' := st.(validated := validated);
    forall e | 0 <= e < p.entries
      ensures ExportSound(p, st'.slots, e, st'.exports[e])
    {
      assert ExportSound(p, st.slots, e, st.exports[e]);
    }
  }

  lemma SoundFits(p: Package, st: LoadState, entry: int)
    requires Sound(p, st) && 0 <= entry < p.entries
    ensures Loading(p, st) && !st.dirty && st.pending[entry].None? && st.active == {}
    ensures forall e | 0 <= e < |st.pending| :: st.pending[e].None?
    ensures |st.slots| == MAX_UNIT_SLOTS && |st.exports| == |st.pending| == p.entries == st.support.declaredEntries
    ensures st.exports[entry].exports.None? ==> st.exports[entry] == FRESH_EXPORT
    ensures st.exports[entry].exports.Some? ==> st.exports[entry].initializations == 1
  {
    assert ExportSound(p, st.slots, entry, st.exports[entry]);
  }

  lemma SoundIsSettled(p: Package, st: LoadState)
    requires Sound(p, st)
    ensures |st.slots| == MAX_UNIT_SLOTS >= p.chunks && forall s | 0 <= s < MAX_UNIT_SLOTS :: Settled(st.slots[s])
  {
  }

  lemma LoadingFits(p: Package, st: LoadState, entry: int)
    requires Loading(p, st) && 0 <= entry < p.entries
    ensures |st.slots| == MAX_UNIT_SLOTS && |st.exports| == |st.pending| == p.entries == st.support.declaredEntries
    ensures p.EntryFits(entry)
  {
  }

  ghost predicate AllAdvance(a: seq<UnitSlot>, b: seq<UnitSlot>) {
    |a| == |b| && forall s | 0 <= s < |a| :: Advances(a[s], b[s])
  }

  /** The factory of the publication unit of an entry is run. */
  function PublicationStarted(p: Package, a: LoadState, entry: int): LoadState {
    var unit := p.publicationUnit(entry);
    a.(active := a.active + {unit}, runs := a.runs[unit := Runs(a.runs, unit) + 1])
  }

  lemma PublicationIsSound(p: Package, a: LoadState, entry: int)
    requires Loading(p, a) && 0 <= entry < p.entries && a.exports[entry].exports.None?
    requires Runs(a.runs, p.publicationUnit(entry)) == 0
    ensures Loading(p, PublicationStarted(p, a, entry))
    ensures Runs(PublicationStarted(p, a, entry).runs, p.publicationUnit(entry)) == 1
  {
    var b := PublicationStarted(p, a, entry);
    assert p.EntryFits(entry);
    assert Belongs(p, p.publicationUnit(entry));
    forall s | 0 <= s < MAX_UNIT_SLOTS
      ensures SlotSound(p, b, s, b.slots[s])
    {
      assert SlotSound(p, a, s, a.slots[s]);
    }
    forall e | 0 <= e < p.entries
      ensures ExportSound(p, b.slots, e, b.exports[e]) && PublicationSound(p, b, e, b.exports[e])
    {
      assert ExportSound(p, a.slots, e, a.exports[e]) && PublicationSound(p, a, e, a.exports[e]);
      if e != entry {
        PublicationsDiffer(p, e, entry);
      }
    }
  }

  lemma PublicationsDiffer(p: Package, e: int, f: int)
    requires p.Consistent() && 0 <= e < p.entries && 0 <= f < p.entries && e != f
    ensures p.publicationUnit(e) != p.publicationUnit(f)
  {
    if e < f {
      assert p.publicationUnit(e) != p.publicationUnit(f);
    } else {
      assert p.publicationUnit(f) != p.publicationUnit(e);
    }
  }

  /** While loading goes on, the run of a publication unit is not touched. */
  lemma PublicationRunsKept(p: Package, a: LoadState, b: LoadState, entry: int)
    requires Loading(p, b) && Grows(a, b) && 0 <= entry < p.entries
    ensures Runs(b.runs, p.publicationUnit(entry)) == Runs(a.runs, p.publicationUnit(entry))
  {
    var unit := p.publicationUnit(entry);
    assert p.EntryFits(entry);
    assert SlotSound(p, b, unit, b.slots[unit]);
  }

  /** A publication unit that did not get to hand its entry off. */
  function PublicationFailed(a: LoadState): LoadState {
    a.(active := {}, dirty := true, failures := a.failures + 1)
  }

  lemma PublicationFailureIsSound(p: Package, a: LoadState)
    requires Loading(p, a) && forall s | s in a.active :: s >= p.chunks
    ensures Loading(p, PublicationFailed(a))
  {
    var b := PublicationFailed(a);
    forall s | 0 <= s < MAX_UNIT_SLOTS
      ensures SlotSound(p, b, s, b.slots[s])
    {
      assert SlotSound(p, a, s, a.slots[s]);
    }
    forall e | 0 <= e < p.entries
      ensures ExportSound(p, b.slots, e, b.exports[e]) && PublicationSound(p, b, e, b.exports[e])
    {
      assert ExportSound(p, a.slots, e, a.exports[e]) && PublicationSound(p, a, e, a.exports[e]);
    }
  }

  lemma AdvancesTransitively(a: seq<UnitSlot>, b: seq<UnitSlot>, c: seq<UnitSlot>)
    requires AllAdvance(a, b) && AllAdvance(b, c)
    ensures AllAdvance(a, c)
  {
    forall s | 0 <= s < |a|
      ensures Advances(a[s], c[s])
    {
      assert Advances(a[s], b[s]) && Advances(b[s], c[s]);
    }
  }

  function HandedOff(a: LoadState, entry: int): LoadState
    requires 0 <= entry < |a.pending| == |a.exports|
  {
    a.(exports := a.exports[entry := ExportSlot(a.pending[entry], 1)], pending := a.pending[entry := None],
       active := {})
  }

  /** Moving a pending export in place, once the publication unit has run. */
  lemma HandOffIsSound(p: Package, a: LoadState, entry: int)
    requires Loading(p, a) && 0 <= entry < p.entries && a.pending[entry].Some?
    requires a.active == {p.publicationUnit(entry)} && Runs(a.runs, p.publicationUnit(entry)) == 1
    ensures var b := HandedOff(a, entry);
            && Loading(p, b)
            && Loaded(b.slots, p.entryChunk(entry), b.exports[entry].exports)
  {
    var b := HandedOff(a, entry);
    assert p.EntryFits(entry);
    forall s | 0 <= s < MAX_UNIT_SLOTS
      ensures SlotSound(p, b, s, b.slots[s])
    {
      assert SlotSound(p, a, s, a.slots[s]);
    }
    forall e | 0 <= e < p.entries
      ensures ExportSound(p, b.slots, e, b.exports[e]) && PublicationSound(p, b, e, b.exports[e])
    {
      assert ExportSound(p, a.slots, e, a.exports[e]) && PublicationSound(p, a, e, a.exports[e]);
    }
  }

  /** A runtime whose support is complete and which has loaded nothing. */
  ghost function Built(p: Package): LoadState
    requires p.entries >= 0
  {
    LoadState(seq(MAX_UNIT_SLOTS, _ => FRESH_SLOT), seq(p.entries, _ => FRESH_EXPORT), seq(p.entries, _ => None),
              Ready(p), true, false, 0, {}, map[], 0)
  }

  lemma EmptyIsBuilt(p: Package, st: LoadState)
    requires NothingRetained(st) && p.Consistent()
    ensures st.slots == Built(p).slots && |st.slots| >= p.chunks
    ensures forall s | 0 <= s < |st.slots| :: Settled(st.slots[s])
  {
  }

  lemma BuiltIsSound(p: Package)
    requires p.Consistent()
    ensures Sound(p, Built(p))
  {
  }

  lemma NothingGrows(a: LoadState)
    ensures Grows(a, a) && AllAdvance(a.slots, a.slots)
  {
  }

  lemma PendingIsSound(p: Package, a: LoadState, entry: int, namespace: Option<Namespace>)
    requires Loading(p, a) && 0 <= entry < p.entries && Loaded(a.slots, p.entryChunk(entry), namespace)
    ensures var b := a.(pending := a.pending[entry := namespace]); Loading(p, b) && Grows(a, b)
  {
    var b := a.(pending := a.pending[entry := namespace]);
    forall s | 0 <= s < MAX_UNIT_SLOTS
      ensures SlotSound(p, b, s, b.slots[s])
    {
      assert SlotSound(p, a, s, a.slots[s]);
    }
  }
}
