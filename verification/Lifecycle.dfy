/**
 * The life of a chunk runtime: CommonJS-style loading with cycles, provisional publication, the
 * retained state between top-level calls and its cached validation.
 *
 * Guest code is an adversary. Whatever it does during one top-level call is a finite script of
 * loader calls, whose errors it may swallow, read from `script`; every yes-or-no outcome that lies
 * with the host or the engine is read from `answers`. Statements for all scripts and answers are
 * statements for all guests and hosts.
 */
module Lifecycle {
  import opened Options
  import opened LifecycleSpec
  import opened ErrorFree
  import opened ModuleGraph

  class ChunkRuntime {
    const package: Package
    var live: bool
    var guestCallActive: bool
    var boundaryReady: bool
    var invocationStarted: bool
    var imagePrepared: bool
    var support: Support
    var exports: seq<ExportSlot>
    var pending: seq<Option<Namespace>>
    const units: array<UnitSlot>
    var dirty: bool
    var validated: int
    var trapped: bool

    var script: seq<GuestStep>
    var answers: seq<bool>

    ghost var active: set<int>
    ghost var runs: map<int, nat>
    ghost var failures: nat

    constructor (package: Package)
      ensures this.package == package && fresh(units) && Boundary() && !live
    {
      this.package := package;
      live, guestCallActive, boundaryReady, invocationStarted, imagePrepared := false, false, false, false, false;
      support, exports, pending := NO_SUPPORT, [], [];
      units := new UnitSlot[MAX_UNIT_SLOTS](_ => FRESH_SLOT);
      dirty, validated, trapped := false, 0, false;
      script, answers := [], [];
      active, runs, failures := {}, map[], 0;
    }

    ghost function State(): LoadState
      reads this`exports, this`pending, this`support, this`live, this`dirty, this`validated
      reads this`active, this`runs, this`failures, units
    {
      LoadState(units[..], exports, pending, support, live, dirty, validated, active, runs, failures)
    }

    /** No runtime, and nothing retained. */
    ghost predicate Empty()
      reads this, units
    {
      !invocationStarted && !imagePrepared && NothingRetained(State())
    }

    /** What holds between top-level calls. */
    ghost predicate Boundary()
      reads this, units
    {
      && !trapped && !guestCallActive && active == {}
      && (if live then Sound(package, State()) else Empty())
      && (boundaryReady ==> live)
    }

    /** The flags that guest code cannot reach. */
    twostate predicate FlagsKept()
      reads this
    {
      && trapped == old(trapped) && guestCallActive == old(guestCallActive) && boundaryReady == old(boundaryReady)
      && invocationStarted == old(invocationStarted) && imagePrepared == old(imagePrepared)
      && |script| <= |old(script)| && |answers| <= |old(answers)|
      && (Throw in script ==> Throw in old(script)) && (false in answers ==> false in old(answers))
    }

    ghost function Playing(): Play
      reads this`pending, this`script, units
    {
      Play(units[..], pending, script)
    }

    /** As long as the host says yes to everything, what is defined without an error happens without one. */
    twostate predicate Plays(new r: Option<Play>)
      reads this, units
    {
      old(answers) == [] && r.Some? ==>
        answers == [] && Playing() == r.value && dirty == old(dirty) && failures == old(failures)
    }

    /** Every loader error but `more` is that of a callback the guest has made meanwhile. */
    twostate predicate Charged(more: nat)
      reads this
    {
      failures + Callbacks(script) <= old(failures) + Callbacks(old(script)) + more
    }

    /** One decision of the host or the engine; yes once the script of them has run out. */
    method Ask() returns (yes: bool)
      modifies this`answers
      ensures |old(answers)| == 0 ==> yes && answers == []
      ensures |old(answers)| > 0 ==> yes == old(answers)[0] && answers == old(answers)[1..]
    {
      if answers == [] {
        return true;
      }
      yes := answers[0];
      answers := answers[1..];
    }

    // ----- top-level calls -----

    /** Every top-level call begins like this. A call from inside another one traps, and changes nothing else. */
    method Lease() returns (granted: bool)
      modifies this`guestCallActive, this`boundaryReady, this`trapped
      ensures granted <==> !old(guestCallActive)
      ensures granted ==> guestCallActive && !boundaryReady && trapped == old(trapped)
      ensures !granted ==> trapped && guestCallActive && boundaryReady == old(boundaryReady)
    {
      if guestCallActive {
        trapped := true;
        return false;
      }
      guestCallActive, boundaryReady := true, false;
      return true;
    }

    // ----- loading -----

    /** Notes a loader error; the runtime will be retired even if the guest swallows the error. */
    method Fail()
      requires Loading(package, State())
      modifies this`dirty, this`failures
      ensures dirty && State() == old(State()).(dirty := true, failures := old(failures) + 1)
      ensures Loading(package, State()) && Grows(old(State()), State())
    {
      FailureIsSound(package, State());
      dirty := true;
      failures := failures + 1;
    }

    /**
     * Yields the namespace of a loaded unit and the provisional one of a unit being loaded, and changes nothing;
     * any other unit is loaded. If there is no namespace, one of the causes listed is at work.
     */
    method InitializeUnit(slot: int) returns (namespace: Option<Namespace>)
      requires Loading(package, State())
      modifies this, units
      ensures Loading(package, State()) && Grows(old(State()), State()) && FlagsKept()
      ensures failures >= old(failures) && (namespace.None? ==> dirty && failures > old(failures))
      ensures namespace.Some? ==>
        && 0 <= slot < package.chunks && units[slot].namespace == namespace
        && (units[slot].state == Initialized || old(units[slot].state) == Initializing)
      ensures !(0 <= slot < package.chunks) ==> namespace.None?
      ensures 0 <= slot < package.chunks && old(units[slot].state) == Initialized ==>
        namespace.Some? && namespace == old(units[slot].namespace) && State() == old(State())
      ensures 0 <= slot < package.chunks && old(units[slot].state) == Initializing ==>
        namespace == old(units[slot].namespace) && (namespace.Some? ==> State() == old(State()))
      ensures 0 <= slot < package.chunks && old(units[slot].state) == Uninitialized && namespace.None? ==>
        slot !in package.factories || Troubled(slot)
      ensures Charged(if namespace.None? then 1 else 0)
      ensures old(answers) == [] && old(PlayUnit(package, Playing(), slot)).Some? ==> namespace.Some?
      ensures Plays(old(PlayUnit(package, Playing(), slot)))
      decreases Unloaded(State().slots), |script|, 2
    {
      if slot < 0 || slot >= package.chunks {
        Fail();
        return None;
      }
      var unit := units[slot];
      if unit.state == Initialized {
        if !unit.published || unit.namespace.None? {
          Fail();
          return None;
        }
        return unit.namespace;
      }
      if unit.state == Initializing {
        if unit.namespace.None? {
          Fail();
          return None;
        }
        return unit.namespace;
      }
      if slot !in package.factories {
        Fail();
        return None;
      }
      namespace := LoadUnit(slot);
    }

    /**
     * Why a factory that was run may yield no namespace: it has not published one, it has thrown, an error of a
     * callback within it was not swallowed, or the host has refused a check.
     */
    twostate predicate Troubled(slot: int)
      reads this, units
    {
      || (0 <= slot < units.Length && (!units[slot].published || units[slot].namespace.None?))
      || Throw in old(script) || failures > old(failures) + 1 || false in old(answers)
    }

    /** Runs the factory of a unit for the first time. */
    method LoadUnit(slot: int) returns (namespace: Option<Namespace>)
      requires Loading(package, State()) && 0 <= slot < package.chunks && units[slot].state == Uninitialized
      requires slot in package.factories
      modifies this, units
      ensures Loading(package, State()) && Grows(old(State()), State()) && FlagsKept()
      ensures failures >= old(failures) && (namespace.None? ==> dirty && failures > old(failures) && Troubled(slot))
      ensures namespace.Some? ==> Loaded(State().slots, slot, namespace)
      ensures Charged(if namespace.None? then 1 else 0)
      ensures old(answers) == [] && old(PlayUnit(package, Playing(), slot)).Some? ==> namespace.Some?
      ensures Plays(old(PlayUnit(package, Playing(), slot)))
      decreases Unloaded(State().slots), |script|, 1
    {
      hide Loading, Grows, Started, Finished, Unloaded, PlayUnit, PlayGuest;
      ghost var before := State();
      ghost var here := Playing();
      Start(slot);
      PlayUnitUnfolds(package, here, slot);
      assert Playing() == here.(slots := here.slots[slot := here.slots[slot].(state := Initializing)]);
      var threw := RunGuest();
      var ok := Finish(slot, threw, before);
      if !ok {
        return None;
      }
      var intact := Check(before);
      return if intact then units[slot].namespace else None;
    }

    /** The check of the intrinsics after a factory. */
    method Check(ghost before: LoadState) returns (ok: bool)
      requires Loading(package, State()) && Grows(before, State())
      modifies this`answers, this`dirty, this`failures
      ensures Loading(package, State()) && Grows(before, State()) && FlagsKept()
      ensures ok <==> old(answers) == [] || old(answers)[0]
      ensures ok ==> dirty == old(dirty) && failures == old(failures)
      ensures !ok ==> dirty && failures == old(failures) + 1
    {
      hide Loading, Grows;
      ghost var loaded := State();
      ok := Ask();
      if !ok {
        Fail();
        GrowsTransitively(before, loaded, State());
      }
    }

    method Start(slot: int)
      requires Loading(package, State()) && 0 <= slot < package.chunks && units[slot].state == Uninitialized
      modifies this`validated, this`active, this`runs, units
      ensures slot < |old(State().slots)| && State() == Started(old(State()), slot)
      ensures Loading(package, State()) && Unloaded(State().slots) < Unloaded(old(State().slots))
      ensures units[..] == old(units[..])[slot := old(units[slot]).(state := Initializing)]
    {
      StartIsSound(package, State(), slot);
      validated := 0;
      units[slot] := units[slot].(state := Initializing);
      active, runs := active + {slot}, runs[slot := Runs(runs, slot) + 1];
      assert State() == Started(old(State()), slot);
    }

    /** Takes a unit off the stack; without its published namespace it stays behind as failed. */
    method Finish(slot: int, threw: bool, ghost before: LoadState) returns (ok: bool)
      requires Loading(package, before) && 0 <= slot < package.chunks && before.slots[slot].state == Uninitialized
      requires Loading(package, State()) && Grows(Started(before, slot), State())
      modifies this`validated, this`active, this`dirty, this`failures, units
      ensures Loading(package, State()) && Grows(before, State())
      ensures ok <==> !threw && old(units[slot]).published && old(units[slot]).namespace.Some?
      ensures ok ==> Loaded(State().slots, slot, old(units[slot]).namespace)
      ensures ok ==> units[..] == old(units[..])[slot := old(units[slot]).(state := Initialized)]
      ensures ok ==> dirty == old(dirty) && failures == old(failures)
      ensures !ok ==> dirty && failures == old(failures) + 1 && units[..] == old(units[..])
    {
      ghost var after := State();
      FinishIsSound(package, before, after, slot,
                    threw || !units[slot].published || units[slot].namespace.None?);
      active := before.active;
      if threw || !units[slot].published || units[slot].namespace.None? {
        dirty := true;
        failures := failures + 1;
        assert State() == Finished(before, after, slot, true);
        return false;
      }
      validated := 0;
      units[slot] := units[slot].(state := Initialized);
      assert State() == Finished(before, after, slot, false);
      return true;
    }

    /** Runs guest code up to the end of its current activation. */
    method RunGuest() returns (threw: bool)
      requires Loading(package, State())
      modifies this, units
      ensures Loading(package, State()) && Grows(old(State()), State()) && FlagsKept()
      ensures failures >= old(failures) && (threw ==> Throw in old(script) || failures > old(failures))
      ensures old(script) != [] && old(script)[0] == Throw ==> threw
      ensures Charged(0)
      ensures old(answers) == [] && old(PlayGuest(package, Playing())).Some? ==> !threw
      ensures Plays(old(PlayGuest(package, Playing())))
      decreases Unloaded(State().slots), |script|, 0
    {
      hide Loading, Grows, Unloaded, State;
      ghost var start := State();
      ghost var result := PlayGuest(package, Playing());
      NothingGrows(start);
      while script != []
        invariant Loading(package, State()) && Grows(start, State()) && FlagsKept()
        invariant Charged(0) && (old(script) != [] && old(script)[0] == Throw ==> script == old(script))
        invariant failures >= old(failures)
        invariant old(answers) == [] && result.Some? ==>
          && answers == [] && dirty == old(dirty) && failures == old(failures)
          && PlayGuest(package, Playing()) == result
        decreases |script|
      {
        ghost var here := State();
        GrowsMeans(start, here);
        var step := script[0];
        script := script[1..];
        if step == Throw || step == Return {
          return step == Throw;
        }
        var ok := Perform(step);
        GrowsTransitively(start, here, State());
        if !ok && !step.swallow {
          return true;
        }
      }
      threw := false;
    }

    /** One loader callback. */
    method Perform(step: GuestStep) returns (ok: bool)
      requires Loading(package, State()) && step != Throw && step != Return
      modifies this, units
      ensures Loading(package, State()) && Grows(old(State()), State()) && FlagsKept()
      ensures failures >= old(failures) && (!ok ==> dirty && failures > old(failures))
      ensures Charged(if ok then 0 else 1)
      ensures old(answers) == [] && old(PlayStep(package, Playing(), step)).Some? ==> ok
      ensures Plays(old(PlayStep(package, Playing(), step)))
      decreases Unloaded(State().slots), |script|, 3
    {
      hide Loading, Grows, Unloaded;
      match step {
        case Require(slot, _) =>
          var namespace := InitializeUnit(slot);
          ok := namespace.Some?;
        case Begin(slot, namespace, _) => ok := BeginNamespace(slot, namespace);
        case Publish(slot, namespace, _) => ok := PublishNamespace(slot, namespace);
        case ReadEntry(entry, requested, _) => ok := ReadNamespace(entry, requested);
        case PublishEntry(entry, handoff, namespace, _) => ok := PublishEntryNamespace(entry, handoff, namespace);
      }
    }

    /** Registers the provisional namespace of a unit that is being loaded. */
    method BeginNamespace(slot: int, namespace: Option<Namespace>) returns (ok: bool)
      requires Loading(package, State())
      modifies this`dirty, this`failures, this`validated, units
      ensures Loading(package, State()) && Grows(old(State()), State())
      ensures ok <==>
        && 0 <= slot < package.chunks && namespace.Some?
        && old(units[slot].state) == Initializing && !old(units[slot].published)
      ensures ok ==> units[..] == old(units[..])[slot := UnitSlot(namespace, Initializing, false)]
      ensures ok ==> dirty == old(dirty) && failures == old(failures)
      ensures !ok ==> dirty && failures == old(failures) + 1 && units[..] == old(units[..])
    {
      if slot < 0 || slot >= package.chunks || units[slot].state != Initializing || units[slot].published
        || namespace.None?
      {
        Fail();
        return false;
      }
      ghost var before := State();
      RewriteIsSound(package, before, slot, UnitSlot(namespace, Initializing, false));
      validated := 0;
      units[slot] := units[slot].(namespace := namespace);
      assert State() == before.(validated := 0,
                                slots := before.slots[slot := UnitSlot(namespace, Initializing, false)]);
      return true;
    }

    /** Publishes the namespace that was registered, and no other. */
    method PublishNamespace(slot: int, namespace: Option<Namespace>) returns (ok: bool)
      requires Loading(package, State())
      modifies this`dirty, this`failures, this`validated, units
      ensures Loading(package, State()) && Grows(old(State()), State())
      ensures ok <==>
        && 0 <= slot < package.chunks && namespace.Some?
        && old(units[slot]) == UnitSlot(namespace, Initializing, false)
      ensures ok ==> units[..] == old(units[..])[slot := UnitSlot(namespace, Initializing, true)]
      ensures ok ==> dirty == old(dirty) && failures == old(failures)
      ensures !ok ==> dirty && failures == old(failures) + 1 && units[..] == old(units[..])
    {
      if slot < 0 || slot >= package.chunks || units[slot].state != Initializing || units[slot].published
        || namespace.None? || units[slot].namespace != namespace
      {
        Fail();
        return false;
      }
      ghost var before := State();
      RewriteIsSound(package, before, slot, UnitSlot(namespace, Initializing, true));
      validated := 0;
      units[slot] := units[slot].(published := true);
      assert State() == before.(validated := 0, slots := before.slots[slot := UnitSlot(namespace, Initializing, true)]);
      return true;
    }

    method ReadNamespace(entry: int, requested: int) returns (ok: bool)
      requires Loading(package, State())
      modifies this`dirty, this`failures
      ensures Loading(package, State()) && Grows(old(State()), State())
      ensures ok <==>
        && 0 <= entry < package.entries && requested == package.entryChunk(entry)
        && 0 <= requested < |State().slots| && units[requested].state == Initialized
      ensures ok ==> dirty == old(dirty) && failures == old(failures)
      ensures !ok ==> dirty && failures == old(failures) + 1
    {
      if entry < 0 || entry >= package.entries || requested != package.entryChunk(entry) {
        Fail();
        return false;
      }
      assert package.EntryFits(entry);
      if units[requested].state != Initialized || !units[requested].published || units[requested].namespace.None? {
        Fail();
        return false;
      }
      return true;
    }

    /** Hands an entry off, provisionally. */
    method PublishEntryNamespace(entry: int, handoff: int, namespace: Option<Namespace>) returns (ok: bool)
      requires Loading(package, State())
      modifies this`dirty, this`failures, this`pending
      ensures Loading(package, State()) && Grows(old(State()), State())
      ensures ok <==>
        && 0 <= entry == handoff < package.entries && old(pending)[entry].None?
        && namespace.Some? && Loaded(State().slots, package.entryChunk(entry), namespace)
      ensures ok ==> pending == old(pending)[entry := namespace]
      ensures ok ==> dirty == old(dirty) && failures == old(failures)
      ensures !ok ==> dirty && failures == old(failures) + 1 && pending == old(pending)
    {
      if entry < 0 || entry >= package.entries || handoff != entry || pending[entry].Some? {
        Fail();
        return false;
      }
      assert package.EntryFits(entry);
      var unit := units[package.entryChunk(entry)];
      if unit.state != Initialized || unit.namespace.None? || namespace.None? || unit.namespace != namespace {
        Fail();
        return false;
      }
      ghost var before := State();
      pending := pending[entry := namespace];
      PendingIsSound(package, before, entry, namespace);
      assert State() == before.(pending := pending);
      return true;
    }

    // ----- retained state -----

    method Reset()
      requires units.Length == MAX_UNIT_SLOTS
      modifies this, units
      ensures Empty() && !live && !boundaryReady && active == {}
      ensures trapped == old(trapped) && guestCallActive == old(guestCallActive)
    {
      ResetSlots();
      ResetGlobals();
      assert State() == LoadState(units[..], [], [], NO_SUPPORT, false, false, 0, {}, map[], 0);
    }

    method ResetGlobals()
      modifies this
      ensures !boundaryReady && !invocationStarted && !imagePrepared && support == NO_SUPPORT
      ensures exports == [] && pending == [] && validated == 0 && !dirty && !live
      ensures active == {} && runs == map[] && failures == 0
      ensures trapped == old(trapped) && guestCallActive == old(guestCallActive)
    {
      boundaryReady, invocationStarted, imagePrepared := false, false, false;
      support := NO_SUPPORT;
      exports := [];
      validated := 0;
      pending := [];
      dirty, live := false, false;
      active, runs, failures := {}, map[], 0;
    }

    method ResetSlots()
      modifies units
      ensures forall s | 0 <= s < units.Length :: units[s] == FRESH_SLOT
    {
      var s := 0;
      while s < units.Length
        invariant 0 <= s <= units.Length
        invariant forall k | 0 <= k < s :: units[k] == FRESH_SLOT
      {
        units[s] := FRESH_SLOT;
        s := s + 1;
      }
    }

    method RetainedIsEmpty() returns (empty: bool)
      requires units.Length == MAX_UNIT_SLOTS
      ensures empty <==>
        && support == NO_SUPPORT && exports == [] && pending == [] && !dirty
        && forall s | 0 <= s < MAX_UNIT_SLOTS :: units[s] == FRESH_SLOT
    {
      if support != NO_SUPPORT || exports != [] || pending != [] || dirty {
        return false;
      }
      var s := 0;
      while s < units.Length
        invariant 0 <= s <= units.Length
        invariant forall k | 0 <= k < s :: units[k] == FRESH_SLOT
      {
        if units[s].namespace.Some? || units[s].state != Uninitialized || units[s].published {
          return false;
        }
        s := s + 1;
      }
      return true;
    }

    /**
     * The check made on a retained runtime. The scan of the slots is skipped when it has passed since
     * a slot was last written, and yet the answer is always that of a full scan.
     */
    method RetainedIsValid() returns (valid: bool)
      requires SlotsSound(package, State())
      modifies this`validated
      ensures valid <==> RetainedValid(package, old(State()))
      ensures State() == old(State()).(validated := validated) && SlotsSound(package, State())
    {
      if !support.bridge || support.bootstrap || !support.validator || !support.facade || !support.reporter
        || !support.constructors || support.compileOutput || support.bridgeUnits != 1 || support.formatterUnits != 1
        || support.declaredEntries <= 0 || support.declaredEntries > MAX_UNIT_SLOTS
        || |exports| != support.declaredEntries || |pending| != |exports|
        || support.declaredUnits < 2 || support.declaredUnits > MAX_UNIT_SLOTS || package.chunks <= 0 || dirty
        || package.chunks + support.declaredEntries != support.declaredUnits
      {
        return false;
      }
      var e := 0;
      while e < |exports|
        invariant 0 <= e <= |exports|
        invariant forall k | 0 <= k < e :: ExportConsistent(exports[k])
      {
        var initialized := exports[e].exports.Some? || exports[e].initializations != 0;
        if initialized && (exports[e].exports.None? || exports[e].initializations != 1) {
          assert !ExportConsistent(exports[e]);
          return false;
        }
        e := e + 1;
      }
      if validated != package.chunks {
        var passed := ScanSlots();
        if !passed {
          return false;
        }
        validated := package.chunks;
      }
      SettledPassesScan(package, State());
      e := 0;
      while e < |pending|
        invariant 0 <= e <= |pending|
        invariant forall k | 0 <= k < e :: pending[k].None?
      {
        if pending[e].Some? {
          return false;
        }
        e := e + 1;
      }
      return true;
    }

    method ScanSlots() returns (passed: bool)
      requires units.Length == MAX_UNIT_SLOTS
      ensures passed <==> FullScan(package, units[..])
    {
      var s := 0;
      while s < MAX_UNIT_SLOTS
        invariant 0 <= s <= MAX_UNIT_SLOTS
        invariant forall k | 0 <= k < s :: PassesScan(package, k, units[..][k])
      {
        var unit := units[s];
        assert units[..][s] == unit;
        var fresh' := unit.state == Uninitialized && !unit.published && unit.namespace.None?;
        if s < package.chunks && unit.state == Initialized {
          if !unit.published || unit.namespace.None? {
            assert !PassesScan(package, s, units[..][s]);
            return false;
          }
        } else if !fresh' {
          assert !PassesScan(package, s, units[..][s]);
          return false;
        }
        s := s + 1;
      }
      return true;
    }

    method Revalidate() returns (valid: bool)
      requires Loading(package, State()) && active == {}
      modifies this`validated
      ensures valid <==> Sound(package, old(State()))
      ensures Loading(package, State()) && State() == old(State()).(validated := validated)
      ensures valid ==> Sound(package, State())
    {
      hide RetainedValid, Loading, Sound, SlotsSound;
      LoadingIsSound(package, State());
      valid := RetainedIsValid();
      ValidIsSound(package, old(State()), validated);
    }

    /** Retires a live runtime that is no longer valid. */
    method RetireIfInvalid()
      requires Loading(package, State()) && active == {}
      modifies this, units
      ensures live <==> Sound(package, old(State()))
      ensures if live then Sound(package, State()) && active == {} else Empty()
      ensures live ==> State() == old(State()).(validated := validated) && FlagsKept()
      ensures !live ==> !boundaryReady && active == {}
      ensures trapped == old(trapped) && guestCallActive == old(guestCallActive)
    {
      hide Loading, Sound;
      LoadingIsSound(package, State());
      var valid := Revalidate();
      if !valid {
        Reset();
      }
    }

    predicate EntryPrepared(entry: int)
      reads this`support, this`exports
    {
      0 <= entry < support.declaredEntries && entry < |exports|
      && exports[entry].exports.Some? && exports[entry].initializations == 1
    }

    /** The entry is prepared, or its chunk and its publication unit can be run without an error. */
    ghost predicate Playable(entry: int)
      reads this`exports, this`pending, this`script, units
    {
      0 <= entry < |exports| && entry < |pending|
      && (exports[entry].exports.Some? || PlayEntry(package, Playing(), entry).Some?)
    }

    ghost function Played(entry: int): Play
      reads this`exports, this`pending, this`script, units
      requires Playable(entry)
    {
      if exports[entry].exports.Some? then Playing() else PlayEntry(package, Playing(), entry).value
    }

    // ----- preparing an entry -----

    method ValidateTopology() returns (ok: bool)
      requires package.SelectionInRange(0) && |exports| == |pending| == package.entries
      requires forall e | 0 <= e < package.entries :: exports[e] == FRESH_EXPORT && pending[e].None?
      requires support.declaredEntries == package.entries && support.declaredUnits == package.units
      ensures ok <==> package.Consistent()
    {
      if package.units < 2 || package.units > MAX_UNIT_SLOTS || package.chunks <= 0
        || package.chunks + package.entries != package.units
      {
        return false;
      }
      var taken: set<int> := {};
      var e := 0;
      while e < package.entries
        invariant 0 <= e <= package.entries
        invariant forall k | 0 <= k < e :: package.EntryFits(k)
        invariant taken == set k | 0 <= k < e :: package.publicationUnit(k)
        invariant forall k, m | 0 <= k < m < e :: package.publicationUnit(k) != package.publicationUnit(m)
      {
        if !package.EntryFits(e) || package.publicationUnit(e) in taken {
          return false;
        }
        taken := taken + {package.publicationUnit(e)};
        e := e + 1;
      }
      return true;
    }

    /** Loads the chunk of an entry and has its publication unit hand it off. */
    method InitializeEntry(entry: int) returns (ok: bool, phase: int)
      requires Sound(package, State()) && 0 <= entry < package.entries && exports[entry] == FRESH_EXPORT
      modifies this, units
      ensures Loading(package, State()) && FlagsKept() && active == {}
      ensures AllAdvance(old(State().slots), State().slots)
      ensures phase == 65 || phase == 66
      ensures !ok ==> dirty
      ensures ok ==>
        && exports == old(exports)[entry := exports[entry]] && exports[entry].initializations == 1
        && exports[entry].exports.Some?
        && Loaded(State().slots, package.entryChunk(entry), exports[entry].exports)
      ensures |pending| == |old(pending)| == package.entries
      ensures old(answers) == [] && old(PlayEntry(package, Playing(), entry)).Some? ==> ok
      ensures Plays(old(PlayEntry(package, Playing(), entry)))
    {
      hide Loading, Sound, Grows, AllAdvance, Loaded, PlayPublication;
      SoundFits(package, State(), entry);
      var threw;
      threw, phase := RunPublication(entry);
      ghost var ran := State();
      LoadingFits(package, ran, entry);
      ok := !threw && pending[entry].Some?;
      if ok {
        HandOff(entry);
      } else {
        FailPublication();
      }
    }

    /** Moves the pending export of an entry in place. */
    method HandOff(entry: int)
      requires Loading(package, State()) && 0 <= entry < package.entries && |pending| == |exports| == package.entries
      requires pending[entry].Some?
      requires active == {package.publicationUnit(entry)} && Runs(runs, package.publicationUnit(entry)) == 1
      modifies this`exports, this`pending, this`active
      ensures Loading(package, State()) && active == {}
      ensures exports == old(exports)[entry := ExportSlot(old(pending)[entry], 1)]
      ensures pending == old(pending)[entry := None]
      ensures Loaded(State().slots, package.entryChunk(entry), exports[entry].exports)
    {
      hide Loading, Loaded;
      HandOffIsSound(package, State(), entry);
      ghost var ran := State();
      exports, pending := exports[entry := ExportSlot(pending[entry], 1)], pending[entry := None];
      active := {};
      assert State() == HandedOff(ran, entry);
    }

    /** Leaves a publication unit that did not hand its entry off. */
    method FailPublication()
      requires Loading(package, State()) && forall s | s in active :: s >= package.chunks
      modifies this`dirty, this`active, this`failures
      ensures Loading(package, State()) && active == {} && dirty
    {
      hide Loading;
      PublicationFailureIsSound(package, State());
      ghost var ran := State();
      active, dirty, failures := {}, true, failures + 1;
      assert State() == PublicationFailed(ran);
    }

    /** Loads the chunk of an entry and runs its publication unit, for the first time. */
    method RunPublication(entry: int) returns (threw: bool, phase: int)
      requires Sound(package, State()) && 0 <= entry < package.entries && exports[entry] == FRESH_EXPORT
      modifies this, units
      ensures Loading(package, State()) && FlagsKept()
      ensures AllAdvance(old(State().slots), State().slots) && exports == old(exports)
      ensures active == {} || active == {package.publicationUnit(entry)}
      ensures !threw ==>
        active == {package.publicationUnit(entry)} && Runs(runs, package.publicationUnit(entry)) == 1
      ensures phase == 65 || phase == 66
      ensures old(answers) == [] && old(PlayPublication(package, Playing(), entry)).Some? ==> !threw
      ensures Plays(old(PlayPublication(package, Playing(), entry)))
    {
      hide Loading, Sound, Grows, AllAdvance, PlayUnit, PlayGuest;
      ghost var start := State();
      SoundFits(package, start, entry);
      SoundMeans(package, start, entry);
      phase := 65;
      var namespace := InitializeUnit(package.entryChunk(entry));
      ghost var loaded := State();
      GrowsMeans(start, loaded);
      PublicationRunsKept(package, start, loaded, entry);
      if namespace.None? {
        return true, phase;
      }
      phase := 66;
      if package.publicationUnit(entry) !in package.factories {
        return true, phase;
      }
      threw := RunPublicationUnit(entry);
      AdvancesTransitively(start.slots, loaded.slots, State().slots);
    }

    method RunPublicationUnit(entry: int) returns (threw: bool)
      requires Loading(package, State()) && 0 <= entry < package.entries && exports[entry].exports.None?
      requires Runs(runs, package.publicationUnit(entry)) == 0 && active == {}
      modifies this, units
      ensures Loading(package, State()) && FlagsKept()
      ensures AllAdvance(old(State().slots), State().slots) && exports == old(exports)
      ensures active == {package.publicationUnit(entry)} && Runs(runs, package.publicationUnit(entry)) == 1
      ensures old(answers) == [] && old(PlayGuest(package, Playing())).Some? ==> !threw
      ensures Plays(old(PlayGuest(package, Playing())))
    {
      hide Loading, Grows, AllAdvance, PlayGuest;
      ghost var loaded := State();
      PublicationIsSound(package, loaded, entry);
      ghost var unit := package.publicationUnit(entry);
      active, runs := active + {unit}, runs[unit := Runs(runs, unit) + 1];
      ghost var begun := State();
      assert begun == PublicationStarted(package, loaded, entry);
      threw := RunGuest();
      GrowsMeans(begun, State());
      PublicationRunsKept(package, begun, State(), entry);
    }

    /** Builds the support of a new runtime; on failure the caller discards everything. */
    method BuildSupport() returns (status: int)
      requires Empty() && package.SelectionInRange(0)
      modifies this
      ensures status != 1 && status != 8
      ensures live && (status == 0 ==> Sound(package, State()) && units[..] == old(units[..]))
      ensures status == 0 ==> State() == Built(package)
      ensures old(answers) == [] && package.Consistent() ==> status == 0
      ensures FlagsKept() && active == {} && script == old(script)
    {
      hide Sound;
      live := true;
      support := support.(declaredEntries := package.entries, declaredUnits := package.units);
      exports := seq(package.entries, _ => FRESH_EXPORT);
      pending := seq(package.entries, _ => None);
      status := BuildPieces();
      if status == 0 {
        BuiltIsSound(package);
        assert State() == Built(package);
      }
    }

    method BuildPieces() returns (status: int)
      requires package.SelectionInRange(0) && |exports| == |pending| == package.entries
      requires forall e | 0 <= e < package.entries :: exports[e] == FRESH_EXPORT && pending[e].None?
      requires support == NO_SUPPORT.(declaredEntries := package.entries, declaredUnits := package.units)
      modifies this`support, this`answers
      ensures status != 1 && status != 8 && |answers| <= |old(answers)|
      ensures false in answers ==> false in old(answers)
      ensures status == 0 ==> support == Ready(package) && package.Consistent()
      ensures old(answers) == [] && package.Consistent() ==> status == 0
    {
      support := support.(compileOutput := true);
      var ok := Ask();
      if !ok { return 40; }
      ok := Ask();
      if !ok { return 41; }
      support := support.(bridgeUnits := support.bridgeUnits + 1);
      if support.bridgeUnits != 1 { return 10; }
      ok := Ask();
      if !ok { return 61; }
      ok := Ask();
      if !ok { return 62; }
      support := support.(formatterUnits := support.formatterUnits + 1);
      if support.formatterUnits != 1 { return 10; }
      ok := Ask();
      if !ok { return 63; }
      if support.bootstrap || support.facade || support.reporter || support.constructors || support.validator {
        return 42;
      }
      support := support.(bootstrap := true, facade := true, reporter := true, constructors := true, validator := true);
      ok := ValidateTopology();
      if !ok { return 42; }
      status := FinishPieces();
    }

    method FinishPieces() returns (status: int)
      requires support.bootstrap
      modifies this`support, this`answers
      ensures status != 1 && status != 8 && |answers| <= |old(answers)|
      ensures false in answers ==> false in old(answers)
      ensures old(answers) == [] ==> status == 0
      ensures status == 0 ==>
        support == old(support).(compileOutput := false, bridge := true, bootstrap := false)
    {
      support := support.(compileOutput := false);
      var ok := Ask();
      if !ok { return 67; }
      support := support.(bridge := true, bootstrap := false);
      ok := Ask();
      if !ok { return 48; }
      return 0;
    }

    /** The work of preparing an entry in a live runtime; any status but 0 asks for a reset. */
    method PrepareLive(entry: int) returns (status: int)
      requires Sound(package, State()) && package.SelectionInRange(entry) && active == {}
      modifies this, units
      ensures FlagsKept()
      ensures status != 8 && status != 1
      ensures status == 0 ==>
        && Sound(package, State()) && active == {} && EntryPrepared(entry)
        && AllAdvance(old(State().slots), State().slots)
        && |exports| == |old(exports)| == package.entries
        && (forall e | 0 <= e < package.entries && e != entry :: exports[e] == old(exports)[e])
      ensures old(EntryPrepared(entry)) && status == 0 ==> State() == old(State()).(validated := validated)
      ensures old(answers) == [] && old(Playable(entry)) ==> status == 0 && Playing() == old(Played(entry))
    {
      hide Loading, Grows, Sound, AllAdvance, Loaded, Playable, Played;
      status := LoadIfMissing(entry);
      if status != 0 { return; }
      var valid := Revalidate();
      if !EntryPrepared(entry) || !valid { return 9; }
      status := Confirm();
    }

    /** The last checks of a preparation: no bindings left behind, no capability, no operation under way. */
    method Confirm() returns (status: int)
      modifies this`answers
      ensures |answers| <= |old(answers)| && (false in answers ==> false in old(answers))
      ensures status != 8 && status != 1
      ensures old(answers) == [] ==> status == 0
    {
      var ok := Ask();
      if !ok { return 9; }
      ok := Ask();
      if !ok { return 68; }
      ok := Ask();
      return if ok then 0 else 69;
    }

    method LoadIfMissing(entry: int) returns (status: int)
      requires Sound(package, State()) && package.SelectionInRange(entry) && active == {}
      modifies this, units
      ensures FlagsKept() && active == {}
      ensures status != 8 && status != 1
      ensures status == 0 ==>
        && Loading(package, State()) && AllAdvance(old(State().slots), State().slots)
        && |exports| == |old(exports)| == package.entries
        && (forall e | 0 <= e < package.entries && e != entry :: exports[e] == old(exports)[e])
      ensures old(EntryPrepared(entry)) && status == 0 ==> State() == old(State()).(validated := validated)
      ensures old(answers) == [] && old(Playable(entry)) ==>
        && status == 0 && answers == [] && Sound(package, State()) && EntryPrepared(entry)
        && Playing() == old(Played(entry))
    {
      hide Loading, Grows, Sound, AllAdvance, Loaded, PlayEntry;
      SoundFits(package, State(), entry);
      NothingGrows(State());
      if exports[entry].exports.Some? { return 0; }
      var ok, phase := InitializeEntry(entry);
      if !ok { return phase; }
      LoadingFits(package, State(), entry);
      if !dirty && pending == old(pending) {
        QuietIsSound(package, State());
      }
      ok := Ask();
      if !ok { return 67; }
      ok := Revalidate();
      return if ok then 0 else 9;
    }

    /**
     * Prepares the selected entry, making a runtime if there is none. Status 8 refuses the selection or
     * the host; status 0 leaves a boundary with a sound runtime that holds the entry; after any other
     * status there is no runtime.
     */
    method PrepareSelectedEntry(entry: int, selectionNamed: bool) returns (status: int)
      requires Boundary()
      modifies this, units
      ensures Boundary()
      ensures status == 0 <==> boundaryReady
      ensures status == 0 ==> live && Prepared(entry)
      ensures status == 0 && old(live) ==> Extends(entry)
      ensures status == 8 ==> State() == old(State())
      ensures status != 0 && status != 8 ==> !live
      ensures !package.SelectionInRange(entry) || !selectionNamed ==> status == 8
      ensures old(live) && old(EntryPrepared(entry)) && status == 0 ==>
        State() == old(State()).(validated := validated)
      ensures old(Preparable(entry, selectionNamed)) ==> status == 0 && Playing() == old(Loadable(entry)).value
    {
      hide Sound, NothingRetained, Loadable;
      var granted := Lease();
      assert granted;
      status := PrepareLeased(entry, selectionNamed);
      boundaryReady := status == 0;
      guestCallActive := false;
    }

    /** A host that says yes to everything, and an entry that is prepared or loads without an error. */
    ghost predicate Preparable(entry: int, selectionNamed: bool)
      reads this`answers, this`live, this`exports, this`pending, this`script, units
    {
      && answers == [] && package.SelectionInRange(entry) && selectionNamed
      && Loadable(entry).Some?
    }

    /** What preparing the entry comes to if it goes without an error, in the runtime there is or in a new one. */
    ghost function Loadable(entry: int): Option<Play>
      reads this`live, this`exports, this`pending, this`script, units
    {
      if !live then
        if package.Consistent() && 0 <= entry < package.entries then
          PlayEntry(package, Play(Built(package).slots, Built(package).pending, script), entry)
        else None
      else if Playable(entry) then Some(Played(entry))
      else None
    }

    /** An entry that is ready to be called exports the namespace of its loaded chunk. */
    ghost predicate Prepared(entry: int)
      reads this, units
    {
      EntryPrepared(entry) && Loaded(State().slots, package.entryChunk(entry), exports[entry].exports)
    }

    /** What was loaded or exported before stays as it was. */
    twostate predicate Extends(entry: int)
      reads this, units
    {
      && AllAdvance(old(State().slots), State().slots)
      && |exports| == |old(exports)|
      && forall e | 0 <= e < |exports| && e != entry :: exports[e] == old(exports)[e]
    }

    method PrepareLeased(entry: int, selectionNamed: bool) returns (status: int)
      requires active == {} && !boundaryReady && (if live then Sound(package, State()) else Empty())
      modifies this, units
      ensures active == {} && (if live then Sound(package, State()) else Empty())
      ensures trapped == old(trapped) && guestCallActive == old(guestCallActive)
      ensures status == 0 ==> live && Prepared(entry)
      ensures status == 0 && old(live) ==> Extends(entry)
      ensures status == 8 ==> State() == old(State())
      ensures status != 0 && status != 8 ==> !live
      ensures !package.SelectionInRange(entry) || !selectionNamed ==> status == 8
      ensures old(live) && old(EntryPrepared(entry)) && status == 0 ==>
        State() == old(State()).(validated := validated)
      ensures old(Preparable(entry, selectionNamed)) ==> status == 0 && Playing() == old(Loadable(entry)).value
    {
      hide Sound, AllAdvance, Loaded, PlayEntry;
      if !package.SelectionInRange(entry) || !selectionNamed {
        return 8;
      }
      if !live {
        status := CreateRuntime();
        if !live {
          return;
        }
      } else {
        SoundFits(package, State(), entry);
        var valid := Revalidate();
        status := if valid then 0 else 9;
      }
      if status == 0 {
        status := PrepareLive(entry);
      }
      if status != 0 {
        Reset();
        return;
      }
      PreparedIsLoaded(package, State(), entry);
    }

    /** Nothing has happened in this runtime yet; what is retained is still to be checked. */
    ghost predicate Unused()
      reads this, units
    {
      && !invocationStarted && !imagePrepared && units.Length == MAX_UNIT_SLOTS
      && !live && validated == 0 && active == {} && runs == map[] && failures == 0
    }

    /** Makes a runtime with complete support; the caller discards it if the status is not 0. */
    method CreateRuntime() returns (status: int)
      requires Unused() && package.SelectionInRange(0)
      modifies this, units
      ensures active == {} && trapped == old(trapped) && guestCallActive == old(guestCallActive)
      ensures status == 0 ==> live && Sound(package, State())
      ensures old(answers) == [] && old(Empty()) && package.Consistent() ==>
        && status == 0 && answers == [] && script == old(script)
        && units[..] == Built(package).slots && pending == Built(package).pending && |exports| == package.entries
      ensures live ==> status != 8 && status != 1
      ensures !live ==> status != 0 && if status == 8 then State() == old(State()) && FlagsKept() else Empty()
    {
      hide Sound;
      var typed := Ask();
      if !typed {
        return 8;
      }
      var empty := RetainedIsEmpty();
      if !empty {
        Reset();
        return 9;
      }
      var created := Ask();
      if !created {
        return 1;
      }
      status := BuildSupport();
    }

    /**
     * Preparing an entry of well-behaved chunks, which may import each other in cycles, never fails. It loads
     * exactly those chunks that the entry's chunk reaches by imports and that were not loaded.
     */
    method PrepareWellBehaved(entry: int, modules: Modules) returns (status: int)
      requires Boundary() && package.SelectionInRange(entry)
      requires if live then exports[entry].exports.None? else package.Consistent()
      requires modules.Fit(package) && Closed(package, modules, units[..])
      requires package.publicationUnit(entry) in package.factories
      modifies this, units
      ensures Boundary() && status == 0 && boundaryReady && live && Prepared(entry)
      ensures Closed(package, modules, units[..])
      ensures forall s | 0 <= s < MAX_UNIT_SLOTS ::
                units[..][s] ==
                if old(units[..])[s].state == Uninitialized && s < package.chunks
                   && Reachable(modules, package.entryChunk(entry), s)
                then UnitSlot(Some(modules.name(s)), Initialized, true) else old(units[..])[s]
    {
      hide Sound, NothingRetained, Loading, Closed, Reachable, Transcript, PlayEntry, Modules.Fit;
      ghost var before := units[..];
      ghost var nothing := if live then pending else Built(package).pending;
      if live {
        SoundFits(package, State(), entry);
        LoadingFits(package, State(), entry);
        SoundIsSettled(package, State());
      } else {
        EmptyIsBuilt(package, State());
      }
      assert package.EntryFits(entry);
      var chunk := package.entryChunk(entry);
      var (steps, after) := Transcript(package, modules, units[..], chunk);
      script, answers := steps + Publication(package, entry, after[chunk].namespace), [];
      assert script + [] == script;
      EntryPlays(package, modules, before, entry, nothing, []);
      LoadsWhatIsReachable(package, modules, before, chunk);
      status := PrepareSelectedEntry(entry, true);
    }

    // ----- running the selected entry -----

    /** A stretch of guest code and then one outcome of the host; no is a failure. */
    method GuestThenHost(ghost start: LoadState) returns (ok: bool)
      requires Loading(package, State()) && Grows(start, State())
      modifies this, units
      ensures Loading(package, State()) && Grows(start, State()) && FlagsKept()
      ensures old(answers) == [] && old(PlayGuest(package, Playing())).Some? ==> ok
      ensures Plays(old(PlayGuest(package, Playing())))
    {
      hide Loading, Grows, PlayGuest;
      ghost var here := State();
      var threw := RunGuest();
      GrowsTransitively(start, here, State());
      if threw {
        return false;
      }
      ok := Ask();
    }

    /** Settles the completions of one host batch. */
    method SettleBatch(ghost start: LoadState) returns (failed: Option<int>)
      requires Loading(package, State()) && Grows(start, State())
      modifies this, units
      ensures Loading(package, State()) && Grows(start, State()) && FlagsKept()
    {
      hide Loading, Grows, State;
      var ok := GuestThenHost(start);
      if !ok {
        return Some(56);
      }
      var idle := Ask();
      while !idle
        invariant Loading(package, State()) && Grows(start, State()) && FlagsKept()
        decreases |answers|, !idle
      {
        ok := Ask();
        if !ok {
          return Some(3);
        }
        ok := GuestThenHost(start);
        if !ok {
          return Some(56);
        }
        idle := Ask();
      }
      return None;
    }

    /** Activates the SDK, invokes the handler and drives it until it is done. */
    method InvokeHandler(ghost start: LoadState) returns (failed: Option<int>, activated: bool)
      requires Loading(package, State()) && Grows(start, State())
      modifies this, units
      ensures Loading(package, State()) && Grows(start, State()) && FlagsKept()
      ensures old(answers) == [] && old(PlayGuests(package, Playing(), 6)).Some? ==> failed.None?
      ensures Plays(old(PlayGuests(package, Playing(), 6)))
    {
      hide Loading, Grows, State, PlayGuest;
      var ok := GuestThenHost(start);
      if !ok {
        return Some(64), false;
      }
      ok := GuestThenHost(start);
      if !ok {
        return Some(51), true;
      }
      ok := GuestThenHost(start);
      if !ok {
        return Some(52), true;
      }
      ok := GuestThenHost(start);
      if !ok {
        return Some(53), true;
      }
      failed := Drive(start);
      activated := true;
    }

    /** The event loop: drain microtasks, then settle operations until the invocation is done. */
    method Drive(ghost start: LoadState) returns (failed: Option<int>)
      requires Loading(package, State()) && Grows(start, State())
      modifies this, units
      ensures Loading(package, State()) && Grows(start, State()) && FlagsKept()
      ensures old(answers) == [] && old(PlayGuests(package, Playing(), 2)).Some? ==> failed.None?
      ensures Plays(old(PlayGuests(package, Playing(), 2)))
    {
      hide Loading, Grows, State, PlayGuest;
      var ok := GuestThenHost(start);
      if !ok {
        return Some(2);
      }
      var threw, done := IsDone(start);
      if threw {
        return Some(55);
      }
      while !done
        invariant Loading(package, State()) && Grows(start, State()) && FlagsKept()
        invariant old(answers) == [] && old(PlayGuests(package, Playing(), 2)).Some? ==> done
        invariant Plays(old(PlayGuests(package, Playing(), 2)))
        decreases |answers|, !done
      {
        ok := Ask();
        if !ok {
          return Some(3);
        }
        failed := SettleBatch(start);
        if failed.Some? {
          return;
        }
        ok := GuestThenHost(start);
        if !ok {
          return Some(2);
        }
        threw, done := IsDone(start);
        if threw {
          return Some(55);
        }
      }
      return None;
    }

    /** The bridge's own answer to whether the invocation is done; yes once the host has no more to say. */
    method IsDone(ghost start: LoadState) returns (threw: bool, done: bool)
      requires Loading(package, State()) && Grows(start, State())
      modifies this, units
      ensures Loading(package, State()) && Grows(start, State()) && FlagsKept()
      ensures done || |answers| < |old(answers)|
      ensures old(answers) == [] && old(PlayGuest(package, Playing())).Some? ==> !threw && done
      ensures Plays(old(PlayGuest(package, Playing())))
    {
      hide Loading, Grows, PlayGuest;
      ghost var here := State();
      threw := RunGuest();
      GrowsTransitively(start, here, State());
      done := Ask();
    }

    /**
     * Runs the selected entry. Whatever the guest does, what is left is a sound runtime or none; a
     * loader error, even one the guest swallowed, leaves none.
     */
    method Run(entry: int, selectionNamed: bool, invocationStatus: int) returns (status: int)
      requires Boundary()
      modifies this, units
      ensures Boundary()
      ensures boundaryReady ==> status == 0 && live && old(live) && old(Prepared(entry))
      ensures live ==> old(live) && AllAdvance(old(State().slots), State().slots) && exports == old(exports)
      ensures !package.SelectionInRange(entry) || !selectionNamed ==> status == 8 && State() == old(State())
      ensures package.SelectionInRange(entry) && selectionNamed && old(Runnable(entry)) ==>
        status == invocationStatus && live && (boundaryReady <==> invocationStatus == 0)
    {
      hide Sound, NothingRetained, Loading, Grows, AllAdvance, Runnable;
      var granted := Lease();
      assert granted;
      NothingGrows(State());
      if !package.SelectionInRange(entry) || !selectionNamed {
        guestCallActive := false;
        return 8;
      }
      status := RunLeased(entry, invocationStatus);
      guestCallActive := false;
    }

    /**
     * A prepared entry, a host that says yes to everything, and a guest whose eight activations during an
     * invocation go without an error and leave nothing pending.
     */
    ghost predicate Runnable(entry: int)
      reads this`answers, this`live, this`support, this`exports, this`pending, this`script, units
    {
      var r := PlayGuests(package, Playing(), 8);
      && live && EntryPrepared(entry) && answers == []
      && r.Some? && forall e | 0 <= e < |r.value.pending| :: r.value.pending[e].None?
    }

    method RunLeased(entry: int, invocationStatus: int) returns (status: int)
      requires package.SelectionInRange(entry)
      requires active == {} && !boundaryReady && (if live then Sound(package, State()) else Empty())
      modifies this, units
      ensures active == {} && (if live then Sound(package, State()) else Empty())
      ensures trapped == old(trapped) && guestCallActive == old(guestCallActive)
      ensures boundaryReady ==> status == 0 && live && old(live) && old(Prepared(entry))
      ensures live ==> old(live) && AllAdvance(old(State().slots), State().slots) && exports == old(exports)
      ensures old(Runnable(entry)) ==>
        status == invocationStatus && live && (boundaryReady <==> invocationStatus == 0)
    {
      hide Sound, NothingRetained, Loading, Grows, AllAdvance, Loaded, PlayGuests;
      if !live {
        return 9;
      }
      ghost var start := State();
      SoundFits(package, start, entry);
      var valid := Revalidate();
      if !valid || !EntryPrepared(entry) {
        Reset();
        return 9;
      }
      PreparedIsLoaded(package, start, entry);
      SoundFits(package, State(), entry);
      invocationStarted := true;
      var capable := Ask();
      if !capable {
        NothingGrows(start);
        return 7;
      }
      ghost var before := State();
      NothingGrows(before);
      PlayGuestsInTurn(package, Playing(), 6, 2);
      var failed, activated := InvokeHandler(before);
      ghost var ran := State();
      GrowsMeans(before, ran);
      if failed.None? {
        failed, activated, status := CleanUp(before, invocationStatus);
        if failed.None? {
          return;
        }
      }
      status := Abandon(before, failed.value, activated);
    }

    /** Some more activations of guest code go without an error and leave nothing pending. */
    ghost predicate Finishing(count: nat)
      reads this`answers, this`dirty, this`pending, this`script, units
    {
      var r := PlayGuests(package, Playing(), count);
      answers == [] && !dirty && r.Some? && forall e | 0 <= e < |r.value.pending| :: r.value.pending[e].None?
    }

    /**
     * After a handler that finished: its cleanup, the abandoned operations and its status. The invocation
     * stays activated only if its own cleanup failed.
     */
    method CleanUp(ghost before: LoadState, invocationStatus: int)
      returns (failed: Option<int>, activated: bool, status: int)
      requires Loading(package, State()) && Grows(before, State()) && active == {} && !boundaryReady
      modifies this, units
      ensures trapped == old(trapped) && guestCallActive == old(guestCallActive)
      ensures failed.Some? ==> Loading(package, State()) && Grows(before, State()) && active == {} && !boundaryReady
      ensures failed.Some? ==> activated == (failed == Some(58))
      ensures failed.None? ==> Retained(before, status)
      ensures old(Finishing(2)) ==>
        failed.None? && status == invocationStatus && live && (boundaryReady <==> invocationStatus == 0)
    {
      hide Sound, NothingRetained, Loading, Grows, AllAdvance, PlayGuest;
      GrowsMeans(before, State());
      status := 0;
      var ok := GuestThenHost(before);
      GrowsMeans(before, State());
      if !ok {
        return Some(58), true, status;
      }
      var matches := Ask();
      if !matches {
        GrowsMeans(before, State());
        RetireIfInvalid();
        return None, false, 6;
      }
      activated := false;
      failed := ReadStatus(before, invocationStatus);
      status := invocationStatus;
    }

    /** Reads the status of the invocation; the boundary is ready again if it succeeded and nothing is wrong. */
    method ReadStatus(ghost before: LoadState, invocationStatus: int) returns (failed: Option<int>)
      requires Loading(package, State()) && Grows(before, State()) && active == {} && !boundaryReady
      modifies this, units
      ensures trapped == old(trapped) && guestCallActive == old(guestCallActive)
      ensures failed.Some? ==> Loading(package, State()) && Grows(before, State()) && active == {} && !boundaryReady
      ensures failed.Some? ==> failed == Some(60)
      ensures failed.None? ==> Retained(before, invocationStatus)
      ensures old(Finishing(1)) ==> failed.None? && live && (boundaryReady <==> invocationStatus == 0)
    {
      hide Sound, NothingRetained, Loading, Grows, AllAdvance, PlayGuest;
      GrowsMeans(before, State());
      var ok := GuestThenHost(before);
      GrowsMeans(before, State());
      if !ok {
        return Some(60);
      }
      if !dirty && forall e | 0 <= e < |pending| :: pending[e].None? {
        QuietIsSound(package, State());
      }
      RetireIfInvalid();
      boundaryReady := invocationStatus == 0 && live;
      return None;
    }

    /** What an invocation may leave behind. */
    ghost predicate Retained(before: LoadState, status: int)
      reads this, units
    {
      && active == {} && (if live then Sound(package, State()) else Empty())
      && (boundaryReady ==> status == 0 && live)
      && (live ==> AllAdvance(before.slots, State().slots) && exports == before.exports)
    }

    /** After a failure: a last cleanup if the SDK was activated, and retirement if anything is wrong. */
    method Abandon(ghost before: LoadState, failure: int, activated: bool) returns (status: int)
      requires Loading(package, State()) && Grows(before, State()) && active == {} && !boundaryReady
      modifies this, units
      ensures trapped == old(trapped) && guestCallActive == old(guestCallActive) && !boundaryReady
      ensures active == {} && (if live then Sound(package, State()) else Empty())
      ensures live ==> AllAdvance(before.slots, State().slots) && exports == before.exports
    {
      hide Sound, NothingRetained, Loading, Grows, AllAdvance;
      GrowsMeans(before, State());
      LoadingIsSound(package, State());
      if activated && support.bridge {
        var ok := GuestThenHost(before);
        GrowsMeans(before, State());
        if !ok {
          Reset();
          return 58;
        }
        var matches := Ask();
        if !matches {
          Reset();
          return 6;
        }
      }
      GrowsMeans(before, State());
      RetireIfInvalid();
      return failure;
    }

    // ----- maintenance -----

    /** A ready boundary, a known operation with a fitting argument, and an image that is or can be certified. */
    ghost predicate Maintainable(operation: nat, argument: nat)
      reads this
    {
      && boundaryReady && operation <= 6 && (operation == 5 ==> argument != 0)
      && (operation != 1 && operation != 3 && operation != 5 ==> argument == 0)
      && if operation == 0 then !invocationStarted && forall e | 0 <= e < package.entries :: EntryPrepared(e)
         else imagePrepared
    }

    /**
     * Memory maintenance. It needs a ready boundary, and traps otherwise; a trap ends the store. The
     * collector's own outcomes lie with the engine.
     */
    method MemoryMaintenance(operation: nat, argument: nat)
      requires Boundary()
      modifies this
      ensures !trapped ==> Boundary() && boundaryReady && live && old(boundaryReady) && State() == old(State())
      ensures !trapped ==> operation <= 6 && (operation == 5 ==> argument != 0)
      ensures !trapped && operation != 1 && operation != 3 && operation != 5 ==> argument == 0
      ensures !trapped ==> imagePrepared && invocationStarted == old(invocationStarted)
      ensures !trapped && operation == 0 ==>
        !invocationStarted && forall e | 0 <= e < package.entries :: EntryPrepared(e)
      ensures !trapped && operation != 0 ==> old(imagePrepared)
      ensures old(answers) == [] && old(Maintainable(operation, argument)) ==> !trapped
    {
      hide Sound, NothingRetained;
      var ready := boundaryReady;
      var granted := Lease();
      assert granted;
      if !ready || !live || operation > 6 || (operation == 5 && argument == 0)
        || (operation != 1 && operation != 3 && operation != 5 && argument != 0)
      {
        trapped := true;
        return;
      }
      DeclaredIsPackage(package, State());
      if operation == 0 {
        var prepared := PrepareImage();
        if !prepared {
          trapped := true;
          return;
        }
      } else if !imagePrepared {
        trapped := true;
        return;
      }
      var collected := Ask();
      if !collected {
        trapped := true;
        return;
      }
      boundaryReady, guestCallActive := true, false;
    }

    /** Certifies the image, once, before any invocation and with every entry prepared. */
    method PrepareImage() returns (ok: bool)
      modifies this`answers, this`imagePrepared
      ensures ok ==>
        && imagePrepared && !invocationStarted
        && forall e | 0 <= e < support.declaredEntries :: EntryPrepared(e)
      ensures old(answers) == [] ==>
        && answers == []
        && (!invocationStarted && (forall e | 0 <= e < support.declaredEntries :: EntryPrepared(e)) ==> ok)
    {
      var quiet := Ask();
      if invocationStarted || !quiet {
        return false;
      }
      var e := 0;
      while e < support.declaredEntries
        invariant 0 <= e
        invariant forall k | 0 <= k < e :: EntryPrepared(k)
      {
        if !EntryPrepared(e) {
          return false;
        }
        e := e + 1;
      }
      if !imagePrepared {
        var prepared := Ask();
        if !prepared {
          return false;
        }
        imagePrepared := true;
      }
      return true;
    }

    method DestroyRuntime()
      requires Boundary()
      modifies this, units
      ensures Boundary() && !live
    {
      hide Sound;
      var granted := Lease();
      assert granted;
      BoundaryHasSlots(package, State());
      Reset();
      guestCallActive := false;
    }

    /** Any run: top-level calls one after another, each with its own guest and host, until a trap. */
    method Session(calls: seq<Call>)
      requires Boundary()
      modifies this, units
      ensures trapped || Boundary()
    {
      hide Sound, NothingRetained;
      var i := 0;
      while i < |calls| && !trapped
        invariant 0 <= i <= |calls|
        invariant trapped || Boundary()
      {
        script, answers := calls[i].script, calls[i].answers;
        match calls[i] {
          case Prepare(entry, named, _, _) =>
            var _ := PrepareSelectedEntry(entry, named);
          case Invoke(entry, named, invocationStatus, _, _) =>
            var _ := Run(entry, named, invocationStatus);
          case Maintain(operation, argument, _, _) =>
            MemoryMaintenance(operation, argument);
          case Destroy(_, _) =>
            DestroyRuntime();
        }
        i := i + 1;
      }
    }
  }
}
