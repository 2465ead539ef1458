/**
 * What loading does when nothing goes wrong: a partial semantics of guest code, defined only on runs
 * without an error.
 */
module ErrorFree {
  import opened Options
  import opened LifecycleSpec

  /** The slots, the pending exports and what guest code will do. */
  datatype Play = Play(slots: seq<UnitSlot>, pending: seq<Option<Namespace>>, script: seq<GuestStep>)

  /** Initializing a unit. A unit whose loading has begun is not loaded again: this is how cycles end. */
  ghost function PlayUnit(p: Package, a: Play, s: int): (r: Option<Play>)
    ensures r.Some? ==> |r.value.slots| == |a.slots| && |r.value.pending| == |a.pending|
    ensures r.Some? ==> Unloaded(r.value.slots) <= Unloaded(a.slots) && |r.value.script| <= |a.script|
    decreases Unloaded(a.slots), |a.script|, 2
  {
    if !(0 <= s < p.chunks && s < |a.slots|) then None
    else
      match a.slots[s].state
      case Initialized => Some(a)
      case Initializing => if a.slots[s].namespace.Some? then Some(a) else None
      case Uninitialized =>
        if s !in p.factories then None
        else
          var begun := a.(slots := a.slots[s := a.slots[s].(state := Initializing)]);
          assert s in Unloaded(a.slots) && s !in Unloaded(begun.slots);
          var r := PlayGuest(p, begun);
          if r.None? || !r.value.slots[s].published || r.value.slots[s].namespace.None? then None
          else Some(r.value.(slots := r.value.slots[s := r.value.slots[s].(state := Initialized)]))
  }

  lemma PlayUnitUnfolds(p: Package, a: Play, s: int)
    requires 0 <= s < p.chunks && s < |a.slots| && a.slots[s].state == Uninitialized && s in p.factories
    ensures var r := PlayGuest(p, a.(slots := a.slots[s := a.slots[s].(state := Initializing)]));
            PlayUnit(p, a, s) ==
            if r.None? || !r.value.slots[s].published || r.value.slots[s].namespace.None? then None
            else Some(r.value.(slots := r.value.slots[s := r.value.slots[s].(state := Initialized)]))
  {
  }

  /** One loader callback. */
  ghost function PlayStep(p: Package, a: Play, step: GuestStep): (r: Option<Play>)
    requires step != Throw && step != Return
    ensures r.Some? ==> |r.value.slots| == |a.slots| && |r.value.pending| == |a.pending|
    ensures r.Some? ==> Unloaded(r.value.slots) <= Unloaded(a.slots) && |r.value.script| <= |a.script|
    decreases Unloaded(a.slots), |a.script|, 3
  {
    match step
    case Require(s, _) => PlayUnit(p, a, s)
    case Begin(s, namespace, _) =>
      if 0 <= s < p.chunks && s < |a.slots| && a.slots[s].state == Initializing && !a.slots[s].published
         && namespace.Some?
      then Some(a.(slots := a.slots[s := UnitSlot(namespace, Initializing, false)]))
      else None
    case Publish(s, namespace, _) =>
      if 0 <= s < p.chunks && s < |a.slots| && a.slots[s] == UnitSlot(namespace, Initializing, false)
         && namespace.Some?
      then Some(a.(slots := a.slots[s := UnitSlot(namespace, Initializing, true)]))
      else None
    case ReadEntry(e, requested, _) =>
      if 0 <= e < p.entries && requested == p.entryChunk(e) && 0 <= requested < |a.slots|
         && a.slots[requested].state == Initialized
      then Some(a)
      else None
    case PublishEntry(e, handoff, namespace, _) =>
      if 0 <= e == handoff < p.entries && e < |a.pending| && a.pending[e].None?
         && namespace.Some? && 0 <= p.entryChunk(e) < |a.slots|
         && a.slots[p.entryChunk(e)].state == Initialized && a.slots[p.entryChunk(e)].namespace == namespace
      then Some(a.(pending := a.pending[e := namespace]))
      else None
  }

  /** Guest code up to the end of its activation. */
  ghost function PlayGuest(p: Package, a: Play): (r: Option<Play>)
    ensures r.Some? ==> |r.value.slots| == |a.slots| && |r.value.pending| == |a.pending|
    ensures r.Some? ==> Unloaded(r.value.slots) <= Unloaded(a.slots) && |r.value.script| <= |a.script|
    decreases Unloaded(a.slots), |a.script|, 0
  {
    if a.script == [] then Some(a)
    else
      var rest := a.(script := a.script[1..]);
      match a.script[0]
      case Return => Some(rest)
      case Throw => None
      case step =>
        var r := PlayStep(p, rest, step);
        if r.None? then None else PlayGuest(p, r.value)
  }

  /** Several activations of guest code one after another. */
  ghost function PlayGuests(p: Package, a: Play, count: nat): Option<Play>
    decreases count
  {
    if count == 0 then Some(a)
    else
      var r := PlayGuest(p, a);
      if r.None? then None else PlayGuests(p, r.value, count - 1)
  }

  lemma {:induction false} PlayGuestsInTurn(p: Package, a: Play, m: nat, n: nat)
    ensures var r := PlayGuests(p, a, m);
            PlayGuests(p, a, m + n) == if r.None? then None else PlayGuests(p, r.value, n)
    decreases m
  {
    hide PlayGuest;
    if m > 0 {
      var r := PlayGuest(p, a);
      if r.Some? {
        PlayGuestsInTurn(p, r.value, m - 1, n);
      }
    }
  }

  /** Loading the chunk of an entry, then running its publication unit. */
  ghost function PlayPublication(p: Package, a: Play, entry: int): Option<Play> {
    var r := PlayUnit(p, a, p.entryChunk(entry));
    if r.None? || p.publicationUnit(entry) !in p.factories then None else PlayGuest(p, r.value)
  }

  /** The publication unit hands off its own entry and no other. */
  ghost function PlayEntry(p: Package, a: Play, entry: int): (r: Option<Play>)
    requires 0 <= entry < |a.pending|
    ensures r.Some? && a.pending[entry].None? ==> r.value.pending == a.pending
  {
    var r := PlayPublication(p, a, entry);
    if r.None? || |r.value.pending| != |a.pending| || r.value.pending[entry].None?
       || r.value.pending != a.pending[entry := r.value.pending[entry]]
    then None
    else Some(r.value.(pending := r.value.pending[entry := None]))
  }

  /** After loading without an error nothing is left half loaded. */
  lemma QuietIsSound(p: Package, st: LoadState)
    requires Loading(p, st) && !st.dirty && st.active == {} && forall e | 0 <= e < |st.pending| :: st.pending[e].None?
    ensures Sound(p, st)
  {
    forall s | 0 <= s < MAX_UNIT_SLOTS
      ensures Settled(st.slots[s])
    {
      assert SlotSound(p, st, s, st.slots[s]);
    }
  }
}
