/**
 The coordinator object: it owns the lifecycle engine and the ordered engine and
 drives them in sequence. Its methods are proved against `CoordinatorModel` and
 `CoordinatorRuns`.
 */
module Coordinator {
  import opened Wrappers
  import opened HaTypes
  import opened HaLifecycle
  import opened HaPersist
  import opened HaManifest
  import opened HaEngine
  import opened GlobalCompletion
  import opened OrderedModel
  import Spec = CoordinatorModel
  import Runs = CoordinatorRuns

  /** The ordered engine: its state in memory and as stored. */
  class OrderedEngine {
    var contract: Contract
    var available: set<Reference>
    var finalized: seq<Reference>
    var applied: nat
    var stored: Ordered
    var failed: bool

    constructor (stored: Ordered)
      ensures View() == this.stored == stored && !failed
    {
      contract, available, finalized, applied := stored.contract, stored.available, stored.finalized, stored.applied;
      this.stored, failed := stored, false;
    }

    ghost function View(): Ordered
      reads this
    {
      Ordered(contract, available, finalized, applied)
    }

    ghost predicate Valid()
      reads this
    {
      Sound(View()) && Sound(stored) && (!failed ==> stored == View())
    }

    /** Stores a new contract, then takes it over. */
    method ActivateContract(to: Contract, fate: PersistFate) returns (ok: bool)
      requires Valid()
      modifies this
      ensures Valid()
      ensures ok <==> AcceptsContract(old(View()), to) && !old(failed) && fate.Persisted?
      ensures View() == if ok then old(View()).(contract := to) else old(View())
      ensures old(failed) || !AcceptsContract(old(View()), to) ==> unchanged(this)
      ensures !old(failed) && AcceptsContract(old(View()), to) ==>
                && failed == !fate.Persisted?
                && stored == if fate.NotStored? then old(stored) else old(View()).(contract := to)
    {
      if !ValidContract(to) || available != {} || applied != |finalized| {
        return false;
      }
      if to.route < contract.route || to.spec < contract.spec || to == contract {
        return false;
      }
      if failed {
        return false;
      }
      if !fate.NotStored? {
        stored := stored.(contract := to);
      }
      if !fate.Persisted? {
        failed := true;
        return false;
      }
      contract := to;
      return true;
    }

    /** Applies the next finalized reference and stores the result. */
    method ApplyContiguous(fate: PersistFate) returns (ok: bool)
      requires Valid() && applied < |finalized|
      modifies this
      ensures Valid() && ok == (!old(failed) && fate.Persisted?)
      ensures View() == if ok then ApplyNext(old(View())) else old(View())
      ensures failed == (old(failed) || !fate.Persisted?)
      ensures stored == if old(failed) || fate.NotStored? then old(stored) else ApplyNext(old(View()))
    {
      ApplyAdvances(View());
      if failed {
        return false;
      }
      if !fate.NotStored? {
        stored := ApplyNext(stored);
      }
      if !fate.Persisted? {
        failed := true;
        return false;
      }
      available, applied := available - {finalized[applied]}, applied + 1;
      return true;
    }

    /** Drives application until the reference is applied, the attempts are used
        up or something fails. */
    method CompleteWrite(reference: Reference, script: seq<Attempt>) returns (outcome: WriteOutcome)
      requires Valid()
      modifies this
      ensures Valid()
      ensures Driven(View(), stored, failed, outcome)
           == Drive(old(View()), old(stored), old(failed), reference, script)
    {
      hide Sound, IsApplied;
      var i := 0;
      while true
        invariant 0 <= i <= |script| && Valid()
        invariant Drive(View(), stored, failed, reference, script[i..])
               == Drive(old(View()), old(stored), old(failed), reference, script)
        decreases |script| - i
      {
        if IsApplied(Ordered(contract, available, finalized, applied), reference) {
          return Reached;
        }
        if i == |script| || reference !in finalized {
          return TimedOut;
        }
        assert script[i..][0] == script[i] && script[i..][1..] == script[i + 1..];
        match script[i] {
          case BatchMissing =>
          case ApplicationFailed => return WriteFailed;
          case Applies(fate) =>
            SomethingToApply(View(), reference);
            var ok := ApplyContiguous(fate);
            if !ok {
              return WriteFailed;
            }
        }
        i := i + 1;
      }
    }
  }

  /** A finalized reference that is not applied leaves one to apply. */
  lemma {:induction false} SomethingToApply(o: Ordered, r: Reference)
    requires Sound(o) && r in o.finalized && !IsApplied(o, r)
    ensures o.applied < |o.finalized|
  {
  }

  /** How far an activation gets with these durable outcomes. */
  function ProgressOf(ordered: PersistFate, lifecycle: PersistFate): Spec.Progress {
    if ordered.NotStored? then Spec.Nothing
    else if ordered.StoredButFailed? || lifecycle.NotStored? then Spec.OrderedOnly
    else Spec.Both
  }

  class Coordinator {
    const lifecycle: Engine
    const ordered: OrderedEngine

    constructor (lifecycle: Engine, ordered: OrderedEngine)
      ensures this.lifecycle == lifecycle && this.ordered == ordered
    {
      this.lifecycle, this.ordered := lifecycle, ordered;
    }

    ghost predicate Valid()
      reads this, lifecycle, ordered
    {
      lifecycle.Valid() && ordered.Valid()
    }

    ghost predicate Healthy()
      reads this, lifecycle, ordered
    {
      !lifecycle.failed && !ordered.failed
    }

    ghost function View(): Spec.Stores
      reads this, lifecycle, ordered
    {
      Spec.Stores(lifecycle.View(), ordered.View())
    }

    /** What a crash at this point leaves behind. */
    ghost function Durable(): Spec.Stores
      reads this, lifecycle, ordered
    {
      Spec.Stores(lifecycle.layout.state, ordered.stored)
    }

    /** Moves the ordered store, then the lifecycle. Whatever fails, the durable
        stores are those of an activation that got just that far. */
    method ActivateApplicationCutover(m: Manifest, now: Membership, orderedFate: PersistFate, fate: PersistFate)
      returns (ok: bool)
      requires Valid()
      modifies lifecycle, ordered
      ensures Valid()
      ensures var progress := ProgressOf(orderedFate, fate);
              old(Healthy()) ==>
                Durable() == Spec.AfterActivation(lifecycle.hc.hashes, old(View()), m, now, progress)
      ensures ok ==> View() == Durable() && Spec.StoresAgree(View())
      ensures ok <==> && Spec.MatchesSource(old(View()), m) && AcceptsContract(old(ordered.View()), m.cutover.to)
                      && ActivateCutover(lifecycle.hc.hashes, old(lifecycle.View()), m, now).Some?
                      && old(Healthy()) && orderedFate.Persisted? && fate.Persisted?
    {
      hide Inv, Holds, Counted, ActivateCutover, Sound;
      if lifecycle.cutover != Some(m.cutover) || ordered.contract != m.cutover.from {
        return false;
      }
      var moved := ordered.ActivateContract(m.cutover.to, orderedFate);
      if !moved {
        return false;
      }
      ok := lifecycle.Activate(m, now, fate);
      ActivatedContract(lifecycle.hc.hashes, old(lifecycle.View()), m, now);
    }

    /** Repairs an interrupted cutover from the lifecycle's own manifest. */
    method Reconcile(now: Membership, fate: PersistFate) returns (ok: bool)
      requires Valid()
      modifies lifecycle
      ensures Valid()
      ensures var spec := Spec.Reconcile(lifecycle.hc.hashes, old(View()), now);
              && (if ok then spec.Some? && View() == spec.value else View() == old(View()))
              && (spec.Some? && !old(lifecycle.failed) && fate.Persisted? ==> ok)
              && (old(Healthy()) ==>
                    Durable() == if spec.Some? && !fate.NotStored? then spec.value else old(Durable()))
    {
      hide Inv, Holds, Counted, ActivateCutover, IsManifestOf, ValidManifest, OwnManifest, Sound;
      if ordered.contract == lifecycle.contract {
        return true;
      }
      if lifecycle.cutover.None? || ordered.contract != lifecycle.cutover.value.to {
        return false;
      }
      var manifest := CutoverManifest(lifecycle.hc.hashes, Lifecycle(lifecycle.contract, lifecycle.writes,
                                                                     lifecycle.cutover));
      if manifest.None? {
        return false;
      }
      ok := lifecycle.Activate(manifest.value, now, fate);
      ActivatedContract(lifecycle.hc.hashes, old(lifecycle.View()), manifest.value, now);
    }

    /** Cancels while the ordered engine is still on the source contract. */
    method CancelApplicationCutover(fate: PersistFate) returns (ok: bool)
      requires Valid()
      modifies lifecycle
      ensures Valid()
      ensures var spec := Spec.CancelCoordinated(old(View()));
              && (if ok then spec.Some? && View() == spec.value else View() == old(View()))
              && (spec.Some? && !old(lifecycle.failed) && fate.Persisted? ==> ok)
    {
      hide Inv, Holds, Counted, Sound;
      if ordered.contract != lifecycle.contract {
        return false;
      }
      ok := lifecycle.Cancel(fate);
    }

    /** Drives a batch to the applied milestone, then releases its writes. */
    method CompleteGloballyApplied(q: Runs.Request, script: seq<Attempt>, fate: PersistFate)
      returns (r: Result<WriteOutcome>)
      requires Valid()
      modifies lifecycle, ordered
      ensures Valid()
      ensures var d := Drive(old(ordered.View()), old(ordered.stored), old(ordered.failed), q.reference, script);
              && (r.Ok? <==> Runs.Succeeds(lifecycle.hc.hashes, old(View()), q, d.outcome,
                                           !old(lifecycle.failed) && fate.Persisted?))
              && (r.Ok? ==>
                    r.value == if Runs.Proceeds(lifecycle.hc.hashes, old(View()), q) then d.outcome else Reached)
      ensures old(Healthy()) ==>
                Durable() == Runs.AfterCompletion(lifecycle.hc.hashes, old(View()), q, script, !fate.NotStored?)
      ensures lifecycle.View() == if r == Ok(Reached) then ReleasedOf(old(lifecycle.View()), q.commands)
                                  else old(lifecycle.View())
    {
      hide Inv, Holds, Counted, PresenceOf, Named, BatchIds, AllPending, Sound, IsApplied, Drive, Collected,
           CompleteAll;
      ghost var before := lifecycle.View();
      if !q.matches || q.commands == [] || q.contract != ordered.contract {
        return Err;
      }
      var l := Lifecycle(lifecycle.contract, lifecycle.writes, lifecycle.cutover);
      var presence, completions := Inspect(lifecycle.hc.hashes, l, q.commands);
      match presence {
        case Refused => return Err;
        case Released =>
          NothingToRelease(lifecycle.hc.hashes, before, q.commands);
          var now := Ordered(ordered.contract, ordered.available, ordered.finalized, ordered.applied);
          return if IsApplied(now, q.reference) then Ok(Reached) else Err;
        case Retained =>
      }
      if q.timeout > Runs.MAX_WAIT_SECONDS {
        return Err;
      }
      DriveOutcome(ordered.View(), ordered.stored, ordered.failed, q.reference, script);
      var outcome := ordered.CompleteWrite(q.reference, script);
      if outcome.WriteFailed? {
        return Err;
      }
      if outcome.Reached? {
        var listed := ListCompletions(completions);
        BatchCompletes(lifecycle.hc.hashes, before, q.commands, completions, listed);
        ReleaseIsIdempotent(lifecycle.hc.hashes, before, q.commands);
        var ok := lifecycle.Complete(listed, fate);
        if !ok {
          return Err;
        }
      }
      return Ok(outcome);
    }
  }

  /** A released batch has nothing left to release. */
  lemma {:induction false} NothingToRelease(h: Hashes, l: Lifecycle, cs: seq<Command>)
    requires PresenceOf(h, l, cs).Released?
    ensures ReleasedOf(l, cs) == l
  {
    assert l.writes - BatchIds(cs) == l.writes;
  }

  lemma {:induction false} ActivatedContract(h: Hashes, l: Lifecycle, m: Manifest, now: Membership)
    ensures ActivateCutover(h, l, m, now).Some? ==>
              ActivateCutover(h, l, m, now).value.contract == m.cutover.to && l.contract == m.cutover.from
  {
  }

  /** Rebuilds a coordinator over engines opened from the stores. */
  method Rebuild(lifecycle: Engine, ordered: OrderedEngine, now: Membership, fate: PersistFate)
    returns (r: Option<Coordinator>)
    requires lifecycle.Valid() && ordered.Valid()
    modifies lifecycle
    ensures lifecycle.Valid()
    ensures var s := Spec.Stores(old(lifecycle.View()), ordered.View());
            var spec := Spec.Reconcile(lifecycle.hc.hashes, s, now);
            && (r.Some? ==> spec.Some? && fresh(r.value) && r.value.Valid() && r.value.View() == spec.value
                            && Spec.StoresAgree(r.value.View()))
            && (spec.Some? && !old(lifecycle.failed) && fate.Persisted? ==> r.Some?)
  {
    hide Inv, Holds, Counted, Sound, OwnManifest, ActivateCutover;
    var coordinator := new Coordinator(lifecycle, ordered);
    Spec.ReconcileAgrees(lifecycle.hc.hashes, coordinator.View(), now);
    var ok := coordinator.Reconcile(now, fate);
    return if ok then Some(coordinator) else None;
  }
}
