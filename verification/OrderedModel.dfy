/**
 The ordered engine as far as the coordinator sees it: which references are
 available, the order they were finalized in, how many of those are applied, and
 the contract that may change only when nothing is left to apply.
 */
module OrderedModel {
  import opened Digests
  import opened HaTypes
  import opened HaPersist

  /** A reference to a batch is named by its hash. */
  type Reference = Digest

  datatype Ordered = Ordered(contract: Contract, available: set<Reference>, finalized: seq<Reference>, applied: nat)

  predicate IsApplied(o: Ordered, r: Reference) {
    exists i :: 0 <= i < o.applied && i < |o.finalized| && o.finalized[i] == r
  }

  predicate Quiescent(o: Ordered) {
    o.available == {} && o.applied == |o.finalized|
  }

  /** Each reference has one position, and those not yet applied are available. */
  ghost predicate Sound(o: Ordered) {
    && o.applied <= |o.finalized|
    && (forall i, j :: 0 <= i < j < |o.finalized| ==> o.finalized[i] != o.finalized[j])
    && (forall i :: 0 <= i < |o.finalized| ==> (o.finalized[i] in o.available <==> o.applied <= i))
  }

  /** How far a reference has come: unknown, available, finalized, applied. */
  function Rank(o: Ordered, r: Reference): nat {
    if IsApplied(o, r) then 3 else if r in o.finalized then 2 else if r in o.available then 1 else 0
  }

  predicate AcceptsContract(o: Ordered, to: Contract) {
    && ValidContract(to) && Quiescent(o)
    && to.route >= o.contract.route && to.spec >= o.contract.spec && to != o.contract
  }

  /** The next finalized reference has been applied and its result stored. */
  function ApplyNext(o: Ordered): Ordered {
    if o.applied < |o.finalized| && o.finalized[o.applied] in o.available
    then o.(available := o.available - {o.finalized[o.applied]}, applied := o.applied + 1)
    else o
  }

  datatype OrderingStep =
    | MarkAvailable(reference: Reference, contract: Contract)
    | Finalize(reference: Reference)
    | ApplyOne
    | MoveTo(to: Contract)

  function NextOrdered(o: Ordered, step: OrderingStep): Ordered {
    match step
    case MarkAvailable(r, contract) =>
      if contract == o.contract && r !in o.finalized then o.(available := o.available + {r}) else o
    case Finalize(r) =>
      if r in o.available && r !in o.finalized then o.(finalized := o.finalized + [r]) else o
    case ApplyOne => ApplyNext(o)
    case MoveTo(to) => if AcceptsContract(o, to) then o.(contract := to) else o
  }

  lemma {:induction false} StepKeepsSound(o: Ordered, step: OrderingStep)
    requires Sound(o)
    ensures Sound(NextOrdered(o, step))
  {
  }

  /** No step takes a reference back. */
  lemma {:induction false} RankOnlyRises(o: Ordered, step: OrderingStep, r: Reference)
    requires Sound(o)
    ensures Rank(NextOrdered(o, step), r) >= Rank(o, r)
  {
    var o' := NextOrdered(o, step);
    if IsApplied(o, r) {
      var i :| 0 <= i < o.applied && i < |o.finalized| && o.finalized[i] == r;
      assert o'.finalized[i] == r;
    } else if r in o.finalized {
      var i :| 0 <= i < |o.finalized| && o.finalized[i] == r;
      assert o'.finalized[i] == r;
    } else if r in o.available && step.Finalize? && step.reference == r {
      assert o'.finalized[|o.finalized|] == r;
    }
  }

  ghost function RunOrdered(o: Ordered, steps: seq<OrderingStep>): Ordered
    decreases |steps|
  {
    if steps == [] then o else NextOrdered(RunOrdered(o, steps[..|steps| - 1]), steps[|steps| - 1])
  }

  /** Over every run each reference keeps one position, those not yet applied stay
      available, and no reference falls back. */
  lemma {:induction false} RankNeverFalls(o: Ordered, steps: seq<OrderingStep>, r: Reference)
    requires Sound(o)
    ensures Sound(RunOrdered(o, steps)) && Rank(RunOrdered(o, steps), r) >= Rank(o, r)
    decreases |steps|
  {
    hide Sound, Rank, NextOrdered;
    if steps != [] {
      var n := |steps| - 1;
      RankNeverFalls(o, steps[..n], r);
      StepKeepsSound(RunOrdered(o, steps[..n]), steps[n]);
      RankOnlyRises(RunOrdered(o, steps[..n]), steps[n], r);
    }
  }

  /** The contract moves exactly when nothing is available or unapplied and the new
      one is valid, different and no step back. */
  lemma {:induction false} MovesExactly(o: Ordered, to: Contract)
    ensures AcceptsContract(o, to) <==>
              && o.available == {} && o.applied == |o.finalized|
              && to.route >= 1 && to.spec >= 1 && to.route >= o.contract.route && to.spec >= o.contract.spec
              && (to.route > o.contract.route || to.spec > o.contract.spec)
  {
  }

  /** What each step does: marking makes available what is not finalized, under the
      contract in force; finalizing appends what is available; one application takes
      the next finalized reference; a move changes the contract and nothing else. */
  lemma {:induction false} StepsMean(o: Ordered, r: Reference, c: Contract)
    requires Sound(o)
    ensures var marked := NextOrdered(o, MarkAvailable(r, c));
            && (r in marked.available <==> r in o.available || (c == o.contract && r !in o.finalized))
            && marked.finalized == o.finalized && marked.applied == o.applied
    ensures var ordered := NextOrdered(o, Finalize(r));
            && (r in ordered.finalized <==> r in o.finalized || r in o.available)
            && (r !in o.finalized && r in o.available ==> ordered.finalized == o.finalized + [r])
            && ordered.applied == o.applied
    ensures var next := NextOrdered(o, ApplyOne);
            && next.finalized == o.finalized
            && (o.applied < |o.finalized| ==>
                  next.applied == o.applied + 1 && next.available == o.available - {o.finalized[o.applied]})
    ensures NextOrdered(o, MoveTo(c)) == if AcceptsContract(o, c) then o.(contract := c) else o
  {
  }

  ghost predicate MarkedUnder(steps: seq<OrderingStep>, r: Reference, contract: Contract) {
    exists i :: 0 <= i < |steps| && steps[i] == MarkAvailable(r, contract)
  }

  /** Whatever is available in a run that began at quiescence was made available
      under the contract that is still in force: the contract never moves under a
      reference. */
  lemma {:induction false} AvailableUnderContract(o: Ordered, steps: seq<OrderingStep>, r: Reference)
    requires Sound(o) && o.available == {}
    ensures var end := RunOrdered(o, steps);
            r in end.available ==> MarkedUnder(steps, r, end.contract)
    decreases |steps|
  {
    if steps != [] {
      var n := |steps| - 1;
      var init := steps[..n];
      AvailableUnderContract(o, init, r);
      var before, end := RunOrdered(o, init), RunOrdered(o, steps);
      if r in end.available {
        if r in before.available {
          var i :| 0 <= i < n && init[i] == MarkAvailable(r, before.contract);
          assert steps[i] == MarkAvailable(r, end.contract);
        } else {
          assert steps[n] == MarkAvailable(r, end.contract);
        }
      }
    }
  }

  /** One attempt to apply the next reference while a caller waits: it is applied
      with the given durable outcome, its bytes are not here yet, or the
      application fails. */
  datatype Attempt = Applies(fate: PersistFate) | BatchMissing | ApplicationFailed

  datatype WriteOutcome = WriteFailed | TimedOut | Reached

  /** The engine in memory and as stored, whether a durable write failed, and what
      waiting for a reference ended with. */
  datatype Driven = Driven(memory: Ordered, stored: Ordered, failed: bool, outcome: WriteOutcome)

  /** Drives application until the reference is applied or the attempts made
      before the deadline are used up. */
  function Drive(o: Ordered, stored: Ordered, failed: bool, r: Reference, script: seq<Attempt>): Driven
    decreases |script|
  {
    if IsApplied(o, r) then Driven(o, stored, failed, Reached)
    else if script == [] || r !in o.finalized then Driven(o, stored, failed, TimedOut)
    else
      match script[0]
      case BatchMissing => Drive(o, stored, failed, r, script[1..])
      case ApplicationFailed => Driven(o, stored, failed, WriteFailed)
      case Applies(fate) =>
        if failed then Driven(o, stored, failed, WriteFailed)
        else if fate.NotStored? then Driven(o, stored, true, WriteFailed)
        else if fate.StoredButFailed? then Driven(o, ApplyNext(o), true, WriteFailed)
        else Drive(ApplyNext(o), ApplyNext(o), failed, r, script[1..])
  }

  /** The second engine is the first with some more references applied. */
  ghost predicate Advanced(o: Ordered, o': Ordered) {
    && Sound(o') && o'.contract == o.contract && o'.finalized == o.finalized && o'.applied >= o.applied
  }

  lemma {:induction false} ApplyAdvances(o: Ordered)
    requires Sound(o)
    ensures Advanced(o, ApplyNext(o)) && Sound(ApplyNext(o))
  {
  }

  lemma {:induction false} AdvancedKeepsApplied(o: Ordered, o': Ordered, r: Reference)
    requires Advanced(o, o') && IsApplied(o, r)
    ensures IsApplied(o', r)
  {
  }

  /** Driving only applies more references, in memory and in the store; it ends
      with success exactly when the reference is then applied, and then nothing
      failed on the way. */
  lemma {:induction false} DriveOutcome(o: Ordered, stored: Ordered, failed: bool, r: Reference, script: seq<Attempt>)
    requires Sound(o) && Sound(stored) && (!failed ==> stored == o)
    ensures var d := Drive(o, stored, failed, r, script);
            && Advanced(o, d.memory) && Advanced(stored, d.stored)
            && (d.outcome.Reached? <==> IsApplied(d.memory, r))
            && (!d.failed ==> d.stored == d.memory)
            && (d.outcome.Reached? ==> d.failed == failed)
            && (failed ==> d.failed && d.memory == o && d.stored == stored)
    decreases |script|
  {
    hide IsApplied;
    if !IsApplied(o, r) && script != [] && r in o.finalized {
      match script[0]
      case BatchMissing => DriveOutcome(o, stored, failed, r, script[1..]);
      case ApplicationFailed =>
      case Applies(fate) =>
        ApplyAdvances(o);
        if !failed && fate.Persisted? {
          DriveOutcome(ApplyNext(o), ApplyNext(o), failed, r, script[1..]);
        }
    }
  }

  /** The attempt ends the wait with an error. */
  predicate Fails(a: Attempt, failed: bool) {
    a.ApplicationFailed? || (a.Applies? && (failed || !a.fate.Persisted?))
  }

  /** Driving fails only by an attempt that failed, and never for a reference that
      was not finalized. */
  lemma {:induction false} DriveFailsOnlyBy(o: Ordered, stored: Ordered, failed: bool, r: Reference,
                                            script: seq<Attempt>)
    ensures Drive(o, stored, failed, r, script).outcome.WriteFailed? ==>
              r in o.finalized && exists i :: 0 <= i < |script| && Fails(script[i], failed)
    decreases |script|
  {
    if !IsApplied(o, r) && script != [] && r in o.finalized {
      if Fails(script[0], failed) {
        assert Fails(script[0], failed);
      } else {
        var next := if script[0].Applies? then ApplyNext(o) else o;
        DriveFailsOnlyBy(next, if script[0].Applies? then next else stored, failed, r, script[1..]);
        if i :| 0 <= i < |script| - 1 && Fails(script[1..][i], failed) {
          assert Fails(script[i + 1], failed);
        }
      }
    }
  }

  /** Enough undisturbed attempts reach a finalized reference. */
  lemma {:induction false} DriveReaches(o: Ordered, r: Reference, p: nat, script: seq<Attempt>)
    requires Sound(o) && p < |o.finalized| && o.finalized[p] == r && o.applied + |script| > p
    requires forall i :: 0 <= i < |script| ==> script[i] == Applies(Persisted)
    ensures Drive(o, o, false, r, script).outcome.Reached?
    decreases |script|
  {
    if !IsApplied(o, r) {
      assert o.applied <= p;
      ApplyAdvances(o);
      DriveReaches(ApplyNext(o), r, p, script[1..]);
    }
  }
}
