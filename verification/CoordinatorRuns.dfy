/**
 Whole runs of the coordinated stores: lifecycle and ordering steps, completions
 and activations that stop anywhere, crashes and rebuilds. The stores never
 diverge beyond repair, they stay apart exactly until a rebuild can repair them,
 and a write leaves only after its batch is durably applied or by an abort.
 */
module CoordinatorRuns {
  import opened HaTypes
  import opened HaLifecycle
  import opened HaRuns
  import opened HaManifest
  import opened GlobalCompletion
  import opened OrderedModel
  import opened CoordinatorModel

  const MAX_WAIT_SECONDS: nat := 300

  /** One request to complete a batch: the reference, the contract it was made
      under, the commands, and whether they match the reference. */
  datatype Request = Request(matches: bool, reference: Reference, contract: Contract, commands: seq<Command>,
                             timeout: nat)

  /** A batch is never empty. */
  predicate Verified(q: Request) {
    q.matches && q.commands != []
  }

  /** The request reaches the ordered engine. */
  predicate Proceeds(h: Hashes, s: Stores, q: Request) {
    && Verified(q) && q.contract == s.ordered.contract && q.timeout <= MAX_WAIT_SECONDS
    && PresenceOf(h, s.lifecycle, q.commands).Retained?
  }

  function DriveFor(s: Stores, q: Request, script: seq<Attempt>): Driven {
    Drive(s.ordered, s.ordered, false, q.reference, script)
  }

  /** The durable stores after a request whose attempts went as scripted;
      `cleaned` says whether the release of the writes was stored. A crash is a
      shorter script, or a release that was not stored. */
  function AfterCompletion(h: Hashes, s: Stores, q: Request, script: seq<Attempt>, cleaned: bool): Stores {
    if !Proceeds(h, s, q) then s
    else
      var d := DriveFor(s, q, script);
      if d.outcome.Reached? && cleaned && AllPending(s.lifecycle, q.commands)
      then Stores(ReleasedOf(s.lifecycle, q.commands), d.stored)
      else s.(ordered := d.stored)
  }

  /** The request succeeds, given what driving the reference ended with and
      whether the release of the writes, if it came to that, was acknowledged. */
  predicate Succeeds(h: Hashes, s: Stores, q: Request, outcome: WriteOutcome, released: bool) {
    && Verified(q) && q.contract == s.ordered.contract
    && match PresenceOf(h, s.lifecycle, q.commands)
       case Refused => false
       case Released => IsApplied(s.ordered, q.reference)
       case Retained =>
         && q.timeout <= MAX_WAIT_SECONDS
         && (outcome.TimedOut? || (outcome.Reached? && AllPending(s.lifecycle, q.commands) && released))
  }

  /** What can happen to the stores while coordinators come and go. */
  datatype Event =
    | LifecycleEvent(action: Action)
    | OrderedEvent(step: OrderingStep)
    | CancelEvent
    | ActivateEvent(manifest: Manifest, now: Membership, progress: Progress)
    | CompletionEvent(request: Request, script: seq<Attempt>, cleaned: bool)
    | Rebuild(now: Membership)

  /** Lifecycle actions the coordinator passes on unchanged. */
  predicate PassedOn(a: Action) {
    a.Accept? || a.Begin? || a.Recertify? || a.AbortWrite?
  }

  ghost function NextStores(h: Hashes, s: Stores, e: Event): Stores {
    match e
    case LifecycleEvent(a) => if PassedOn(a) then s.(lifecycle := After(h, s.lifecycle, a)) else s
    case OrderedEvent(step) =>
      if step.MarkAvailable? || step.Finalize? then s.(ordered := NextOrdered(s.ordered, step)) else s
    case CancelEvent => (match CancelCoordinated(s) case Some(t) => t case None => s)
    case ActivateEvent(m, now, progress) => AfterActivation(h, s, m, now, progress)
    case CompletionEvent(q, script, cleaned) => AfterCompletion(h, s, q, script, cleaned)
    case Rebuild(now) => (match Reconcile(h, s, now) case Some(t) => t case None => s)
  }

  ghost function RunStores(h: Hashes, s: Stores, events: seq<Event>): Stores
    decreases |events|
  {
    if events == [] then s else NextStores(h, RunStores(h, s, events[..|events| - 1]), events[|events| - 1])
  }

  lemma {:induction false} PassedOnKeepsContract(h: Hashes, l: Lifecycle, a: Action)
    requires PassedOn(a)
    ensures After(h, l, a).contract == l.contract
    ensures l.cutover.Some? ==> After(h, l, a).cutover == l.cutover
  {
  }

  lemma {:induction false} PassedOnKeepsRecoverable(h: Hashes, s: Stores, a: Action)
    requires Recoverable(h, s) && PassedOn(a)
    ensures Recoverable(h, s.(lifecycle := After(h, s.lifecycle, a)))
  {
    hide Inv;
    StepKeepsInv(h, s.lifecycle, a);
    PassedOnKeepsContract(h, s.lifecycle, a);
  }

  lemma {:induction false} ActivationKeepsRecoverable(h: Hashes, s: Stores, m: Manifest, now: Membership,
                                                      progress: Progress)
    requires Recoverable(h, s)
    ensures Recoverable(h, AfterActivation(h, s, m, now, progress))
  {
    hide Inv;
    if ActivateCutover(h, s.lifecycle, m, now).Some? {
      ActivateKeepsInv(h, s.lifecycle, m, now);
      ActivationKeepsSurvivors(h, s.lifecycle, m, now);
    }
  }

  /** The durable ordered engine after a completion has only applied more. */
  lemma {:induction false} CompletionAdvances(h: Hashes, s: Stores, q: Request, script: seq<Attempt>, cleaned: bool)
    requires Sound(s.ordered)
    ensures var t := AfterCompletion(h, s, q, script, cleaned);
            && Advanced(s.ordered, t.ordered)
            && (t.lifecycle == s.lifecycle
                || (&& t.lifecycle == ReleasedOf(s.lifecycle, q.commands) && AllPending(s.lifecycle, q.commands)
                    && Proceeds(h, s, q) && IsApplied(t.ordered, q.reference)))
  {
    hide Drive, PresenceOf, AllPending, IsApplied;
    DriveOutcome(s.ordered, s.ordered, false, q.reference, script);
  }

  lemma {:induction false} CompletionKeepsRecoverable(h: Hashes, s: Stores, q: Request, script: seq<Attempt>,
                                                      cleaned: bool)
    requires Recoverable(h, s)
    ensures Recoverable(h, AfterCompletion(h, s, q, script, cleaned))
  {
    hide Inv, AfterCompletion;
    CompletionAdvances(h, s, q, script, cleaned);
    ReleaseKeepsInv(h, s.lifecycle, q.commands);
  }

  lemma {:induction false} ReleaseKeepsInv(h: Hashes, l: Lifecycle, cs: seq<Command>)
    requires Inv(h, l)
    ensures Inv(h, ReleasedOf(l, cs))
  {
    SubtractShrinks(l.writes, BatchIds(cs));
  }

  lemma {:induction false} EventKeepsRecoverable(h: Hashes, s: Stores, e: Event)
    requires Recoverable(h, s)
    ensures Recoverable(h, NextStores(h, s, e))
  {
    hide Inv, AfterActivation, AfterCompletion, Sound, Reconcile;
    match e
    case LifecycleEvent(a) =>
      if PassedOn(a) {
        PassedOnKeepsRecoverable(h, s, a);
      }
    case OrderedEvent(step) => StepKeepsSound(s.ordered, step);
    case CancelEvent =>
      if CancelCoordinated(s).Some? {
        CancelKeepsInv(h, s.lifecycle);
      }
    case ActivateEvent(m, now, progress) => ActivationKeepsRecoverable(h, s, m, now, progress);
    case CompletionEvent(q, script, cleaned) => CompletionKeepsRecoverable(h, s, q, script, cleaned);
    case Rebuild(now) => RebuildKeepsRecoverable(h, s, now);
  }

  lemma {:induction false} RebuildKeepsRecoverable(h: Hashes, s: Stores, now: Membership)
    requires Recoverable(h, s)
    ensures Recoverable(h, NextStores(h, s, Rebuild(now)))
  {
    hide Inv, Sound, OwnManifest, ActivateCutover;
    if !StoresAgree(s) {
      RepairIffResolved(h, s, now);
    }
  }

  /** On every run, with activations and completions stopped anywhere, the stores
      agree or the ordered one is on the target of the recorded cutover. */
  lemma {:induction false} StoresNeverDiverge(h: Hashes, s: Stores, events: seq<Event>)
    requires Recoverable(h, s)
    ensures Recoverable(h, RunStores(h, s, events))
    decreases |events|
  {
    hide Recoverable, NextStores;
    if events != [] {
      StoresNeverDiverge(h, s, events[..|events| - 1]);
      EventKeepsRecoverable(h, RunStores(h, s, events[..|events| - 1]), events[|events| - 1]);
    }
  }

  /** A rebuild that finds every write resolved and membership as recorded. */
  predicate Repairs(s: Stores, e: Event) {
    && e.Rebuild? && s.lifecycle.cutover.Some? && AllResolved(s.lifecycle.writes)
    && e.now == s.lifecycle.cutover.value.membership
  }

  /** One event joins parted stores if and only if it is such a rebuild; every
      other event leaves them apart over the same cutover. */
  lemma {:induction false} JoinedExactlyByRepair(h: Hashes, s: Stores, e: Event)
    requires Recoverable(h, s) && MidCutover(s)
    ensures StoresAgree(NextStores(h, s, e)) <==> Repairs(s, e)
    ensures !Repairs(s, e) ==>
              MidCutover(NextStores(h, s, e)) && NextStores(h, s, e).lifecycle.cutover == s.lifecycle.cutover
  {
    hide Inv, AfterCompletion, Sound, Reconcile, AllResolved, After;
    MidCutoverIsApart(h, s);
    EventKeepsRecoverable(h, s, e);
    match e
    case LifecycleEvent(a) =>
      if PassedOn(a) {
        PassedOnKeepsContract(h, s.lifecycle, a);
      }
    case CompletionEvent(q, script, cleaned) =>
      CompletionAdvances(h, s, q, script, cleaned);
      AdvancedContract(s.ordered, NextStores(h, s, e).ordered);
    case Rebuild(now) => RepairIffResolved(h, s, now);
    case _ =>
  }

  lemma {:induction false} AdvancedContract(o: Ordered, o': Ordered)
    requires Advanced(o, o')
    ensures o'.contract == o.contract
  {
  }

  /** Without a repairing rebuild a run leaves parted stores apart. */
  lemma {:induction false} ApartWithoutRepair(h: Hashes, s: Stores, events: seq<Event>)
    requires Recoverable(h, s) && MidCutover(s)
    requires forall i :: 0 <= i < |events| ==> !Repairs(RunStores(h, s, events[..i]), events[i])
    ensures MidCutover(RunStores(h, s, events)) && !StoresAgree(RunStores(h, s, events))
    ensures RunStores(h, s, events).lifecycle.cutover == s.lifecycle.cutover
    decreases |events|
  {
    hide Recoverable, NextStores, MidCutover, Repairs, StoresAgree;
    if events == [] {
      ApartNow(h, s);
    } else {
      var n := |events| - 1;
      var init := events[..n];
      forall i | 0 <= i < n ensures !Repairs(RunStores(h, s, init[..i]), init[i]) {
        assert init[..i] == events[..i];
      }
      ApartWithoutRepair(h, s, init);
      StoresNeverDiverge(h, s, init);
      assert !Repairs(RunStores(h, s, events[..n]), events[n]);
      JoinedExactlyByRepair(h, RunStores(h, s, init), events[n]);
    }
  }

  lemma {:induction false} ApartNow(h: Hashes, s: Stores)
    requires Recoverable(h, s) && MidCutover(s)
    ensures !StoresAgree(s)
  {
    hide Inv;
    MidCutoverIsApart(h, s);
  }

  /** Parted stores agree at some point of a run if and only if some rebuild of
      the run finds every write resolved and membership as recorded at the start
      of the cutover. */
  lemma {:induction false} ApartUntilRepaired(h: Hashes, s: Stores, events: seq<Event>)
    requires Recoverable(h, s) && MidCutover(s)
    ensures (exists n :: 0 <= n <= |events| && StoresAgree(RunStores(h, s, events[..n])))
       <==> (exists i :: 0 <= i < |events| && Repairs(RunStores(h, s, events[..i]), events[i]))
  {
    hide Recoverable, NextStores, MidCutover, Repairs, StoresAgree, RunStores;
    if i :| 0 <= i < |events| && Repairs(RunStores(h, s, events[..i]), events[i]) {
      AgreesOnceRepaired(h, s, events, i);
    }
    if n :| 0 <= n <= |events| && StoresAgree(RunStores(h, s, events[..n])) {
      if forall i :: 0 <= i < n ==> !Repairs(RunStores(h, s, events[..i]), events[i]) {
        forall i | 0 <= i < n ensures !Repairs(RunStores(h, s, events[..n][..i]), events[..n][i]) {
          assert events[..n][..i] == events[..i];
        }
        ApartWithoutRepair(h, s, events[..n]);
      }
    }
  }

  lemma {:induction false} AgreesOnceRepaired(h: Hashes, s: Stores, events: seq<Event>, i: nat)
    requires Recoverable(h, s) && MidCutover(s)
    requires i < |events| && Repairs(RunStores(h, s, events[..i]), events[i])
    ensures exists n :: 0 <= n <= |events| && StoresAgree(RunStores(h, s, events[..n]))
    decreases i
  {
    hide Recoverable, NextStores, MidCutover, Repairs, StoresAgree;
    if j :| 0 <= j < i && Repairs(RunStores(h, s, events[..j]), events[j]) {
      AgreesOnceRepaired(h, s, events, j);
    } else {
      var init := events[..i];
      forall j | 0 <= j < i ensures !Repairs(RunStores(h, s, init[..j]), init[j]) {
        assert init[..j] == events[..j];
      }
      ApartWithoutRepair(h, s, init);
      StoresNeverDiverge(h, s, init);
      JoinedExactlyByRepair(h, RunStores(h, s, init), events[i]);
      assert events[..i + 1][..i] == init && events[..i + 1][i] == events[i];
      assert StoresAgree(RunStores(h, s, events[..i + 1]));
    }
  }

  /** While membership is not the one recorded when the cutover began, no run of
      events joins parted stores. */
  lemma {:induction false} ApartWhileMembershipMoved(h: Hashes, s: Stores, events: seq<Event>)
    requires Recoverable(h, s) && MidCutover(s)
    requires forall i :: 0 <= i < |events| && events[i].Rebuild? ==>
               events[i].now != s.lifecycle.cutover.value.membership
    ensures MidCutover(RunStores(h, s, events)) && !StoresAgree(RunStores(h, s, events))
    ensures RunStores(h, s, events).lifecycle.cutover == s.lifecycle.cutover
    decreases |events|
  {
    hide Recoverable, NextStores, StoresAgree, AllResolved;
    if events == [] {
      ApartNow(h, s);
    } else {
      var n := |events| - 1;
      ApartWhileMembershipMoved(h, s, events[..n]);
      StoresNeverDiverge(h, s, events[..n]);
      JoinedExactlyByRepair(h, RunStores(h, s, events[..n]), events[n]);
    }
  }

  /** Once applied, a reference stays applied through every event. */
  lemma {:induction false} AppliedStays(h: Hashes, s: Stores, e: Event, r: Reference)
    requires Recoverable(h, s) && IsApplied(s.ordered, r)
    ensures IsApplied(NextStores(h, s, e).ordered, r)
  {
    hide Inv, AfterCompletion, IsApplied;
    match e
    case OrderedEvent(step) =>
      RankOnlyRises(s.ordered, step, r);
    case CompletionEvent(q, script, cleaned) =>
      CompletionAdvances(h, s, q, script, cleaned);
      AdvancedKeepsApplied(s.ordered, NextStores(h, s, e).ordered, r);
    case ActivateEvent(m, now, progress) => SameOrder(s.ordered, NextStores(h, s, e).ordered, r);
    case Rebuild(now) => SameOrder(s.ordered, NextStores(h, s, e).ordered, r);
    case _ =>
  }

  lemma {:induction false} SameOrder(o: Ordered, o': Ordered, r: Reference)
    requires o'.finalized == o.finalized && o'.applied == o.applied
    ensures IsApplied(o', r) == IsApplied(o, r)
  {
  }

  lemma {:induction false} AppliedForever(h: Hashes, s: Stores, events: seq<Event>, i: nat, r: Reference)
    requires Recoverable(h, s) && i <= |events| && IsApplied(RunStores(h, s, events[..i]).ordered, r)
    ensures IsApplied(RunStores(h, s, events).ordered, r)
    decreases |events|
  {
    hide Recoverable, NextStores, IsApplied;
    if i == |events| {
      assert events[..i] == events;
    } else {
      var n := |events| - 1;
      assert events[..n][..i] == events[..i];
      AppliedForever(h, s, events[..n], i, r);
      StoresNeverDiverge(h, s, events[..n]);
      AppliedStays(h, RunStores(h, s, events[..n]), events[n], r);
    }
  }

  /** How a write may leave in one event: a completion of its batch, named by its
      current hash while pending, after which the reference is applied, or a
      finished cutover for which it was aborted. */
  ghost predicate LeavesBy(h: Hashes, s: Stores, e: Event, k: CommandIdentity)
    requires k in s.lifecycle.writes
  {
    var r := s.lifecycle.writes[k];
    match e
    case CompletionEvent(q, _, _) =>
      && r.disposition.Pending? && IsApplied(NextStores(h, s, e).ordered, q.reference)
      && exists i :: 0 <= i < |q.commands| && q.commands[i].identity == k && h.command(q.commands[i]) == r.commandHash
    case ActivateEvent(_, _, _) => r.disposition.Aborted?
    case Rebuild(_) => r.disposition.Aborted?
    case _ => false
  }

  lemma {:induction false} EventReleases(h: Hashes, s: Stores, e: Event, k: CommandIdentity)
    requires Recoverable(h, s) && k in s.lifecycle.writes
    ensures k in NextStores(h, s, e).lifecycle.writes || LeavesBy(h, s, e, k)
  {
    hide Inv, AfterCompletion, Sound, IsApplied, ActivateCutover, OwnManifest, AcceptAll;
    match e
    case LifecycleEvent(a) =>
      if PassedOn(a) && Step(h, s.lifecycle, a).Some? {
        StepLosesNothing(h, s.lifecycle, a, k);
      }
    case CompletionEvent(q, script, cleaned) => CompletionReleases(h, s, q, script, cleaned, k);
    case ActivateEvent(m, now, progress) =>
      if ActivateCutover(h, s.lifecycle, m, now).Some? {
        ActivationKeepsSurvivors(h, s.lifecycle, m, now);
      }
    case Rebuild(now) =>
      if MidCutover(s) {
        RepairIffResolved(h, s, now);
      }
    case _ =>
  }

  lemma {:induction false} CompletionReleases(h: Hashes, s: Stores, q: Request, script: seq<Attempt>, cleaned: bool,
                                              k: CommandIdentity)
    requires Sound(s.ordered) && k in s.lifecycle.writes
    ensures k in AfterCompletion(h, s, q, script, cleaned).lifecycle.writes
            || LeavesBy(h, s, CompletionEvent(q, script, cleaned), k)
  {
    hide AfterCompletion, Sound, IsApplied, Drive;
    CompletionAdvances(h, s, q, script, cleaned);
    var t := AfterCompletion(h, s, q, script, cleaned);
    if k !in t.lifecycle.writes {
      var i :| 0 <= i < |q.commands| && q.commands[i].identity == k;
      assert CommandFits(h, s.lifecycle, q.commands[i]);
    }
  }

  /** The write left at event `i`, and if by completion its reference is applied
      in the stores at the end of the run. */
  ghost predicate LeftAt(h: Hashes, s: Stores, events: seq<Event>, k: CommandIdentity, i: nat, end: Stores)
    requires i < |events|
  {
    var before := RunStores(h, s, events[..i]);
    && k in before.lifecycle.writes && LeavesBy(h, before, events[i], k)
    && (events[i].CompletionEvent? ==> IsApplied(end.ordered, events[i].request.reference))
  }

  /** On every run of the coordinated stores, an accepted write is still there, or
      was aborted by a finished cutover, or belonged to a batch whose reference is
      durably applied, then and ever after. */
  lemma {:induction false} ReleasedOnlyWhenApplied(h: Hashes, s: Stores, events: seq<Event>, k: CommandIdentity)
    requires Recoverable(h, s) && k in s.lifecycle.writes
    ensures k in RunStores(h, s, events).lifecycle.writes
            || exists i :: 0 <= i < |events| && LeftAt(h, s, events, k, i, RunStores(h, s, events))
    decreases |events|
  {
    hide Recoverable, NextStores, LeavesBy, IsApplied;
    if events != [] {
      var n := |events| - 1;
      var init := events[..n];
      StoresNeverDiverge(h, s, init);
      ReleasedOnlyWhenApplied(h, s, init, k);
      var before, end := RunStores(h, s, init), RunStores(h, s, events);
      if k in before.lifecycle.writes {
        EventReleases(h, before, events[n], k);
        if k !in end.lifecycle.writes {
          LeavesApplied(h, before, events[n], k);
          assert LeftAt(h, s, events, k, n, end);
        }
      } else {
        var i :| 0 <= i < n && LeftAt(h, s, init, k, i, before);
        assert init[..i] == events[..i] && init[i] == events[i];
        if events[i].CompletionEvent? {
          AppliedStays(h, before, events[n], events[i].request.reference);
        }
        assert LeftAt(h, s, events, k, i, end);
      }
    }
  }

  lemma {:induction false} LeavesApplied(h: Hashes, s: Stores, e: Event, k: CommandIdentity)
    requires k in s.lifecycle.writes && LeavesBy(h, s, e, k)
    ensures e.CompletionEvent? ==> IsApplied(NextStores(h, s, e).ordered, e.request.reference)
  {
  }
}
