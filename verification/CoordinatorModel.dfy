/**
 The two durable stores behind a coordinated cutover, as values: the lifecycle
 and the ordered engine. The ordered store commits first; a crash in between is
 repaired when the coordinator is built again.
 */
module CoordinatorModel {
  import opened Wrappers
  import opened HaTypes
  import opened HaLifecycle
  import opened HaRuns
  import opened HaManifest
  import opened OrderedModel

  datatype Stores = Stores(lifecycle: Lifecycle, ordered: Ordered)

  /** The guard of a coordinated activation. */
  predicate MatchesSource(s: Stores, m: Manifest) {
    s.lifecycle.cutover == Some(m.cutover) && s.ordered.contract == m.cutover.from
  }

  predicate StoresAgree(s: Stores) {
    s.ordered.contract == s.lifecycle.contract
  }

  /** Between the two commits: the ordered store is already on the target. */
  predicate MidCutover(s: Stores) {
    s.lifecycle.cutover.Some? && s.ordered.contract == s.lifecycle.cutover.value.to
  }

  ghost predicate Recoverable(h: Hashes, s: Stores) {
    Inv(h, s.lifecycle) && Sound(s.ordered) && (StoresAgree(s) || MidCutover(s))
  }

  /** The stores are never both together and mid-cutover. */
  lemma {:induction false} MidCutoverIsApart(h: Hashes, s: Stores)
    requires Inv(h, s.lifecycle) && MidCutover(s)
    ensures !StoresAgree(s) && forall m :: !MatchesSource(s, m)
  {
    InvRecords(h, s.lifecycle);
  }

  /** How far an activation got before it ended, by return or by crash. */
  datatype Progress = Nothing | OrderedOnly | Both

  /** The stores after an activation that got this far. */
  function AfterActivation(h: Hashes, s: Stores, m: Manifest, now: Membership, progress: Progress): Stores {
    if progress.Nothing? || !MatchesSource(s, m) || !AcceptsContract(s.ordered, m.cutover.to) then s
    else
      var moved := s.ordered.(contract := m.cutover.to);
      var activated := ActivateCutover(h, s.lifecycle, m, now);
      if progress.OrderedOnly? || activated.None? then s.(ordered := moved) else Stores(activated.value, moved)
  }

  /** What building the coordinator makes of the stores: when the ordered one is
      on the target, the lifecycle is activated with its own manifest. `None` is a
      refusal. */
  ghost function Reconcile(h: Hashes, s: Stores, now: Membership): Option<Stores> {
    if StoresAgree(s) then Some(s)
    else if !MidCutover(s) then None
    else
      match OwnManifest(h, s.lifecycle)
      case None => None
      case Some(m) =>
        match ActivateCutover(h, s.lifecycle, m, now)
        case None => None
        case Some(l) => Some(s.(lifecycle := l))
  }

  /** Building a coordinator succeeds only with the stores together. */
  lemma {:induction false} ReconcileAgrees(h: Hashes, s: Stores, now: Membership)
    ensures Reconcile(h, s, now).Some? ==> StoresAgree(Reconcile(h, s, now).value)
  {
  }

  /** Cancelling is refused once the ordered store has moved. */
  function CancelCoordinated(s: Stores): Option<Stores> {
    if !StoresAgree(s) || CancelCutover(s.lifecycle).None? then None
    else Some(s.(lifecycle := CancelCutover(s.lifecycle).value))
  }

  /** The stores as the engine's own manifest leaves them without a crash. */
  function Activated(s: Stores): Stores
    requires s.lifecycle.cutover.Some?
  {
    var to := s.lifecycle.cutover.value.to;
    Stores(Lifecycle(to, Survivors(s.lifecycle.writes), None), s.ordered.(contract := to))
  }

  /** An interrupted cutover is repaired if and only if every write is resolved
      and membership is the one recorded when it began; repair then completes the
      cutover as an uninterrupted activation would have. */
  lemma {:induction false} RepairIffResolved(h: Hashes, s: Stores, now: Membership)
    requires Inv(h, s.lifecycle) && MidCutover(s)
    ensures Reconcile(h, s, now).Some?
       <==> AllResolved(s.lifecycle.writes) && now == s.lifecycle.cutover.value.membership
    ensures Reconcile(h, s, now).Some? ==>
              && Reconcile(h, s, now).value == Activated(s)
              && StoresAgree(Activated(s)) && Inv(h, Activated(s).lifecycle)
  {
    hide Inv, ActivateCutover, IsManifestOf, OwnManifest;
    MidCutoverIsApart(h, s);
    OwnManifestExists(h, s.lifecycle);
    if OwnManifest(h, s.lifecycle).Some? {
      var m := OwnManifest(h, s.lifecycle).value;
      ManifestCutover(h, s.lifecycle, m);
      OwnManifestActivates(h, s.lifecycle, m, now);
      if now == m.cutover.membership {
        ActivateKeepsInv(h, s.lifecycle, m, now);
        assert s.ordered.(contract := m.cutover.to) == s.ordered;
      }
    }
  }

  lemma {:induction false} ManifestCutover(h: Hashes, l: Lifecycle, m: Manifest)
    requires IsManifestOf(h, l, m)
    ensures l.cutover == Some(m.cutover)
  {
  }

  /** Wherever a coordinated activation of the engine's own manifest stops,
      rebuilding leaves both stores on the source with the cutover pending, or
      both on the target with the writes of the uninterrupted run. */
  lemma {:induction false} CrashIsRepaired(h: Hashes, s: Stores, m: Manifest, progress: Progress)
    requires Inv(h, s.lifecycle) && StoresAgree(s)
    requires IsManifestOf(h, s.lifecycle, m) && AllResolved(s.lifecycle.writes)
    ensures var after := AfterActivation(h, s, m, m.cutover.membership, progress);
            Reconcile(h, after, m.cutover.membership)
            == if after == s then Some(s) else Some(Activated(s))
    ensures Quiescent(s.ordered) && progress.Both? ==>
              AfterActivation(h, s, m, m.cutover.membership, progress) == Activated(s)
  {
    hide Inv, ActivateCutover, OwnManifest;
    InvRecords(h, s.lifecycle);
    OwnManifestActivates(h, s.lifecycle, m, m.cutover.membership);
    var after := AfterActivation(h, s, m, m.cutover.membership, progress);
    if MidCutover(after) && after.lifecycle == s.lifecycle {
      RepairIffResolved(h, after, m.cutover.membership);
    }
  }

  /** An activation that ran to its end leaves the stores apart exactly when its
      guards passed and its manifest was not the engine's own, a write was still
      pending, or membership had moved. */
  lemma {:induction false} StoresPartExactlyWhen(h: Hashes, s: Stores, m: Manifest, now: Membership)
    requires Inv(h, s.lifecycle) && StoresAgree(s)
    ensures !StoresAgree(AfterActivation(h, s, m, now, Both))
       <==> && s.lifecycle.cutover == Some(m.cutover) && s.ordered.contract == m.cutover.from
            && s.ordered.available == {} && s.ordered.applied == |s.ordered.finalized|
            && !(&& IsManifestOf(h, s.lifecycle, m) && now == m.cutover.membership
                 && forall k :: k in s.lifecycle.writes ==> !s.lifecycle.writes[k].disposition.Pending?)
  {
    hide Inv, IsManifestOf;
    InvRecords(h, s.lifecycle);
    ActivationAcceptsExactly(h, s.lifecycle, m, now);
    if ActivateCutover(h, s.lifecycle, m, now).Some? {
      ActivationKeepsSurvivors(h, s.lifecycle, m, now);
    }
  }

  /** A manifest kept from before a cancellation matches a cutover begun again
      with the same target and membership. Activating it moves the ordered store
      while the lifecycle refuses. The stores are then apart, and neither an
      immediate rebuild nor a cancellation joins them. */
  lemma {:induction false} StaleManifestPartsStores(h: Hashes, l: Lifecycle, ordered: Ordered, to: Contract,
                                                    membership: Membership, actions: seq<Action>, m: Manifest)
    requires Inv(h, l) && l.writes != map[] && BeginCutover(l, to, membership).Some?
    requires Quiescent(ordered) && ordered.contract == l.contract
    requires forall i :: 0 <= i < |actions| ==> Preparing(actions[i]) && !actions[i].Complete?
    requires IsManifestOf(h, Run(h, BeginCutover(l, to, membership).value, actions), m)
    ensures CancelCutover(Run(h, BeginCutover(l, to, membership).value, actions)) == Some(l)
    ensures var again := Stores(BeginCutover(l, to, membership).value, ordered);
            var apart := AfterActivation(h, again, m, membership, Both);
            && MidCutover(apart) && !StoresAgree(apart) && apart.lifecycle == again.lifecycle
            && Reconcile(h, apart, membership).None? && CancelCoordinated(apart).None?
  {
    hide Inv, Run, ActivateCutover, OwnManifest;
    var begun := BeginCutover(l, to, membership).value;
    var again := Stores(begun, ordered);
    StepKeepsInv(h, l, Begin(to, membership));
    assert Step(h, l, Begin(to, membership)) == Some(begun);
    InvRecords(h, l);
    CancelRestores(h, l, to, membership, actions);
    PendingThroughout(h, l);
    PreparationKeepsCommands(h, begun, actions);
    assert MatchesSource(again, m);
    StoresPartExactlyWhen(h, again, m, membership);
    ActivationAcceptsExactly(h, begun, m, membership);
    RepairIffResolved(h, AfterActivation(h, again, m, membership, Both), membership);
  }

  /** Without a cutover every write is pending. */
  lemma {:induction false} PendingThroughout(h: Hashes, l: Lifecycle)
    requires Inv(h, l) && l.cutover.None?
    ensures forall k :: k in l.writes ==> l.writes[k].disposition.Pending?
    ensures l.writes != map[] ==> !AllResolved(l.writes)
  {
    if l.writes != map[] {
      var k := AnyIdentity(l.writes);
      assert RecordOk(h, l.contract, l.cutover, k, l.writes[k]);
    }
  }
}
