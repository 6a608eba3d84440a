/**
 Whole-run properties of the accepted-write lifecycle: the invariant, how a
 manifest covers the source writes, that no write is silently lost, and that a
 cancelled cutover leaves no trace.
 */
module HaRuns {
  import opened Wrappers
  import opened Digests
  import opened HaTypes
  import opened HaLifecycle
  import opened FiniteSets

  function ResolvedIds(rs: seq<Resolution>): set<CommandIdentity> {
    set i | 0 <= i < |rs| :: rs[i].identity
  }

  lemma {:induction false} ResolvedIdsSplit(rs: seq<Resolution>)
    requires rs != []
    ensures ResolvedIds(rs) == ResolvedIds(rs[..|rs| - 1]) + {rs[|rs| - 1].identity}
  {
    var n := |rs| - 1;
    forall k | k in ResolvedIds(rs) ensures k in ResolvedIds(rs[..n]) + {rs[n].identity} {
      var i :| 0 <= i < |rs| && rs[i].identity == k;
      if i < n {
        assert rs[..n][i].identity == k;
      }
    }
    forall k | k in ResolvedIds(rs[..n]) ensures k in ResolvedIds(rs) {
      var i :| 0 <= i < n && rs[..n][i].identity == k;
      assert rs[i].identity == k;
    }
  }

  lemma {:induction false} LastIsNew(rs: seq<Resolution>)
    requires rs != [] && CanonicalResolutions(rs)
    ensures rs[|rs| - 1].identity !in ResolvedIds(rs[..|rs| - 1]) && CanonicalResolutions(rs[..|rs| - 1])
  {
  }

  /** Strictly ordered resolutions name as many identities as there are entries. */
  lemma {:induction false} DistinctCount(rs: seq<Resolution>)
    requires CanonicalResolutions(rs)
    ensures |ResolvedIds(rs)| == |rs|
  {
    if rs != [] {
      LastIsNew(rs);
      DistinctCount(rs[..|rs| - 1]);
      ResolvedIdsSplit(rs);
    }
  }

  /** An accepted manifest resolves every write, each exactly once. */
  lemma {:induction false} ManifestCoversWrites(h: Hashes, l: Lifecycle, m: Manifest, now: Membership)
    requires Inv(h, l) && ActivateCutover(h, l, m, now).Some?
    ensures ResolvedIds(m.resolutions) == l.writes.Keys
    ensures forall i, j :: 0 <= i < j < |m.resolutions| ==> m.resolutions[i].identity != m.resolutions[j].identity
  {
    DistinctCount(m.resolutions);
    assert OfRoute(l.writes, m.cutover.from.route) == l.writes.Keys;
    assert ResolvedIds(m.resolutions) <= l.writes.Keys by {
      forall k | k in ResolvedIds(m.resolutions) ensures k in l.writes.Keys {
        var i :| 0 <= i < |m.resolutions| && m.resolutions[i].identity == k;
        assert Confirms(l.writes, m.resolutions[i]);
      }
    }
    SameSizeSubset(ResolvedIds(m.resolutions), l.writes.Keys);
  }

  /** What one identity becomes under a resolution list that confirms it. */
  lemma {:induction false} ResolutionsAt(w: Writes, rs: seq<Resolution>, k: CommandIdentity)
    requires CanonicalResolutions(rs) && k in w
    requires forall i :: 0 <= i < |rs| ==> Confirms(w, rs[i])
    ensures var out := ApplyResolutions(w, rs);
            if k !in ResolvedIds(rs) || w[k].disposition.Pending? then k in out && out[k] == w[k]
            else if w[k].disposition.Recertified? then k in out && out[k] == Promoted(w[k], w[k].disposition)
            else k !in out
  {
    if rs != [] {
      var init, last := rs[..|rs| - 1], rs[|rs| - 1];
      forall i | 0 <= i < |init| ensures Confirms(w, init[i]) {
        assert init[i] == rs[i];
      }
      LastIsNew(rs);
      ResolvedIdsSplit(rs);
      ResolutionsAt(w, init, k);
      assert Confirms(w, last);
    }
  }

  lemma {:induction false} ResolutionsAddNothing(w: Writes, rs: seq<Resolution>)
    ensures ApplyResolutions(w, rs).Keys <= w.Keys
  {
    if rs != [] {
      ResolutionsAddNothing(w, rs[..|rs| - 1]);
    }
  }

  /** The writes a resolved cutover leaves, stated without the manifest: each
      recertified one as its recorded translation. */
  function Survivors(w: Writes): Writes {
    map k | k in w && w[k].disposition.Recertified? ::
      var d := w[k].disposition; WriteRecord(d.command, d.commandHash, d.to, Pending)
  }

  lemma {:induction false} NoneIsPending(w: Writes, rs: seq<Resolution>, k: CommandIdentity)
    requires k in ResolvedIds(rs)
    requires forall i :: 0 <= i < |rs| ==> Confirms(w, rs[i]) && !rs[i].disposition.Pending?
    ensures k in w && !w[k].disposition.Pending?
  {
    var i :| 0 <= i < |rs| && rs[i].identity == k;
    assert Confirms(w, rs[i]);
  }

  lemma {:induction false} ResolvedIsSurvivors(w: Writes, rs: seq<Resolution>)
    requires CanonicalResolutions(rs) && ResolvedIds(rs) == w.Keys
    requires forall i :: 0 <= i < |rs| ==> Confirms(w, rs[i]) && !rs[i].disposition.Pending?
    ensures ApplyResolutions(w, rs) == Survivors(w)
  {
    ResolutionsAddNothing(w, rs);
    forall k | k in w
      ensures k in ApplyResolutions(w, rs) <==> k in Survivors(w)
      ensures k in Survivors(w) ==> ApplyResolutions(w, rs)[k] == Survivors(w)[k]
    {
      NoneIsPending(w, rs, k);
      ResolutionsAt(w, rs, k);
    }
  }

  /** Activation keeps exactly the recertified writes, as their translations,
      pending under the target contract; every other write was aborted. */
  lemma {:induction false} ActivationKeepsSurvivors(h: Hashes, l: Lifecycle, m: Manifest, now: Membership)
    requires Inv(h, l) && ActivateCutover(h, l, m, now).Some?
    ensures ActivateCutover(h, l, m, now).value == Lifecycle(l.cutover.value.to, Survivors(l.writes), None)
    ensures forall k :: k in l.writes ==> !l.writes[k].disposition.Pending?
  {
    ManifestCoversWrites(h, l, m, now);
    ResolvedIsSurvivors(l.writes, m.resolutions);
    forall k | k in l.writes ensures !l.writes[k].disposition.Pending? {
      NoneIsPending(l.writes, m.resolutions, k);
    }
  }

  /** Promoting translations never raises the totals: they were already counted. */
  lemma {:induction false} SurvivorsShrink(w: Writes)
    ensures TotalBytes(Survivors(w)) <= TotalBytes(w) && |Survivors(w)| <= |w|
    decreases |w|
  {
    if w == map[] {
      assert Survivors(w) == map[];
    } else {
      var k := AnyIdentity(w);
      var s := Survivors(w);
      assert |w - {k}| < |w|;
      SurvivorsShrink(w - {k});
      TotalBytesSplit(w, k);
      assert s - {k} == Survivors(w - {k});
      if k in s {
        TotalBytesSplit(s, k);
        assert |s - {k}| == |s| - 1;
      } else {
        assert s - {k} == s;
      }
    }
  }

  lemma {:induction false} ActivateKeepsInv(h: Hashes, l: Lifecycle, m: Manifest, now: Membership)
    requires Inv(h, l) && ActivateCutover(h, l, m, now).Some?
    ensures Inv(h, ActivateCutover(h, l, m, now).value)
  {
    ActivationKeepsSurvivors(h, l, m, now);
    SurvivorsShrink(l.writes);
    forall k | k in Survivors(l.writes)
      ensures RecordOk(h, l.cutover.value.to, None, k, Survivors(l.writes)[k])
    {
      assert RecordOk(h, l.contract, l.cutover, k, l.writes[k]);
    }
  }

  /** Every action keeps the invariant. */
  lemma {:induction false} StepKeepsInv(h: Hashes, l: Lifecycle, a: Action)
    requires Inv(h, l)
    ensures Inv(h, After(h, l, a))
  {
    if Step(h, l, a).Some? {
      match a
      case Accept(commands) => AcceptKeepsInv(h, l, commands);
      case Complete(completions) => CompleteKeepsInv(h, l, completions);
      case Begin(to, membership) =>
      case Recertify(id, c) =>
        ResolveKeepsInv(h, l, id, Recertified(l.cutover.value.from, l.cutover.value.to, c, h.command(c)), |c.bytes|);
      case AbortWrite(id, reason) => ResolveKeepsInv(h, l, id, Aborted(l.cutover.value.from, reason), 0);
      case Cancel => CancelKeepsInv(h, l);
      case Activate(manifest, membership) => ActivateKeepsInv(h, l, manifest, membership);
      case Install(incoming, cutover) => InstallKeepsInv(h, l, incoming, cutover);
    }
  }

  /** Every reachable engine state satisfies the invariant. */
  lemma {:induction false} RunKeepsInv(h: Hashes, l: Lifecycle, actions: seq<Action>)
    requires Inv(h, l)
    ensures Inv(h, Run(h, l, actions))
  {
    if actions != [] {
      RunKeepsInv(h, l, actions[..|actions| - 1]);
      StepKeepsInv(h, Run(h, l, actions[..|actions| - 1]), actions[|actions| - 1]);
    }
  }

  /** The two ways a write may leave: completed by its current hash while
      pending, or resolved as aborted by the manifest that activates. */
  predicate LeavesOpenly(l: Lifecycle, a: Action, k: CommandIdentity)
    requires k in l.writes
  {
    match a
    case Complete(completions) =>
      l.writes[k].disposition.Pending? && (k, l.writes[k].commandHash) in completions
    case Activate(m, _) =>
      && l.writes[k].disposition.Aborted?
      && Resolution(k, l.writes[k].commandHash, l.writes[k].disposition) in m.resolutions
    case _ => false
  }

  /** How a write that stays may change: a resolution, its withdrawal, or its
      own recorded translation taking effect. */
  ghost predicate StaysFaithful(before: WriteRecord, after: WriteRecord, a: Action) {
    match a
    case Activate(_, _) =>
      && before.disposition.Recertified? && after.disposition.Pending?
      && after.command == before.disposition.command && after.commandHash == before.disposition.commandHash
      && after.contract == before.disposition.to
    case _ => after == before.(disposition := after.disposition)
  }

  /** One action: a write either stays, unaltered but for its resolution, or
      leaves in one of the two open ways. */
  lemma {:induction false} StepLosesNothing(h: Hashes, l: Lifecycle, a: Action, k: CommandIdentity)
    requires Inv(h, l) && k in l.writes && Step(h, l, a).Some?
    ensures k !in Step(h, l, a).value.writes <==> LeavesOpenly(l, a, k)
    ensures k in Step(h, l, a).value.writes ==>
              StaysFaithful(l.writes[k], Step(h, l, a).value.writes[k], a)
  {
    hide Inv, AcceptAll, ActivateCutover;
    match a
    case Accept(commands) => AcceptKeepsInv(h, l, commands);
    case Complete(completions) => CompletionNames(l, completions, k);
    case Activate(m, now) => ActivationNames(h, l, m, now, k);
    case _ =>
  }

  lemma {:induction false} ActivationNames(h: Hashes, l: Lifecycle, m: Manifest, now: Membership, k: CommandIdentity)
    requires Inv(h, l) && k in l.writes && ActivateCutover(h, l, m, now).Some?
    ensures var after := ActivateCutover(h, l, m, now).value.writes;
            && (k !in after <==> LeavesOpenly(l, Activate(m, now), k))
            && (k in after ==> StaysFaithful(l.writes[k], after[k], Activate(m, now)))
  {
    hide Inv;
    ActivationKeepsSurvivors(h, l, m, now);
    ManifestCoversWrites(h, l, m, now);
    var i :| 0 <= i < |m.resolutions| && m.resolutions[i].identity == k;
    assert Confirms(l.writes, m.resolutions[i]);
    assert m.resolutions[i] == Resolution(k, l.writes[k].commandHash, l.writes[k].disposition);
  }

  lemma {:induction false} CompletionNames(l: Lifecycle, completions: seq<(CommandIdentity, Digest)>,
                                           k: CommandIdentity)
    requires k in l.writes && CompleteAll(l, completions).Some?
    ensures k in Named(completions)
       <==> l.writes[k].disposition.Pending? && (k, l.writes[k].commandHash) in completions
  {
    if k in Named(completions) {
      var i :| 0 <= i < |completions| && completions[i].0 == k;
      assert Completable(l.writes, completions[i]);
      assert completions[i] == (k, l.writes[k].commandHash);
    }
    if (k, l.writes[k].commandHash) in completions {
      var i :| 0 <= i < |completions| && completions[i] == (k, l.writes[k].commandHash);
      assert completions[i].0 == k;
    }
  }

  /** Somewhere in the run the write left openly. */
  ghost predicate LeftOpenly(h: Hashes, l: Lifecycle, actions: seq<Action>, k: CommandIdentity) {
    exists i :: 0 <= i < |actions| && LeftAt(h, l, actions, k, i)
  }

  ghost predicate LeftAt(h: Hashes, l: Lifecycle, actions: seq<Action>, k: CommandIdentity, i: nat)
    requires i < |actions|
  {
    var before := Run(h, l, actions[..i]);
    k in before.writes && LeavesOpenly(before, actions[i], k) && Step(h, before, actions[i]).Some?
  }

  lemma {:induction false} LastStepLosesNothing(h: Hashes, l: Lifecycle, actions: seq<Action>, k: CommandIdentity)
    requires actions != [] && Inv(h, Run(h, l, actions[..|actions| - 1]))
    requires k in Run(h, l, actions[..|actions| - 1]).writes
    ensures k in Run(h, l, actions).writes || LeftAt(h, l, actions, k, |actions| - 1)
  {
    var before := Run(h, l, actions[..|actions| - 1]);
    if Step(h, before, actions[|actions| - 1]).Some? {
      StepLosesNothing(h, before, actions[|actions| - 1], k);
    }
  }

  lemma {:induction false} LeftEarlier(h: Hashes, l: Lifecycle, actions: seq<Action>, k: CommandIdentity, n: nat)
    requires n <= |actions| && LeftOpenly(h, l, actions[..n], k)
    ensures LeftOpenly(h, l, actions, k)
  {
    var i :| 0 <= i < n && LeftAt(h, l, actions[..n], k, i);
    assert actions[..n][..i] == actions[..i];
    assert LeftAt(h, l, actions, k, i);
  }

  /** No accepted write is silently lost on any run. */
  lemma {:induction false} NoSilentLoss(h: Hashes, l: Lifecycle, actions: seq<Action>, k: CommandIdentity)
    requires Inv(h, l) && k in l.writes
    ensures k in Run(h, l, actions).writes || LeftOpenly(h, l, actions, k)
  {
    if actions != [] {
      var n := |actions| - 1;
      RunKeepsInv(h, l, actions[..n]);
      NoSilentLoss(h, l, actions[..n], k);
      if k in Run(h, l, actions[..n]).writes {
        LastStepLosesNothing(h, l, actions, k);
      } else {
        LeftEarlier(h, l, actions, k, n);
      }
    }
  }

  /** Actions that may happen while a cutover is prepared, before it is
      cancelled or activated. */
  predicate Preparing(a: Action) {
    a.Recertify? || a.AbortWrite? || a.Complete? || a.Accept?
  }

  predicate SameCommands(base: Writes, w: Writes) {
    w.Keys <= base.Keys && forall k :: k in w ==> w[k].(disposition := Pending) == base[k]
  }

  /** Same contract and cutover, no new write, no altered command. */
  predicate Prepared(before: Lifecycle, after: Lifecycle) {
    && after.contract == before.contract && after.cutover == before.cutover
    && after.writes.Keys <= before.writes.Keys
    && forall k :: k in after.writes ==>
         after.writes[k].(disposition := Pending) == before.writes[k].(disposition := Pending)
  }

  lemma {:induction false} ResolvePrepares(l: Lifecycle, id: CommandIdentity, d: Disposition, extraBytes: nat)
    requires l.cutover.Some? && Resolve(l, id, d, extraBytes).Some?
    ensures Prepared(l, Resolve(l, id, d, extraBytes).value)
    ensures Resolve(l, id, d, extraBytes).value.writes.Keys == l.writes.Keys
  {
  }

  lemma {:induction false} FencedAccept(h: Hashes, l: Lifecycle, commands: seq<Command>)
    requires ValidContract(l.contract) && l.cutover.Some? && AcceptAll(h, l, commands).Some?
    ensures AcceptAll(h, l, commands).value == l
  {
    if commands != [] {
      AdditionsOk(h, l, commands);
      assert l.writes + map[] == l.writes;
    }
  }

  lemma {:induction false} PreparationStep(h: Hashes, l: Lifecycle, a: Action)
    requires Inv(h, l) && l.cutover.Some? && Preparing(a)
    ensures Prepared(l, After(h, l, a))
    ensures !a.Complete? ==> After(h, l, a).writes.Keys == l.writes.Keys
  {
    if Step(h, l, a).Some? {
      match a
      case Accept(commands) => FencedAccept(h, l, commands);
      case Recertify(id, c) =>
        ResolvePrepares(l, id, Recertified(l.cutover.value.from, l.cutover.value.to, c, h.command(c)), |c.bytes|);
      case AbortWrite(id, reason) => ResolvePrepares(l, id, Aborted(l.cutover.value.from, reason), 0);
      case Complete(completions) =>
    }
  }

  /** Preparation neither ends the cutover nor alters a command, and only a
      completion removes a write. */
  lemma {:induction false} PreparationKeepsCommands(h: Hashes, l: Lifecycle, actions: seq<Action>)
    requires Inv(h, l) && l.cutover.Some?
    requires forall k :: k in l.writes ==> l.writes[k].disposition.Pending?
    requires forall i :: 0 <= i < |actions| ==> Preparing(actions[i])
    ensures Run(h, l, actions).contract == l.contract && Run(h, l, actions).cutover == l.cutover
    ensures SameCommands(l.writes, Run(h, l, actions).writes)
    ensures (forall i :: 0 <= i < |actions| ==> !actions[i].Complete?) ==>
              Run(h, l, actions).writes.Keys == l.writes.Keys
  {
    hide Inv, After;
    if actions != [] {
      var n := |actions| - 1;
      var init := actions[..n];
      PreparationKeepsCommands(h, l, init);
      RunKeepsInv(h, l, init);
      PreparationStep(h, Run(h, l, init), actions[n]);
    }
  }

  /** Cancelling gives back the recorded writes that are still there. */
  lemma {:induction false} CancelAfter(h: Hashes, base: Writes, l: Lifecycle)
    requires Inv(h, l) && l.cutover.Some? && SameCommands(base, l.writes)
    ensures CancelCutover(l).value.writes.Keys == l.writes.Keys
    ensures forall k :: k in l.writes ==> CancelCutover(l).value.writes[k] == base[k]
    ensures l.writes.Keys == base.Keys ==> CancelCutover(l).value.writes == base
  {
    forall k | k in l.writes ensures Unresolved(l.writes, l.contract)[k] == base[k] {
      assert RecordOk(h, l.contract, l.cutover, k, l.writes[k]);
    }
  }

  /** Begin, prepare in any way, cancel: the writes not completed meanwhile are
      exactly as they were, and with no completion the whole state is, so the
      byte total and the commitment are too. */
  lemma {:induction false} CancelRestores(h: Hashes, l: Lifecycle, to: Contract, membership: Membership,
                                          actions: seq<Action>)
    requires Inv(h, l) && BeginCutover(l, to, membership).Some?
    requires forall i :: 0 <= i < |actions| ==> Preparing(actions[i])
    ensures var cancelled := CancelCutover(Run(h, BeginCutover(l, to, membership).value, actions));
            && cancelled.Some?
            && cancelled.value.contract == l.contract && cancelled.value.cutover == None
            && cancelled.value.writes.Keys <= l.writes.Keys
            && (forall k :: k in cancelled.value.writes ==> cancelled.value.writes[k] == l.writes[k])
            && ((forall i :: 0 <= i < |actions| ==> !actions[i].Complete?) ==> cancelled.value == l)
  {
    var begun := BeginCutover(l, to, membership).value;
    StepKeepsInv(h, l, Begin(to, membership));
    RunKeepsInv(h, begun, actions);
    PreparationKeepsCommands(h, begun, actions);
    CancelAfter(h, l.writes, Run(h, begun, actions));
  }
}
