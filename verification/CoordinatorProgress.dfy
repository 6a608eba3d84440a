/**
 What the coordinated stores can always still do: an accepted batch can be ordered,
 applied and released, and a cutover can be carried through with any choice of
 which writes are kept.
 */
module CoordinatorProgress {
  import opened Wrappers
  import opened HaTypes
  import opened HaPersist
  import opened HaLifecycle
  import opened HaRuns
  import opened HaManifest
  import opened LifecycleLaws
  import opened GlobalCompletion
  import opened OrderedModel
  import opened CoordinatorModel
  import opened CoordinatorRuns

  lemma {:induction false} OneMoreEvent(h: Hashes, s: Stores, events: seq<Event>, e: Event)
    ensures RunStores(h, s, events + [e]) == NextStores(h, RunStores(h, s, events), e)
  {
    hide NextStores;
    assert (events + [e])[..|events|] == events;
  }

  lemma {:induction false} FirstEvent(h: Hashes, s: Stores, e: Event)
    ensures RunStores(h, s, [e]) == NextStores(h, s, e)
  {
    hide NextStores;
    assert [e][..0] == [];
  }

  /** The ordered engine with one reference more, finalized but not yet applied. */
  function WithReference(o: Ordered, r: Reference): Ordered {
    o.(available := o.available + {r}, finalized := o.finalized + [r])
  }

  lemma {:induction false} ReferenceIsReached(o: Ordered, r: Reference)
    requires Sound(o) && r !in o.finalized
    ensures var o' := WithReference(o, r);
            var script := seq(|o'.finalized|, _ => Applies(Persisted));
            Sound(o') && Drive(o', o', false, r, script).outcome.Reached?
  {
    StepKeepsSound(o, MarkAvailable(r, o.contract));
    StepKeepsSound(NextOrdered(o, MarkAvailable(r, o.contract)), Finalize(r));
    DriveReaches(WithReference(o, r), r, |o.finalized|, seq(|o.finalized| + 1, _ => Applies(Persisted)));
  }

  /** A batch the lifecycle accepts is retained, all of it pending, when no cutover
      is active. */
  lemma {:induction false} AcceptedIsRetained(h: Hashes, l: Lifecycle, cs: seq<Command>)
    requires Inv(h, l) && l.cutover.None? && AcceptAll(h, l, cs).Some? && cs != []
    ensures var next := AcceptAll(h, l, cs).value;
            PresenceOf(h, next, cs).Retained? && AllPending(next, cs)
  {
    hide Inv, AcceptAll, PresenceOf, TotalBytes, Consistent, NewIds, NewBytes;
    var next := AcceptAll(h, l, cs).value;
    AcceptsExactly(h, l, cs);
    AcceptedIsHeld(h, l, cs);
    PresenceMeans(h, next, cs);
    StepKeepsInv(h, l, Accept(cs));
    assert After(h, l, Accept(cs)) == next;
    forall i | 0 <= i < |cs| ensures next.writes[cs[i].identity].disposition.Pending? {
      HeldWritesMean(h, next, cs[i].identity);
    }
  }

  /** Without the batch the lifecycle is as it was. */
  lemma {:induction false} ReleasedAsBefore(h: Hashes, l: Lifecycle, cs: seq<Command>)
    requires Inv(h, l) && AcceptAll(h, l, cs).Some?
    ensures ReleasedOf(AcceptAll(h, l, cs).value, cs) == ReleasedOf(l, cs)
  {
    hide Inv, AcceptAll;
    var next := AcceptAll(h, l, cs).value;
    AcceptedIsHeld(h, l, cs);
    forall k | k in next.writes && k !in l.writes ensures k in BatchIds(cs) {
      var i :| 0 <= i < |cs| && cs[i].identity == k;
    }
    assert next.writes - BatchIds(cs) == l.writes - BatchIds(cs);
  }

  /** From every reachable state without a cutover, a batch the lifecycle accepts can
      be carried through under a new reference: accepted, ordered, applied and
      released, with every other write as it was. */
  lemma {:induction false} BatchCanFinish(h: Hashes, s: Stores, cs: seq<Command>, r: Reference)
    returns (events: seq<Event>)
    requires Recoverable(h, s) && s.lifecycle.cutover.None? && r !in s.ordered.finalized
    requires cs != [] && AcceptAll(h, s.lifecycle, cs).Some?
    ensures var t := RunStores(h, s, events);
            && IsApplied(t.ordered, r) && t.ordered.contract == s.ordered.contract
            && t.lifecycle == s.lifecycle.(writes := s.lifecycle.writes - BatchIds(cs))
  {
    hide Inv, AcceptAll, PresenceOf, AllPending, Drive, IsApplied, Sound, TotalBytes;
    var o := WithReference(s.ordered, r);
    var script := seq(|o.finalized|, _ => Applies(Persisted));
    var q := Request(true, r, s.ordered.contract, cs, 0);
    var accepted := s.(lifecycle := AcceptAll(h, s.lifecycle, cs).value);
    AcceptedIsRetained(h, s.lifecycle, cs);
    ReleasedAsBefore(h, s.lifecycle, cs);
    ReferenceIsReached(s.ordered, r);
    DriveOutcome(o, o, false, r, script);
    var accept := LifecycleEvent(Accept(cs));
    var mark, finalize := OrderedEvent(MarkAvailable(r, s.ordered.contract)), OrderedEvent(Finalize(r));
    var complete := CompletionEvent(q, script, true);
    FirstEvent(h, s, accept);
    var ordering := [accept] + [mark];
    OneMoreEvent(h, s, [accept], mark);
    OneMoreEvent(h, s, ordering, finalize);
    events := ordering + [finalize] + [complete];
    OneMoreEvent(h, s, ordering + [finalize], complete);
    hide RunStores;
    assert RunStores(h, s, [accept]) == accepted;
    assert RunStores(h, s, ordering + [finalize]) == accepted.(ordered := o);
    assert Proceeds(h, accepted.(ordered := o), q);
  }

  /** How a write is resolved: as itself if it is to be kept. */
  function Choice(l: Lifecycle, keep: set<CommandIdentity>, k: CommandIdentity): Disposition
    requires l.cutover.Some? && k in l.writes
  {
    if k in keep
    then Recertified(l.contract, l.cutover.value.to, l.writes[k].command, l.writes[k].commandHash)
    else Aborted(l.contract, "dropped")
  }

  function Only(w: Writes, ids: set<CommandIdentity>): Writes {
    map k | k in w && k in ids :: w[k]
  }

  /** Of the writes of `l` those in `done` have been resolved. */
  ghost predicate ResolvedUpTo(l: Lifecycle, keep: set<CommandIdentity>, done: set<CommandIdentity>, now: Lifecycle) {
    && l.cutover.Some? && now.contract == l.contract && now.cutover == l.cutover && now.writes.Keys == l.writes.Keys
    && (forall k :: k in l.writes ==>
          now.writes[k] == if k in done then l.writes[k].(disposition := Choice(l, keep, k)) else l.writes[k])
    && TotalBytes(now.writes) <= TotalBytes(l.writes) + TotalBytes(Only(l.writes, done))
  }

  lemma {:induction false} OnlyGrows(h: Hashes, w: Writes, done: set<CommandIdentity>, k: CommandIdentity)
    requires k in w && k !in done
    ensures TotalBytes(Only(w, done + {k})) == TotalBytes(Only(w, done)) + RecordBytes(w[k])
    ensures TotalBytes(Only(w, done + {k})) <= TotalBytes(w)
  {
    assert Only(w, done + {k}) == Only(w, done)[k := w[k]];
    SummariesInsert(h, Only(w, done), k, w[k]);
    assert Only(w, done + {k}) == w - (w.Keys - (done + {k}));
    SubtractShrinks(w, w.Keys - (done + {k}));
  }

  /** The bytes after one more write is resolved. */
  lemma {:induction false} ResolutionBytes(h: Hashes, now: Lifecycle, next: Lifecycle, k: CommandIdentity,
                                           d: Disposition)
    requires Resolved(now, next, k, d) && now.writes[k].disposition.Pending?
    requires d.Recertified? ==> d.command == now.writes[k].command
    ensures TotalBytes(next.writes) <= TotalBytes(now.writes) + RecordBytes(now.writes[k])
  {
    hide TotalBytes;
    var r := now.writes[k].(disposition := d);
    assert next.writes == now.writes[k := r];
    SummariesReplace(h, now.writes, k, r);
  }

  lemma {:induction false} OneMoreResolved(h: Hashes, l: Lifecycle, keep: set<CommandIdentity>,
                                           done: set<CommandIdentity>, now: Lifecycle, next: Lifecycle,
                                           k: CommandIdentity)
    requires ResolvedUpTo(l, keep, done, now) && k in l.writes && k !in done && l.writes[k].disposition.Pending?
    requires Resolved(now, next, k, Choice(l, keep, k))
    ensures ResolvedUpTo(l, keep, done + {k}, next)
  {
    hide TotalBytes;
    assert now.writes[k] == l.writes[k];
    OnlyGrows(h, l.writes, done, k);
    ResolutionBytes(h, now, next, k, Choice(l, keep, k));
  }

  /** One more pending write can be resolved as chosen. */
  lemma {:induction false} ResolveNext(h: Hashes, l: Lifecycle, keep: set<CommandIdentity>, done: set<CommandIdentity>,
                                       now: Lifecycle, k: CommandIdentity)
    returns (a: Action)
    requires Inv(h, l) && Inv(h, now) && ResolvedUpTo(l, keep, done, now)
    requires k in l.writes && k !in done && l.writes[k].disposition.Pending?
    requires 2 * TotalBytes(l.writes) <= MAX_ACCEPTED_COMMAND_BYTES
    ensures PassedOn(a) && ResolvedUpTo(l, keep, done + {k}, After(h, now, a))
  {
    hide Inv, TotalBytes, Only, Resolved, After;
    OnlyGrows(h, l.writes, done, k);
    TotalBytesSplit(l.writes, k);
    a := ChoiceTakesEffect(h, l, keep, now, k);
    hide ResolvedUpTo;
    OneMoreResolved(h, l, keep, done, now, After(h, now, a), k);
  }

  lemma {:induction false} ChoiceTakesEffect(h: Hashes, l: Lifecycle, keep: set<CommandIdentity>, now: Lifecycle,
                                             k: CommandIdentity)
    returns (a: Action)
    requires Inv(h, l) && Inv(h, now) && l.cutover.Some? && now.contract == l.contract && now.cutover == l.cutover
    requires k in l.writes && k in now.writes && now.writes[k] == l.writes[k] && l.writes[k].disposition.Pending?
    requires TotalBytes(now.writes) + |l.writes[k].command.bytes| <= MAX_ACCEPTED_COMMAND_BYTES
    ensures PassedOn(a) && Resolved(now, After(h, now, a), k, Choice(l, keep, k))
  {
    hide Inv, TotalBytes, RecertifyAs, AbortAccepted;
    HeldWritesMean(h, l, k);
    if k in keep {
      a := Recertify(k, l.writes[k].command);
      RecertifiesExactly(h, now, k, l.writes[k].command);
    } else {
      a := AbortWrite(k, "dropped");
      AbortsExactly(h, now, k, "dropped");
    }
  }

  lemma {:induction false} NothingResolved(l: Lifecycle, keep: set<CommandIdentity>)
    requires l.cutover.Some?
    ensures ResolvedUpTo(l, keep, {}, l)
  {
  }

  /** Behind some events that led to a pending cutover, any of its writes can be
      resolved as chosen. */
  lemma {:induction false} ResolveAll(h: Hashes, s: Stores, before: seq<Event>, keep: set<CommandIdentity>,
                                      done: set<CommandIdentity>)
    returns (events: seq<Event>)
    requires var l := RunStores(h, s, before).lifecycle;
             && Inv(h, l) && l.cutover.Some? && done <= l.writes.Keys
             && (forall k :: k in l.writes ==> l.writes[k].disposition.Pending?)
             && 2 * TotalBytes(l.writes) <= MAX_ACCEPTED_COMMAND_BYTES
    ensures var t := RunStores(h, s, events);
            && Inv(h, t.lifecycle) && t.ordered == RunStores(h, s, before).ordered
            && ResolvedUpTo(RunStores(h, s, before).lifecycle, keep, done, t.lifecycle)
    decreases |done|
  {
    hide Inv, TotalBytes, RunStores;
    var l := RunStores(h, s, before).lifecycle;
    if done == {} {
      events := before;
      NothingResolved(l, keep);
    } else {
      var k :| k in done;
      var earlier := ResolveAll(h, s, before, keep, done - {k});
      var now := RunStores(h, s, earlier).lifecycle;
      var a := ResolveNext(h, l, keep, done - {k}, now, k);
      assert done - {k} + {k} == done;
      events := earlier + [LifecycleEvent(a)];
      OneMoreEvent(h, s, earlier, LifecycleEvent(a));
      StepKeepsInv(h, now, a);
    }
  }

  /** With nothing left to apply and room for the translations, a cutover to any
      later contract can be carried through, keeping exactly the chosen writes: both
      stores end on the target, the kept writes pending under it as they were. */
  lemma {:induction false} CutoverCanFinish(h: Hashes, s: Stores, to: Contract, now: Membership,
                                            keep: set<CommandIdentity>)
    returns (events: seq<Event>)
    requires Recoverable(h, s) && s.lifecycle.cutover.None? && Quiescent(s.ordered)
    requires to.spec >= 1 && to.route > s.lifecycle.contract.route && to.spec >= s.lifecycle.contract.spec
    requires 2 * TotalBytes(s.lifecycle.writes) <= MAX_ACCEPTED_COMMAND_BYTES
    ensures var t := RunStores(h, s, events);
            && t.ordered == s.ordered.(contract := to)
            && t.lifecycle.contract == to && t.lifecycle.cutover == None
            && t.lifecycle.writes.Keys == s.lifecycle.writes.Keys * keep
            && forall k :: k in t.lifecycle.writes ==>
                 t.lifecycle.writes[k] == s.lifecycle.writes[k].(contract := to)
  {
    hide Inv, TotalBytes, RunStores, OwnManifest, ActivateCutover, IsManifestOf, BeginCutover, ResolvedUpTo, Only;
    var begin := LifecycleEvent(Begin(to, now));
    FirstEvent(h, s, begin);
    BeginsExactly(s.lifecycle, to, now);
    StepKeepsInv(h, s.lifecycle, Begin(to, now));
    var begun := RunStores(h, s, [begin]).lifecycle;
    InvRecords(h, s.lifecycle);
    AllPendingWithout(h, s.lifecycle);
    var resolving := ResolveAll(h, s, [begin], keep, begun.writes.Keys);
    var mid := RunStores(h, s, resolving);
    var m := ResolvedActivates(h, begun, keep, mid.lifecycle);
    events := resolving + [ActivateEvent(m, now, Both)];
    OneMoreEvent(h, s, resolving, ActivateEvent(m, now, Both));
  }

  lemma {:induction false} AllPendingWithout(h: Hashes, l: Lifecycle)
    requires Inv(h, l) && l.cutover.None?
    ensures forall k :: k in l.writes ==> l.writes[k].disposition.Pending? && l.writes[k].contract == l.contract
  {
    hide TotalBytes;
    forall k | k in l.writes ensures l.writes[k].disposition.Pending? && l.writes[k].contract == l.contract {
      HeldWritesMean(h, l, k);
    }
  }

  /** With every write resolved as chosen the own manifest activates, keeping exactly
      the chosen ones. */
  lemma {:induction false} ResolvedActivates(h: Hashes, l: Lifecycle, keep: set<CommandIdentity>, now: Lifecycle)
    returns (m: Manifest)
    requires Inv(h, now) && ResolvedUpTo(l, keep, l.writes.Keys, now)
    requires forall k :: k in l.writes ==> l.writes[k].disposition.Pending?
    ensures l.cutover == Some(m.cutover) && now.cutover == l.cutover && now.contract == l.contract
    ensures var out := ActivateCutover(h, now, m, m.cutover.membership);
            && out.Some? && out.value.contract == m.cutover.to && out.value.cutover == None
            && out.value.writes.Keys == l.writes.Keys * keep
            && forall k :: k in out.value.writes ==> out.value.writes[k] == l.writes[k].(contract := m.cutover.to)
  {
    hide Inv, TotalBytes, OwnManifest, ActivateCutover, IsManifestOf;
    OwnManifestExists(h, now);
    m := OwnManifest(h, now).value;
    ManifestCutover(h, now, m);
    OwnManifestActivates(h, now, m, m.cutover.membership);
    ActivationOutcome(h, now, m, m.cutover.membership);
    var out := ActivateCutover(h, now, m, m.cutover.membership).value;
    forall k | k in l.writes
      ensures k in out.writes <==> k in keep
      ensures k in keep ==> out.writes[k] == l.writes[k].(contract := m.cutover.to)
    {
      assert now.writes[k].disposition == Choice(l, keep, k);
    }
  }
}
