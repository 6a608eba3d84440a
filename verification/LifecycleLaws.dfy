/**
 What each lifecycle action means, stated over the records themselves: when it is
 accepted, and exactly which writes the engine then holds.
 */
module LifecycleLaws {
  import opened Wrappers
  import opened Digests
  import opened HaTypes
  import opened HaLifecycle
  import opened HaRuns

  /** Identities are strictly and totally ordered, client before epoch before
      sequence. */
  lemma {:induction false} IdentitiesAreOrdered(a: CommandIdentity, b: CommandIdentity, c: CommandIdentity)
    ensures !Precedes(a, a) && (Precedes(a, b) || Precedes(b, a) || a == b)
    ensures Precedes(a, b) && Precedes(b, c) ==> Precedes(a, c)
    ensures a.clientId < b.clientId || (a.clientId == b.clientId && a.clientEpoch < b.clientEpoch) ==> Precedes(a, b)
  {
  }

  /** A record is valid exactly when command and hash fit, the contract is valid, and
      a resolution translates the same identity to a later contract or gives a
      bounded reason under the record's own one. */
  lemma {:induction false} RecordValidExactly(h: Hashes, r: WriteRecord)
    ensures ValidRecord(h, r) <==>
              && r.command.identity.sequence >= 1 && 1 <= |r.command.bytes| <= MAX_APPLICATION_COMMAND_BYTES
              && r.contract.route >= 1 && r.contract.spec >= 1 && r.commandHash == h.command(r.command)
              && (r.disposition.Recertified? ==>
                    var d := r.disposition;
                    && d.from == r.contract && d.to.route > r.contract.route && d.to.spec >= r.contract.spec
                    && d.command.identity == r.command.identity && d.commandHash == h.command(d.command)
                    && 1 <= |d.command.bytes| <= MAX_APPLICATION_COMMAND_BYTES)
              && (r.disposition.Aborted? ==>
                    r.disposition.contract == r.contract && 1 <= |r.disposition.reason| <= MAX_ABORT_REASON_BYTES)
  {
  }

  /** What the invariant says of every held write: it is filed under its own
      identity with its own hash, was accepted under the engine's contract, and is
      pending unless this very cutover resolved it. */
  lemma {:induction false} HeldWritesMean(h: Hashes, l: Lifecycle, k: CommandIdentity)
    requires Inv(h, l) && k in l.writes
    ensures var r := l.writes[k];
            && r.command.identity == k && r.commandHash == h.command(r.command) && r.contract == l.contract
            && 1 <= |r.command.bytes| <= MAX_APPLICATION_COMMAND_BYTES && k.sequence >= 1
            && match r.disposition
               case Pending => true
               case Recertified(from, to, c, hash) =>
                 && l.cutover.Some? && from == l.contract && to == l.cutover.value.to
                 && c.identity == k && hash == h.command(c) && 1 <= |c.bytes| <= MAX_APPLICATION_COMMAND_BYTES
               case Aborted(contract, reason) =>
                 l.cutover.Some? && contract == l.contract && 1 <= |reason| <= MAX_ABORT_REASON_BYTES
    ensures l.contract.route >= 1 && l.contract.spec >= 1
    ensures l.cutover.Some? ==>
              && l.cutover.value.from == l.contract && l.cutover.value.to.route > l.contract.route
              && l.cutover.value.to.spec >= l.contract.spec
    ensures |l.writes| <= MAX_ACCEPTED_WRITES && TotalBytes(l.writes) <= MAX_ACCEPTED_COMMAND_BYTES
  {
    assert RecordOk(h, l.contract, l.cutover, k, l.writes[k]);
  }

  /** Bytes of the commands a batch adds, each new identity counted once. */
  function NewBytes(w: Writes, cs: seq<Command>): nat {
    if cs == [] then 0
    else
      var n := |cs| - 1;
      NewBytes(w, cs[..n])
      + (if cs[n].identity in w || (exists j :: 0 <= j < n && cs[j].identity == cs[n].identity) then 0
         else |cs[n].bytes|)
  }

  /** Identities a batch adds. */
  function NewIds(w: Writes, cs: seq<Command>): set<CommandIdentity> {
    set i | 0 <= i < |cs| && cs[i].identity !in w :: cs[i].identity
  }

  /** No command contradicts an accepted one or an earlier one of the batch, and a
      cutover admits nothing new. */
  predicate Consistent(h: Hashes, l: Lifecycle, cs: seq<Command>) {
    && (forall i :: 0 <= i < |cs| && cs[i].identity in l.writes ==>
          l.writes[cs[i].identity].commandHash == h.command(cs[i]))
    && (forall i, j :: 0 <= i < j < |cs| && cs[i].identity == cs[j].identity ==> h.command(cs[i]) == h.command(cs[j]))
    && (l.cutover.Some? ==> forall i :: 0 <= i < |cs| ==> cs[i].identity in l.writes)
  }

  /** A new record is one of the batch's commands, pending under the contract. */
  ghost predicate FromBatch(h: Hashes, contract: Contract, cs: seq<Command>, r: WriteRecord) {
    exists i :: 0 <= i < |cs| && r == WriteRecord(cs[i], h.command(cs[i]), contract, Pending)
  }

  ghost predicate Adds(h: Hashes, l: Lifecycle, cs: seq<Command>, adds: Writes) {
    && adds.Keys == NewIds(l.writes, cs)
    && (forall k :: k in adds ==> FromBatch(h, l.contract, cs, adds[k]) && adds[k].command.identity == k)
    && (forall i :: 0 <= i < |cs| && cs[i].identity !in l.writes ==>
          cs[i].identity in adds && adds[cs[i].identity].commandHash == h.command(cs[i]))
    && TotalBytes(l.writes + adds) == TotalBytes(l.writes) + NewBytes(l.writes, cs)
  }

  lemma {:induction false} NewIdsNext(w: Writes, cs: seq<Command>)
    requires cs != []
    ensures var n := |cs| - 1;
            NewIds(w, cs) == NewIds(w, cs[..n]) + (if cs[n].identity in w then {} else {cs[n].identity})
    ensures var n := |cs| - 1;
            cs[n].identity in NewIds(w, cs[..n])
            <==> cs[n].identity !in w && exists j :: 0 <= j < n && cs[j].identity == cs[n].identity
  {
    var n := |cs| - 1;
    forall k | k in NewIds(w, cs[..n]) ensures k in NewIds(w, cs) && exists j :: 0 <= j < n && cs[j].identity == k {
      var j :| 0 <= j < n && cs[..n][j].identity == k && k !in w;
      assert cs[j].identity == k;
    }
    forall j | 0 <= j < n && cs[j].identity !in w ensures cs[j].identity in NewIds(w, cs[..n]) {
      assert cs[..n][j].identity == cs[j].identity;
    }
    if cs[n].identity !in w {
      assert cs[n].identity in NewIds(w, cs);
    }
  }

  lemma {:induction false} FromBatchGrows(h: Hashes, contract: Contract, cs: seq<Command>, r: WriteRecord)
    requires cs != [] && FromBatch(h, contract, cs[..|cs| - 1], r)
    ensures FromBatch(h, contract, cs, r)
  {
    var init := cs[..|cs| - 1];
    var i :| 0 <= i < |init| && r == WriteRecord(init[i], h.command(init[i]), contract, Pending);
    assert cs[i] == init[i];
  }

  /** One more command that agrees with what is there keeps the description. */
  lemma {:induction false} KnownAddsNothing(h: Hashes, l: Lifecycle, cs: seq<Command>, adds: Writes)
    requires cs != [] && Adds(h, l, cs[..|cs| - 1], adds)
    requires var c := cs[|cs| - 1];
             c.identity in l.writes || (c.identity in adds && adds[c.identity].commandHash == h.command(c))
    ensures Adds(h, l, cs, adds)
  {
    hide TotalBytes, NewIds, FromBatch;
    var n := |cs| - 1;
    NewIdsNext(l.writes, cs);
    forall k | k in adds ensures FromBatch(h, l.contract, cs, adds[k]) {
      FromBatchGrows(h, l.contract, cs, adds[k]);
    }
    assert forall i :: 0 <= i < n ==> cs[..n][i] == cs[i];
  }

  /** A new command is added as itself. */
  lemma {:induction false} NewIsAdded(h: Hashes, l: Lifecycle, cs: seq<Command>, adds: Writes)
    requires cs != [] && Adds(h, l, cs[..|cs| - 1], adds)
    requires cs[|cs| - 1].identity !in l.writes && cs[|cs| - 1].identity !in adds
    ensures var c := cs[|cs| - 1];
            Adds(h, l, cs, adds[c.identity := WriteRecord(c, h.command(c), l.contract, Pending)])
  {
    hide TotalBytes, NewIds, FromBatch;
    var n := |cs| - 1;
    var c := cs[n];
    var r := WriteRecord(c, h.command(c), l.contract, Pending);
    NewIdsNext(l.writes, cs);
    forall k | k in adds ensures FromBatch(h, l.contract, cs, adds[k]) {
      FromBatchGrows(h, l.contract, cs, adds[k]);
    }
    LastFromBatch(h, l.contract, cs);
    NewBytesCount(h, l, cs, adds, r);
    assert forall i :: 0 <= i < n ==> cs[..n][i] == cs[i];
  }

  lemma {:induction false} LastFromBatch(h: Hashes, contract: Contract, cs: seq<Command>)
    requires cs != []
    ensures FromBatch(h, contract, cs, WriteRecord(cs[|cs| - 1], h.command(cs[|cs| - 1]), contract, Pending))
  {
    var n := |cs| - 1;
    assert WriteRecord(cs[n], h.command(cs[n]), contract, Pending)
        == WriteRecord(cs[|cs| - 1], h.command(cs[|cs| - 1]), contract, Pending);
  }

  lemma {:induction false} NewBytesCount(h: Hashes, l: Lifecycle, cs: seq<Command>, adds: Writes, r: WriteRecord)
    requires cs != [] && adds.Keys == NewIds(l.writes, cs[..|cs| - 1])
    requires cs[|cs| - 1].identity !in l.writes && cs[|cs| - 1].identity !in adds
    requires TotalBytes(l.writes + adds) == TotalBytes(l.writes) + NewBytes(l.writes, cs[..|cs| - 1])
    requires r.command == cs[|cs| - 1] && r.disposition.Pending?
    ensures TotalBytes(l.writes + adds[cs[|cs| - 1].identity := r]) == TotalBytes(l.writes) + NewBytes(l.writes, cs)
  {
    hide TotalBytes, NewIds;
    var id := cs[|cs| - 1].identity;
    NewIdsNext(l.writes, cs);
    SummariesInsert(h, l.writes + adds, id, r);
    assert (l.writes + adds)[id := r] == l.writes + adds[id := r];
  }

  lemma {:induction false} ConsistentPrefix(h: Hashes, l: Lifecycle, cs: seq<Command>)
    requires cs != [] && Consistent(h, l, cs)
    ensures Consistent(h, l, cs[..|cs| - 1])
  {
  }

  /** The admission fold accepts exactly the consistent lists and adds exactly
      their new commands. */
  lemma {:induction false} AdditionsMean(h: Hashes, l: Lifecycle, cs: seq<Command>)
    ensures Additions(h, l, cs).Some? <==> Consistent(h, l, cs)
    ensures Additions(h, l, cs).Some? ==> Adds(h, l, cs, Additions(h, l, cs).value)
  {
    hide TotalBytes, Adds;
    if cs == [] {
      NothingAdded(h, l, cs);
    } else {
      var n := |cs| - 1;
      AdditionsMean(h, l, cs[..n]);
      if Consistent(h, l, cs) {
        ConsistentPrefix(h, l, cs);
      }
      if Additions(h, l, cs[..n]).Some? {
        var adds := Additions(h, l, cs[..n]).value;
        HeldInAdds(h, l, cs, adds);
        if Additions(h, l, cs).Some? {
          if cs[n].identity in l.writes || cs[n].identity in adds {
            KnownAddsNothing(h, l, cs, adds);
          } else {
            NewIsAdded(h, l, cs, adds);
          }
        }
      }
    }
  }

  lemma {:induction false} NothingAdded(h: Hashes, l: Lifecycle, cs: seq<Command>)
    requires cs == []
    ensures Adds(h, l, cs, map[])
  {
    assert l.writes + map[] == l.writes;
    assert NewIds(l.writes, cs) == {};
  }

  /** The last command of a list against what the ones before it added. */
  lemma {:induction false} HeldInAdds(h: Hashes, l: Lifecycle, cs: seq<Command>, adds: Writes)
    requires cs != [] && Consistent(h, l, cs[..|cs| - 1]) && Adds(h, l, cs[..|cs| - 1], adds)
    ensures var c := cs[|cs| - 1];
            Consistent(h, l, cs) <==>
              if c.identity in l.writes then l.writes[c.identity].commandHash == h.command(c)
              else if c.identity in adds then adds[c.identity].commandHash == h.command(c)
              else l.cutover.None?
  {
    hide TotalBytes;
    var n := |cs| - 1;
    var c := cs[n];
    forall i | 0 <= i < n ensures cs[..n][i] == cs[i] {
    }
    if c.identity in adds {
      var i :| 0 <= i < n && adds[c.identity] == WriteRecord(cs[..n][i], h.command(cs[..n][i]), l.contract, Pending);
      assert cs[i].identity == c.identity && h.command(cs[i]) == adds[c.identity].commandHash;
    }
  }

  /** A batch is accepted exactly when it is small enough, every command is valid,
      none contradicts an accepted one or another of the batch, nothing is new
      while a cutover fences admission, and the count and bytes of what is new
      still fit. */
  lemma {:induction false} AcceptsExactly(h: Hashes, l: Lifecycle, cs: seq<Command>)
    requires Inv(h, l)
    ensures AcceptAll(h, l, cs).Some? <==>
              && |cs| <= MAX_ACCEPTED_WRITES
              && (forall i :: 0 <= i < |cs| ==>
                    cs[i].identity.sequence >= 1 && 1 <= |cs[i].bytes| <= MAX_APPLICATION_COMMAND_BYTES)
              && Consistent(h, l, cs)
              && |l.writes| + |NewIds(l.writes, cs)| <= MAX_ACCEPTED_WRITES
              && TotalBytes(l.writes) + NewBytes(l.writes, cs) <= MAX_ACCEPTED_COMMAND_BYTES
  {
    hide TotalBytes;
    AdditionsMean(h, l, cs);
    if cs == [] {
      assert NewIds(l.writes, cs) == {};
    } else if Additions(h, l, cs).Some? {
      var adds := Additions(h, l, cs).value;
      assert |adds.Keys| == |adds|;
    }
  }

  /** An accepted batch is held: every command of it, by its hash, beside every
      write that was there; and nothing else is. */
  lemma {:induction false} AcceptedIsHeld(h: Hashes, l: Lifecycle, cs: seq<Command>)
    requires Inv(h, l) && AcceptAll(h, l, cs).Some?
    ensures var next := AcceptAll(h, l, cs).value;
            && next.contract == l.contract && next.cutover == l.cutover
            && (forall i :: 0 <= i < |cs| ==>
                  cs[i].identity in next.writes && next.writes[cs[i].identity].commandHash == h.command(cs[i]))
            && (forall k :: k in l.writes ==> k in next.writes && next.writes[k] == l.writes[k])
            && (forall k :: k in next.writes && k !in l.writes ==>
                  exists i :: 0 <= i < |cs| && cs[i].identity == k
                              && next.writes[k] == WriteRecord(cs[i], h.command(cs[i]), l.contract, Pending))
  {
    hide TotalBytes;
    AdditionsMean(h, l, cs);
    if cs != [] {
      var adds := Additions(h, l, cs).value;
      forall k | k in adds
        ensures k !in l.writes
        ensures exists i :: 0 <= i < |cs| && cs[i].identity == k
                            && adds[k] == WriteRecord(cs[i], h.command(cs[i]), l.contract, Pending)
      {
        assert k in NewIds(l.writes, cs);
        var i :| 0 <= i < |cs| && adds[k] == WriteRecord(cs[i], h.command(cs[i]), l.contract, Pending);
        assert cs[i].identity == k;
      }
    }
  }

  /** A completion batch is accepted exactly when every entry names a held,
      pending write by its hash; then exactly the named writes are gone. */
  lemma {:induction false} CompletesExactly(l: Lifecycle, cs: seq<(CommandIdentity, Digest)>)
    ensures CompleteAll(l, cs).Some? <==>
              && |cs| <= MAX_ACCEPTED_WRITES
              && forall i :: 0 <= i < |cs| ==>
                   cs[i].0 in l.writes && l.writes[cs[i].0].commandHash == cs[i].1
                   && l.writes[cs[i].0].disposition.Pending?
    ensures CompleteAll(l, cs).Some? ==>
              var next := CompleteAll(l, cs).value;
              && next.contract == l.contract && next.cutover == l.cutover
              && (forall k :: k in next.writes <==>
                    k in l.writes && forall i :: 0 <= i < |cs| ==> cs[i].0 != k)
              && forall k :: k in next.writes ==> next.writes[k] == l.writes[k]
  {
    if CompleteAll(l, cs).None? && |cs| <= MAX_ACCEPTED_WRITES {
      var i :| 0 <= i < |cs| && !Completable(l.writes, cs[i]);
    } else if CompleteAll(l, cs).Some? {
      forall i | 0 <= i < |cs| ensures Completable(l.writes, cs[i]) && cs[i].0 in Named(cs) {
      }
      forall k | k in Named(cs) ensures exists i :: 0 <= i < |cs| && cs[i].0 == k {
      }
    }
  }

  /** A cutover begins exactly when none is active and the target is a valid
      contract with a later route and no earlier command spec. */
  lemma {:induction false} BeginsExactly(l: Lifecycle, to: Contract, membership: Membership)
    ensures BeginCutover(l, to, membership).Some? <==>
              && l.cutover.None? && to.spec >= 1 && to.route > l.contract.route && to.spec >= l.contract.spec
    ensures BeginCutover(l, to, membership).Some? ==>
              BeginCutover(l, to, membership).value
              == Lifecycle(l.contract, l.writes, Some(Cutover(l.contract, to, membership)))
  {
  }

  /** Exactly one write changed, and only in how it was resolved. */
  ghost predicate Resolved(l: Lifecycle, next: Lifecycle, id: CommandIdentity, d: Disposition) {
    && next.contract == l.contract && next.cutover == l.cutover && next.writes.Keys == l.writes.Keys
    && (forall k :: k in l.writes && k != id ==> next.writes[k] == l.writes[k])
    && id in l.writes && next.writes[id] == WriteRecord(l.writes[id].command, l.writes[id].commandHash,
                                                        l.writes[id].contract, d)
  }

  /** A write is recertified exactly when a cutover is active, the translation is
      valid and keeps the identity, and the write is held and either so recertified
      already or pending with room for the translation's bytes. */
  lemma {:induction false} RecertifiesExactly(h: Hashes, l: Lifecycle, id: CommandIdentity, c: Command)
    requires Inv(h, l)
    ensures RecertifyAs(h, l, id, c).Some? <==>
              && l.cutover.Some? && id in l.writes && c.identity == id && id.sequence >= 1
              && 1 <= |c.bytes| <= MAX_APPLICATION_COMMAND_BYTES
              && (l.writes[id].disposition == Recertified(l.contract, l.cutover.value.to, c, h.command(c))
                  || (l.writes[id].disposition.Pending?
                      && TotalBytes(l.writes) + |c.bytes| <= MAX_ACCEPTED_COMMAND_BYTES))
    ensures RecertifyAs(h, l, id, c).Some? ==>
              Resolved(l, RecertifyAs(h, l, id, c).value, id,
                       Recertified(l.contract, l.cutover.value.to, c, h.command(c)))
  {
    hide TotalBytes;
    if id in l.writes {
      assert RecordOk(h, l.contract, l.cutover, id, l.writes[id]);
    }
  }

  /** A write is aborted exactly when a cutover is active, the reason is bounded
      and not empty, and the write is held and pending or so aborted already. */
  lemma {:induction false} AbortsExactly(h: Hashes, l: Lifecycle, id: CommandIdentity, reason: string)
    requires Inv(h, l)
    ensures AbortAccepted(l, id, reason).Some? <==>
              && l.cutover.Some? && id in l.writes && 1 <= |reason| <= MAX_ABORT_REASON_BYTES
              && (l.writes[id].disposition.Pending? || l.writes[id].disposition == Aborted(l.contract, reason))
    ensures AbortAccepted(l, id, reason).Some? ==>
              Resolved(l, AbortAccepted(l, id, reason).value, id, Aborted(l.contract, reason))
  {
    hide TotalBytes;
    if id in l.writes {
      assert RecordOk(h, l.contract, l.cutover, id, l.writes[id]);
    }
  }

  /** Cancelling needs an active cutover, and leaves every write pending with its
      original command. */
  lemma {:induction false} CancelsExactly(h: Hashes, l: Lifecycle)
    requires Inv(h, l)
    ensures CancelCutover(l).Some? <==> l.cutover.Some?
    ensures CancelCutover(l).Some? ==>
              var next := CancelCutover(l).value;
              && next.contract == l.contract && next.cutover == None && next.writes.Keys == l.writes.Keys
              && forall k :: k in l.writes ==>
                   next.writes[k] == WriteRecord(l.writes[k].command, l.writes[k].commandHash, l.contract, Pending)
  {
    InvRecords(h, l);
  }

  /** A successful activation leaves, under the target contract and with no
      cutover, exactly the recertified writes, each as the command and hash it was
      recertified to and pending; every other write had been aborted and is gone. */
  lemma {:induction false} ActivationOutcome(h: Hashes, l: Lifecycle, m: Manifest, now: Membership)
    requires Inv(h, l) && ActivateCutover(h, l, m, now).Some?
    ensures var next := ActivateCutover(h, l, m, now).value;
            && l.cutover.Some? && next.contract == l.cutover.value.to && next.cutover == None
            && (forall k :: k in l.writes ==>
                  match l.writes[k].disposition
                  case Recertified(_, _, c, hash) =>
                    && k in next.writes && next.writes[k].command == c && next.writes[k].commandHash == hash
                    && next.writes[k].contract == l.cutover.value.to && next.writes[k].disposition == Pending
                  case Aborted(_, _) => k !in next.writes
                  case Pending => false)
            && next.writes.Keys <= l.writes.Keys
  {
    assert l.cutover == Some(m.cutover);
    hide Inv, ActivateCutover;
    ActivationKeepsSurvivors(h, l, m, now);
    InvRecords(h, l);
  }

  /** Recertified as itself, a write comes out of the cutover with its own command
      and hash. */
  lemma {:induction false} SameCommandSurvives(h: Hashes, l: Lifecycle, id: CommandIdentity, m: Manifest,
                                               now: Membership)
    requires Inv(h, l) && id in l.writes && l.writes[id].disposition.Recertified?
    requires l.writes[id].disposition.command == l.writes[id].command && ActivateCutover(h, l, m, now).Some?
    ensures var next := ActivateCutover(h, l, m, now).value;
            && id in next.writes && next.writes[id].command == l.writes[id].command
            && next.writes[id].commandHash == l.writes[id].commandHash
  {
    hide ActivateCutover, Inv;
    ActivationOutcome(h, l, m, now);
    HeldWritesMean(h, l, id);
  }
}
