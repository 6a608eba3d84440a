/**
 The computations each lifecycle mutator makes before it persists: checks in the
 source's order, running totals, and the delta. Each is proved to plan exactly
 the state the lifecycle action specifies, or to refuse exactly when it does.
 */
module HaPlans {
  import opened Wrappers
  import opened Digests
  import opened HaTypes
  import opened HaLifecycle
  import opened HaStore
  import opened HaReload
  import opened HaPersist

  /** Commands one shard prepared, each with its hash. */
  datatype Batch = Batch(commands: seq<Command>, hashes: seq<Digest>)

  predicate PreparedBatch(h: Hashes, b: Batch) {
    && |b.commands| == |b.hashes|
    && forall i :: 0 <= i < |b.commands| ==> ValidCommand(b.commands[i]) && h.command(b.commands[i]) == b.hashes[i]
  }

  /** Hashes and validates the commands of one shard. */
  method Prepare(h: Hashes, commands: seq<Command>) returns (r: Option<Batch>)
    ensures r.Some? <==>
              |commands| <= MAX_ACCEPTED_WRITES && forall i :: 0 <= i < |commands| ==> ValidCommand(commands[i])
    ensures r.Some? ==> PreparedBatch(h, r.value) && r.value.commands == commands
  {
    if |commands| > MAX_ACCEPTED_WRITES {
      return None;
    }
    var hashes: seq<Digest> := [];
    for i := 0 to |commands|
      invariant |hashes| == i
      invariant forall j :: 0 <= j < i ==> ValidCommand(commands[j]) && hashes[j] == h.command(commands[j])
    {
      if !ValidCommand(commands[i]) {
        return None;
      }
      hashes := hashes + [h.command(commands[i])];
    }
    return Some(Batch(commands, hashes));
  }

  /** The engine's running summaries describe its writes. */
  ghost predicate Summarised(h: Hashes, w: Writes, bytes: nat, commitment: Digest) {
    bytes == TotalBytes(w) && commitment == Commitment(h, w)
  }

  lemma {:induction false} AddedSummaries(h: Hashes, w: Writes, adds: Writes, k: CommandIdentity, r: WriteRecord)
    requires k !in w && k !in adds
    ensures TotalBytes(w + adds[k := r]) == TotalBytes(w + adds) + RecordBytes(r)
    ensures Commitment(h, w + adds[k := r]) == Xor(Commitment(h, w + adds), RecordCommitment(h, r))
  {
    SummariesInsert(h, w + adds, k, r);
    assert (w + adds)[k := r] == w + adds[k := r];
  }

  /** A refused command refuses the whole list. */
  lemma {:induction false} AdditionsRefused(h: Hashes, l: Lifecycle, commands: seq<Command>, i: nat)
    requires i <= |commands| && Additions(h, l, commands[..i]).None?
    ensures Additions(h, l, commands).None?
  {
    if i < |commands| {
      assert commands[..|commands| - 1][..i] == commands[..i];
      AdditionsRefused(h, l, commands[..|commands| - 1], i);
    } else {
      assert commands[..i] == commands;
    }
  }

  /** Folds the commands over the accepted writes, keeping the totals. */
  method FoldAdditions(h: Hashes, l: Lifecycle, bytes: nat, commitment: Digest, batch: Batch)
    returns (r: Option<Writes>, nextBytes: nat, nextCommitment: Digest)
    requires PreparedBatch(h, batch) && Summarised(h, l.writes, bytes, commitment)
    ensures r == Additions(h, l, batch.commands)
    ensures r.Some? ==> Summarised(h, l.writes + r.value, nextBytes, nextCommitment)
  {
    hide Xor, TotalBytes, Commitment, RecordCommitment;
    ghost var cs := batch.commands;
    var adds: Writes := map[];
    nextBytes, nextCommitment := bytes, commitment;
    assert l.writes + adds == l.writes;
    for i := 0 to |batch.commands|
      invariant Additions(h, l, cs[..i]) == Some(adds)
      invariant Summarised(h, l.writes + adds, nextBytes, nextCommitment)
    {
      assert cs[..i + 1][..i] == cs[..i];
      var command, hash := batch.commands[i], batch.hashes[i];
      if command.identity in l.writes {
        if l.writes[command.identity].commandHash != hash {
          AdditionsRefused(h, l, cs, i + 1);
          return None, 0, hash;
        }
      } else if command.identity in adds {
        if adds[command.identity].commandHash != hash {
          AdditionsRefused(h, l, cs, i + 1);
          return None, 0, hash;
        }
      } else if l.cutover.Some? {
        AdditionsRefused(h, l, cs, i + 1);
        return None, 0, hash;
      } else {
        var record := WriteRecord(command, hash, l.contract, Pending);
        AddedSummaries(h, l.writes, adds, command.identity, record);
        nextBytes := nextBytes + |command.bytes|;
        nextCommitment := Xor(nextCommitment, RecordCommitment(h, record));
        adds := adds[command.identity := record];
      }
    }
    assert cs[..|batch.commands|] == cs;
    r := Some(adds);
  }

  /** Upserting a listing of the additions adds exactly them. */
  lemma {:induction false} UpsertsAdd(hc: HaCodec, w: Writes, adds: Writes, upserts: seq<WriteRecord>)
    requires IsListing(upserts, adds) && forall k :: k in adds ==> adds[k].command.identity == k
    ensures ApplyDelta(w, SealedDelta(hc, upserts, [])) == w + adds
  {
    ListingIsWrites(upserts, adds);
  }

  lemma {:induction false} ListedRecordsOk(h: Hashes, contract: Contract, cutover: Option<Cutover>, w: Writes,
                                           records: seq<WriteRecord>)
    requires IsListing(records, w) && forall k :: k in w ==> RecordOk(h, contract, cutover, k, w[k])
    ensures forall i :: 0 <= i < |records| ==> ValidRecord(h, records[i])
  {
    forall i | 0 <= i < |records| ensures ValidRecord(h, records[i]) {
      var k := records[i].command.identity;
      assert RecordOk(h, contract, cutover, k, w[k]);
    }
  }

  /** When a prepared batch is accepted, and what it leads to. */
  lemma {:induction false} AcceptDecides(h: Hashes, l: Lifecycle, batch: Batch)
    requires PreparedBatch(h, batch) && 0 < |batch.commands| <= MAX_ACCEPTED_WRITES
    ensures var adds := Additions(h, l, batch.commands);
            && (AcceptAll(h, l, batch.commands).Some? <==>
                  && adds.Some? && |l.writes| + |adds.value| <= MAX_ACCEPTED_WRITES
                  && TotalBytes(l.writes + adds.value) <= MAX_ACCEPTED_COMMAND_BYTES)
            && (AcceptAll(h, l, batch.commands).Some? ==>
                  AcceptAll(h, l, batch.commands).value == l.(writes := l.writes + adds.value))
  {
  }

  lemma {:induction false} AcceptPlanIsGood(hc: HaCodec, l: Lifecycle, batch: Batch, adds: Writes,
                                            upserts: seq<WriteRecord>, p: Plan)
    requires Inv(hc.hashes, l) && PreparedBatch(hc.hashes, batch)
        && AcceptAll(hc.hashes, l, batch.commands) == Some(p.next)
    requires Additions(hc.hashes, l, batch.commands) == Some(adds) && p.next.writes == l.writes + adds
    requires IsListing(upserts, adds) && |upserts| <= MAX_ACCEPTED_WRITES && p.upserts == upserts && p.removals == []
    requires Summarised(hc.hashes, p.next.writes, p.bytes, p.commitment)
    ensures GoodPlan(hc, l.writes, p)
  {
    hide Inv, AcceptAll, ValidDelta, ApplyDelta, SealedDelta, RecordOk, IsListing;
    InvRecords(hc.hashes, l);
    AdditionsOk(hc.hashes, l, batch.commands);
    AdditionDelta(hc, l, adds, upserts);
    AcceptKeepsInv(hc.hashes, l, batch.commands);
  }

  lemma {:induction false} AdditionDelta(hc: HaCodec, l: Lifecycle, adds: Writes, upserts: seq<WriteRecord>)
    requires IsListing(upserts, adds) && |upserts| <= MAX_ACCEPTED_WRITES
    requires forall k :: k in adds ==> RecordOk(hc.hashes, l.contract, None, k, adds[k])
    ensures ValidDelta(hc, SealedDelta(hc, upserts, []))
    ensures ApplyDelta(l.writes, SealedDelta(hc, upserts, [])) == l.writes + adds
  {
    UpsertsAdd(hc, l.writes, adds, upserts);
    ListedRecordsOk(hc.hashes, l.contract, None, adds, upserts);
  }

  /** Plans one admission batch. */
  method PlanAccept(hc: HaCodec, l: Lifecycle, bytes: nat, commitment: Digest, batch: Batch) returns (r: Option<Plan>)
    requires Inv(hc.hashes, l) && Summarised(hc.hashes, l.writes, bytes, commitment)
    requires PreparedBatch(hc.hashes, batch) && 0 < |batch.commands| <= MAX_ACCEPTED_WRITES
    ensures r.Some? <==> AcceptAll(hc.hashes, l, batch.commands).Some?
    ensures r.Some? ==> GoodPlan(hc, l.writes, r.value)
                        && r.value.next == AcceptAll(hc.hashes, l, batch.commands).value
  {
    hide Inv, AcceptAll, GoodPlan, RecordOk, IsListing;
    InvRecords(hc.hashes, l);
    AcceptDecides(hc.hashes, l, batch);
    var adds, nextBytes, nextCommitment := FoldAdditions(hc.hashes, l, bytes, commitment, batch);
    if adds.None? || |l.writes| + |adds.value| > MAX_ACCEPTED_WRITES || nextBytes > MAX_ACCEPTED_COMMAND_BYTES {
      return None;
    }
    AdditionKeys(hc.hashes, l, batch);
    var upserts := ListWrites(adds.value);
    var p := Plan(l.(writes := l.writes + adds.value), nextBytes, nextCommitment, upserts, []);
    AcceptPlanIsGood(hc, l, batch, adds.value, upserts, p);
    return Some(p);
  }

  lemma {:induction false} AdditionKeys(h: Hashes, l: Lifecycle, batch: Batch)
    requires PreparedBatch(h, batch) && ValidContract(l.contract) && Additions(h, l, batch.commands).Some?
    ensures var adds := Additions(h, l, batch.commands).value;
            forall k :: k in adds ==> adds[k].command.identity == k
  {
    AdditionsOk(h, l, batch.commands);
  }

  /** Plans a move to a wholly computed next state, by the difference. */
  method PlanState(hc: HaCodec, writes: Writes, next: Lifecycle) returns (p: Plan)
    requires Inv(hc.hashes, next) && |writes| <= MAX_ACCEPTED_WRITES
    ensures GoodPlan(hc, writes, p) && p.next == next
  {
    hide Inv, RecordOk;
    InvRecords(hc.hashes, next);
    var bytes := SumCommandBytes(next.writes);
    var commitment := FoldCommitment(hc.hashes, next.writes);
    var upserts, removals := Diff(writes, next.writes);
    p := Plan(next, bytes, commitment, upserts, removals);
    DiffIsValid(hc, writes, next, upserts, removals);
  }

  lemma {:induction false} DiffIsValid(hc: HaCodec, writes: Writes, next: Lifecycle, upserts: seq<WriteRecord>,
                                       removals: seq<CommandIdentity>)
    requires Inv(hc.hashes, next) && IsDiff(writes, next.writes, upserts, removals)
    requires |upserts| <= |next.writes| && |removals| <= |writes| <= MAX_ACCEPTED_WRITES
    ensures ValidDelta(hc, SealedDelta(hc, upserts, removals))
    ensures ApplyDelta(writes, SealedDelta(hc, upserts, removals)) == next.writes
  {
    DiffApplies(writes, next.writes, upserts, removals, hc.deltaHash(upserts, removals));
    forall k | k in Changed(writes, next.writes)
      ensures RecordOk(hc.hashes, next.contract, next.cutover, k, Changed(writes, next.writes)[k])
    {
    }
    ListedRecordsOk(hc.hashes, next.contract, next.cutover, Changed(writes, next.writes), upserts);
  }

  /** Plans one resolution of a pending write. */
  method PlanResolution(hc: HaCodec, l: Lifecycle, bytes: nat, commitment: Digest, id: CommandIdentity, d: Disposition,
                        extraBytes: nat)
    returns (r: Option<Plan>)
    requires Inv(hc.hashes, l) && Summarised(hc.hashes, l.writes, bytes, commitment) && l.cutover.Some?
    requires id in l.writes && l.writes[id].disposition != d && !d.Pending?
    requires RecordOk(hc.hashes, l.contract, l.cutover, id, l.writes[id].(disposition := d))
    requires extraBytes == if d.Recertified? then |d.command.bytes| else 0
    ensures r.Some? <==> Resolve(l, id, d, extraBytes).Some?
    ensures r.Some? ==> GoodPlan(hc, l.writes, r.value) && r.value.next == Resolve(l, id, d, extraBytes).value
  {
    hide Inv, GoodPlan, Xor, RecordCommitment, TotalBytes, Commitment, RecordOk;
    InvRecords(hc.hashes, l);
    var previous := l.writes[id];
    if !previous.disposition.Pending? || bytes + extraBytes > MAX_ACCEPTED_COMMAND_BYTES {
      return None;
    }
    var next := previous.(disposition := d);
    var nextCommitment := Xor(Xor(commitment, RecordCommitment(hc.hashes, previous)),
                              RecordCommitment(hc.hashes, next));
    var p := Plan(l.(writes := l.writes[id := next]), bytes + extraBytes, nextCommitment, [next], []);
    ResolutionPlanIsGood(hc, l, id, d, extraBytes, p);
    return Some(p);
  }

  lemma {:induction false} ResolutionPlanIsGood(hc: HaCodec, l: Lifecycle, id: CommandIdentity, d: Disposition,
                                                extraBytes: nat, p: Plan)
    requires Inv(hc.hashes, l) && l.cutover.Some? && id in l.writes && l.writes[id].disposition.Pending?
    requires RecordOk(hc.hashes, l.contract, l.cutover, id, l.writes[id].(disposition := d))
    requires extraBytes == if d.Recertified? then |d.command.bytes| else 0
    requires Resolve(l, id, d, extraBytes) == Some(p.next)
        && p.next.writes == l.writes[id := l.writes[id].(disposition := d)]
    requires p.bytes == TotalBytes(l.writes) + extraBytes
    requires p.commitment == Xor(Xor(Commitment(hc.hashes, l.writes), RecordCommitment(hc.hashes, l.writes[id])),
                                 RecordCommitment(hc.hashes, l.writes[id].(disposition := d)))
    requires p.upserts == [l.writes[id].(disposition := d)] && p.removals == []
    ensures GoodPlan(hc, l.writes, p)
  {
    hide Inv, Xor, RecordCommitment, TotalBytes, Commitment, Resolve, ValidDelta, ApplyDelta, SealedDelta;
    SummariesReplace(hc.hashes, l.writes, id, l.writes[id].(disposition := d));
    ResolveKeepsInv(hc.hashes, l, id, d, extraBytes);
    SingleUpsert(hc, l.writes, id, l.writes[id].(disposition := d));
  }

  lemma {:induction false} SingleUpsert(hc: HaCodec, w: Writes, id: CommandIdentity, r: WriteRecord)
    requires r.command.identity == id && ValidRecord(hc.hashes, r)
    ensures ValidDelta(hc, SealedDelta(hc, [r], []))
    ensures ApplyDelta(w, SealedDelta(hc, [r], [])) == w[id := r]
  {
    assert [r][..0] == [];
    assert ByIdentity([r]) == map[id := r];
  }
}
