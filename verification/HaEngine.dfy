/**
 The lifecycle engine: the in-memory state with its running summaries, and the
 tables that store it. Every mutator either performs the lifecycle action in
 memory and in the tables, or leaves memory as it was.
 */
module HaEngine {
  import opened Wrappers
  import opened Digests
  import opened LogTables
  import opened HaTypes
  import opened HaLifecycle
  import opened HaStore
  import opened HaReload
  import opened HaPersist
  import opened HaPlans
  import opened HaCompletion
  import opened HaCutover
  import opened HaCatchUp
  import opened LifecycleLaws

  /** All batches as one, in lane order. */
  function Flatten(batches: seq<Batch>): Batch {
    if batches == [] then Batch([], [])
    else
      var before, last := Flatten(batches[..|batches| - 1]), batches[|batches| - 1];
      Batch(before.commands + last.commands, before.hashes + last.hashes)
  }

  /** Admission of prepared shard batches in one commit. */
  ghost function AcceptBatches(h: Hashes, l: Lifecycle, batches: seq<Batch>): Option<Lifecycle> {
    if |batches| > MAX_SHARD_LANES then None else AcceptAll(h, l, Flatten(batches).commands)
  }

  /** Recertification of a write as itself, when the command spec stays. */
  ghost function RecertifySame(h: Hashes, l: Lifecycle, id: CommandIdentity): Option<Lifecycle> {
    if id !in l.writes || l.cutover.None? || l.cutover.value.to.spec != l.cutover.value.from.spec then None
    else RecertifyAs(h, l, id, l.writes[id].command)
  }

  lemma {:induction false} FlattenPrepared(h: Hashes, batches: seq<Batch>)
    requires forall i :: 0 <= i < |batches| ==> PreparedBatch(h, batches[i])
    ensures PreparedBatch(h, Flatten(batches))
  {
    if batches != [] {
      FlattenPrepared(h, batches[..|batches| - 1]);
    }
  }

  lemma {:induction false} FlattenHas(batches: seq<Batch>, i: nat, j: nat)
    requires i < |batches| && j < |batches[i].commands|
    ensures batches[i].commands[j] in Flatten(batches).commands
  {
    var n := |batches| - 1;
    if i < n {
      FlattenHas(batches[..n], i, j);
    }
  }

  /** A write is recertified as itself exactly when a cutover that keeps the command
      spec is active and the write is held and either so recertified already or
      pending with room for its bytes once more; its translation is then its own
      command. */
  lemma {:induction false} RecertifiesSameExactly(h: Hashes, l: Lifecycle, id: CommandIdentity)
    requires Inv(h, l)
    ensures RecertifySame(h, l, id).Some? <==>
              && l.cutover.Some? && l.cutover.value.to.spec == l.contract.spec && id in l.writes
              && var r := l.writes[id];
                 (r.disposition == Recertified(l.contract, l.cutover.value.to, r.command, r.commandHash)
                  || (r.disposition.Pending?
                      && TotalBytes(l.writes) + |r.command.bytes| <= MAX_ACCEPTED_COMMAND_BYTES))
    ensures RecertifySame(h, l, id).Some? ==>
              Resolved(l, RecertifySame(h, l, id).value, id,
                       Recertified(l.contract, l.cutover.value.to, l.writes[id].command, l.writes[id].commandHash))
  {
    hide Inv, RecertifyAs, TotalBytes, Resolved;
    InvRecords(h, l);
    if id in l.writes {
      HeldWritesMean(h, l, id);
      RecertifiesExactly(h, l, id, l.writes[id].command);
    }
  }

  method FlattenBatches(batches: seq<Batch>) returns (all: Batch)
    ensures all == Flatten(batches)
  {
    all := Batch([], []);
    for i := 0 to |batches|
      invariant all == Flatten(batches[..i])
    {
      assert batches[..i + 1][..i] == batches[..i];
      all := Batch(all.commands + batches[i].commands, all.hashes + batches[i].hashes);
    }
    assert batches[..|batches|] == batches;
  }

  lemma {:induction false} NothingAccepted(h: Hashes, l: Lifecycle, batches: seq<Batch>)
    requires Flatten(batches).commands == [] && |batches| <= MAX_SHARD_LANES
    ensures AcceptBatches(h, l, batches) == Some(l)
  {
  }

  /** Every command of every lane of an accepted admission is held by its hash. */
  lemma {:induction false} AcceptedInAllLanes(h: Hashes, l: Lifecycle, batches: seq<Batch>)
    requires Inv(h, l) && AcceptBatches(h, l, batches).Some?
    ensures var next := AcceptBatches(h, l, batches).value.writes;
            forall i, j :: 0 <= i < |batches| && 0 <= j < |batches[i].commands| ==>
              var k := batches[i].commands[j].identity;
              k in next && next[k].commandHash == h.command(batches[i].commands[j])
  {
    hide Inv, AcceptAll, Flatten;
    var cs := Flatten(batches).commands;
    AcceptedIsHeld(h, l, cs);
    forall i, j | 0 <= i < |batches| && 0 <= j < |batches[i].commands|
      ensures exists n :: 0 <= n < |cs| && cs[n] == batches[i].commands[j]
    {
      FlattenHas(batches, i, j);
    }
  }

  lemma {:induction false} NothingCompleted(l: Lifecycle)
    ensures CompleteAll(l, []) == Some(l)
  {
    assert l.writes - Named([]) == l.writes;
  }

  lemma {:induction false} BeginKeepsInv(h: Hashes, l: Lifecycle, to: Contract, membership: Membership)
    requires Inv(h, l) && BeginCutover(l, to, membership).Some?
    ensures Inv(h, BeginCutover(l, to, membership).value)
  {
  }

  /** The disposition is one this cutover may give to the write. */
  predicate DecidedBy(h: Hashes, cutover: Option<Cutover>, id: CommandIdentity, d: Disposition) {
    && cutover.Some?
    && match d
       case Recertified(from, to, c, hash) =>
         from == cutover.value.from && to == cutover.value.to && ValidCommand(c) && c.identity == id
         && hash == h.command(c)
       case Aborted(contract, reason) =>
         contract == cutover.value.from && 1 <= |reason| <= MAX_ABORT_REASON_BYTES
       case Pending => false
  }

  function TranslationBytes(d: Disposition): nat {
    if d.Recertified? then |d.command.bytes| else 0
  }

  lemma {:induction false} ResolutionIsOk(h: Hashes, l: Lifecycle, id: CommandIdentity, d: Disposition)
    requires Inv(h, l) && id in l.writes && DecidedBy(h, l.cutover, id, d)
    ensures RecordOk(h, l.contract, l.cutover, id, l.writes[id].(disposition := d))
  {
    assert RecordOk(h, l.contract, l.cutover, id, l.writes[id]);
  }

  class Engine {
    const hc: HaCodec
    const checkpointEntries: nat
    var contract: Contract
    var writes: Writes
    var bytes: nat
    var commitment: Digest
    var cutover: Option<Cutover>
    var disk: Disk
    var failed: bool
    ghost var layout: Layout

    constructor (hc: HaCodec, checkpointEntries: nat, l: Lifecycle, bytes: nat, commitment: Digest, disk: Disk,
                 ghost y: Layout)
      ensures this.hc == hc && this.checkpointEntries == checkpointEntries
      ensures View() == l && this.bytes == bytes && this.commitment == commitment
      ensures this.disk == disk && layout == y && !failed
    {
      this.hc := hc;
      this.checkpointEntries := checkpointEntries;
      contract, writes, cutover := l.contract, l.writes, l.cutover;
      this.bytes, this.commitment := bytes, commitment;
      this.disk, layout, failed := disk, y, false;
    }

    ghost function View(): Lifecycle
      reads this
    {
      Lifecycle(contract, writes, cutover)
    }

    /** Summaries match the records, the tables hold a valid state, and unless
        a durable write failed it is the in-memory state. */
    ghost predicate Valid()
      reads this
    {
      && hc.Lawful() && checkpointEntries <= U32_MAX && Inv(hc.hashes, View())
      && bytes == TotalBytes(writes) && commitment == Commitment(hc.hashes, writes)
      && Holds(hc, disk, layout)
      && (!failed ==> layout.state == View() && Counted(hc, disk, layout))
    }

    /** The action was performed, or refused without a trace in memory; the
        tables hold the state before it or the state after it. */
    twostate predicate Performed(spec: Option<Lifecycle>, fate: PersistFate, ok: bool)
      reads this
    {
      && Valid()
      && (if ok then spec.Some? && View() == spec.value else View() == old(View()))
      && (spec.Some? && !old(failed) && fate.Persisted? ==> ok)
      && (ok && !old(failed) ==> !failed)
      && (ok && View() != old(View()) ==> !old(failed) && fate.Persisted?)
      && (!old(failed) && spec.Some? ==>
            layout.state == if fate.NotStored? then old(layout.state) else spec.value)
      && (old(failed) ==> failed && layout == old(layout))
      && (spec.None? ==> failed == old(failed) && disk == old(disk) && layout == old(layout))
    }

    /** Stores the planned state, then makes it the in-memory one. */
    method Commit(p: Plan, fate: PersistFate) returns (ok: bool)
      requires Valid() && GoodPlan(hc, writes, p)
      modifies this
      ensures Performed(Some(p.next), fate, ok)
      ensures if old(failed) || fate.NotStored? then disk.tables == old(disk.tables)
              else Rewrites(hc, old(layout), p, old(disk.tables), disk.tables)
    {
      hide Holds, GoodPlan, Inv, Counted, TotalBytes, Commitment, IsDeltaWrite, IsCheckpointWrite;
      if failed {
        return false;
      }
      ghost var stored, ops;
      ok, disk, stored, ops := PersistNext(hc, checkpointEntries, writes, disk, layout, p, fate);
      layout := stored;
      if !ok {
        failed := true;
        return false;
      }
      PlanFacts(hc, writes, p);
      contract, writes, cutover := p.next.contract, p.next.writes, p.next.cutover;
      bytes, commitment := p.bytes, p.commitment;
      return true;
    }

    /** Admits prepared shard batches with one durable commit and returns their
        hashes in input order. */
    method Accept(batches: seq<Batch>, fate: PersistFate) returns (r: Option<seq<seq<Digest>>>)
      requires Valid() && forall i :: 0 <= i < |batches| ==> PreparedBatch(hc.hashes, batches[i])
      modifies this
      ensures Performed(AcceptBatches(hc.hashes, old(View()), batches), fate, r.Some?)
      ensures r.Some? ==> |r.value| == |batches| && forall i :: 0 <= i < |batches| ==> r.value[i] == batches[i].hashes
      ensures r.Some? ==> |batches| <= 256
      ensures r.Some? ==> forall i, j :: 0 <= i < |batches| && 0 <= j < |batches[i].commands| ==>
                var k := batches[i].commands[j].identity;
                k in writes && writes[k].commandHash == hc.hashes.command(batches[i].commands[j])
    {
      hide Inv, Holds, Counted, GoodPlan, AcceptAll, PreparedBatch;
      if |batches| > MAX_SHARD_LANES {
        return None;
      }
      var batch := FlattenBatches(batches);
      FlattenPrepared(hc.hashes, batches);
      if |batch.commands| > MAX_ACCEPTED_WRITES {
        TooMany(hc.hashes, View(), batch);
        return None;
      }
      var hashes: seq<seq<Digest>> := [];
      for i := 0 to |batches|
        invariant |hashes| == i && forall j :: 0 <= j < i ==> hashes[j] == batches[j].hashes
        invariant unchanged(this)
      {
        hashes := hashes + [batches[i].hashes];
      }
      if |batch.commands| == 0 {
        NothingAccepted(hc.hashes, View(), batches);
        AcceptedInAllLanes(hc.hashes, View(), batches);
        return Some(hashes);
      }
      var plan := PlanAccept(hc, Lifecycle(contract, writes, cutover), bytes, commitment, batch);
      if plan.None? {
        return None;
      }
      AcceptedInAllLanes(hc.hashes, View(), batches);
      var ok := Commit(plan.value, fate);
      return if ok then Some(hashes) else None;
    }

    /** Completes a batch of pending writes, each named by its current hash. */
    method Complete(completions: seq<Completion>, fate: PersistFate) returns (ok: bool)
      requires Valid()
      modifies this
      ensures Performed(CompleteAll(old(View()), completions), fate, ok)
    {
      hide Inv, Holds, Counted, GoodPlan;
      if |completions| > MAX_ACCEPTED_WRITES {
        return false;
      }
      if completions == [] {
        NothingCompleted(View());
        return true;
      }
      var plan := PlanComplete(hc, Lifecycle(contract, writes, cutover), bytes, commitment, completions);
      if plan.None? {
        return false;
      }
      ok := Commit(plan.value, fate);
    }

    /** Begins a cutover, recording the membership it was begun under. */
    method Begin(to: Contract, membership: Membership, fate: PersistFate) returns (ok: bool)
      requires Valid()
      modifies this
      ensures Performed(BeginCutover(old(View()), to, membership), fate, ok)
    {
      hide Inv, Holds, Counted, GoodPlan;
      if !ValidContract(to) || cutover.Some? || !Advances(contract, to) {
        return false;
      }
      BeginKeepsInv(hc.hashes, View(), to, membership);
      WritesBounded(hc.hashes, View());
      var plan := PlanState(hc, writes, Lifecycle(contract, writes, Some(Cutover(contract, to, membership))));
      ok := Commit(plan, fate);
    }

    /** Records one resolution; the same one again is a success without effect. */
    method ResolveAs(id: CommandIdentity, d: Disposition, fate: PersistFate) returns (ok: bool)
      requires DecidedBy(hc.hashes, cutover, id, d)
      requires Valid()
      modifies this
      ensures Performed(Resolve(old(View()), id, d, TranslationBytes(d)), fate, ok)
    {
      hide Inv, Holds, Counted, GoodPlan, RecordOk;
      if id !in writes || writes[id].contract != cutover.value.from {
        return false;
      }
      if writes[id].disposition == d {
        return true;
      }
      ResolutionIsOk(hc.hashes, View(), id, d);
      var plan := PlanResolution(hc, Lifecycle(contract, writes, cutover), bytes, commitment, id, d,
                                 TranslationBytes(d));
      if plan.None? {
        return false;
      }
      ok := Commit(plan.value, fate);
    }

    method RecertifyAcceptedAs(id: CommandIdentity, command: Command, fate: PersistFate) returns (ok: bool)
      requires Valid()
      modifies this
      ensures Performed(RecertifyAs(hc.hashes, old(View()), id, command), fate, ok)
    {
      hide Inv, Holds, Counted, RecordOk;
      if cutover.None? || !ValidCommand(command) || command.identity != id {
        return false;
      }
      ok := ResolveAs(id, Recertified(cutover.value.from, cutover.value.to, command, hc.hashes.command(command)), fate);
    }

    method RecertifyAccepted(id: CommandIdentity, fate: PersistFate) returns (ok: bool)
      requires Valid()
      modifies this
      ensures Performed(RecertifySame(hc.hashes, old(View()), id), fate, ok)
    {
      hide Inv, Holds, Counted, RecertifyAs;
      if id !in writes || cutover.None? || cutover.value.to.spec != cutover.value.from.spec {
        return false;
      }
      ok := RecertifyAcceptedAs(id, writes[id].command, fate);
    }

    method AbortAccepted(id: CommandIdentity, reason: string, fate: PersistFate) returns (ok: bool)
      requires Valid()
      modifies this
      ensures Performed(HaLifecycle.AbortAccepted(old(View()), id, reason), fate, ok)
    {
      hide Inv, Holds, Counted, RecordOk;
      if cutover.None? || |reason| == 0 || |reason| > MAX_ABORT_REASON_BYTES {
        return false;
      }
      ok := ResolveAs(id, Aborted(cutover.value.from, reason), fate);
    }

    method Cancel(fate: PersistFate) returns (ok: bool)
      requires Valid()
      modifies this
      ensures Performed(CancelCutover(old(View())), fate, ok)
    {
      hide Inv, Holds, Counted, GoodPlan, Unresolved;
      var plan := PlanCancel(hc, Lifecycle(contract, writes, cutover));
      if plan.None? {
        return false;
      }
      ok := Commit(plan.value, fate);
    }

    /** Activates the cutover a manifest resolves; `now` is the runtime's membership. */
    method Activate(manifest: Manifest, now: Membership, fate: PersistFate) returns (ok: bool)
      requires Valid()
      modifies this
      ensures Performed(ActivateCutover(hc.hashes, old(View()), manifest, now), fate, ok)
    {
      hide Inv, Holds, Counted, GoodPlan, ActivateCutover;
      var plan := PlanActivation(hc, Lifecycle(contract, writes, cutover), manifest, now);
      if plan.None? {
        return false;
      }
      ok := Commit(plan.value, fate);
    }

    /** Installs a recovery manifest of the same contract; `runtimeInstalls` says
        whether the runtime takes the snapshot that travels with it. */
    method Install(m: Recovery, seal: Seal, runtimeInstalls: bool, fate: PersistFate) returns (ok: bool)
      requires Valid()
      modifies this
      ensures Performed(if runtimeInstalls then InstallRecovery(hc.hashes, seal, old(View()), m) else None, fate, ok)
    {
      hide Inv, Holds, Counted, GoodPlan, InstallWrites, ValidRecovery;
      var valid := ValidateRecovery(hc.hashes, seal, m);
      if !valid || m.contract != contract {
        return false;
      }
      var plan := PlanInstall(hc, Lifecycle(contract, writes, cutover), m.writes, m.cutover);
      if plan.None? || !runtimeInstalls {
        return false;
      }
      ok := Commit(plan.value, fate);
    }

    /** The manifest another replica can install. */
    method RecoveryManifest(seal: Seal, runtime: Bytes) returns (m: Recovery)
      requires Valid()
      ensures IsRecoveryOf(hc.hashes, seal, View(), m) && ValidRecovery(hc.hashes, seal, m)
    {
      hide Inv, Holds, Counted;
      m := BuildRecovery(hc.hashes, seal, Lifecycle(contract, writes, cutover), runtime);
    }
  }

  /** A first open of an empty store writes the empty state as delta zero. When
      that write fails the tables hold nothing, or the empty state all the same. */
  method Create(hc: HaCodec, checkpointEntries: nat, contract: Contract, fate: PersistFate)
    returns (r: Option<Engine>, tables: Tables)
    requires hc.Lawful() && checkpointEntries <= U32_MAX
    ensures r.Some? <==> ValidContract(contract) && fate.Persisted?
    ensures r.Some? ==> fresh(r.value) && r.value.Valid() && !r.value.failed && r.value.View() == Fresh(contract)
                        && r.value.disk.tables == tables
    ensures ValidContract(contract) && !fate.NotStored? ==>
              Stored(hc, tables, map[], [SealedDelta(hc, [], [])], Fresh(contract))
    ensures !ValidContract(contract) || fate.NotStored? ==> tables == map[]
  {
    hide Inv, Counted, Stored, PlanMetadata, DeltaOps;
    r, tables := None, map[];
    if !ValidContract(contract) || fate.NotStored? {
      return;
    }
    var p := Plan(Fresh(contract), 0, hc.hashes.zero, [], []);
    FirstDelta(hc, contract);
    var delta := SealedDelta(hc, [], []);
    tables := ApplyAll(tables, DeltaOps(hc, 0, hc.delta(delta), hc.metadata(PlanMetadata(hc, p, 1))));
    if fate.Persisted? {
      var engine := new Engine(hc, checkpointEntries, p.next, 0, hc.hashes.zero, Disk(tables, 1, |hc.delta(delta)|),
                               Layout(map[], [delta], p.next));
      r := Some(engine);
    }
  }

  lemma {:induction false} FirstDelta(hc: HaCodec, contract: Contract)
    requires hc.Lawful() && ValidContract(contract)
    ensures var p := Plan(Fresh(contract), 0, hc.hashes.zero, [], []);
            var d := SealedDelta(hc, [], []);
            var tables := ApplyAll(map[], DeltaOps(hc, 0, hc.delta(d), hc.metadata(PlanMetadata(hc, p, 1))));
            var y := Layout(map[], [d], p.next);
            && Inv(hc.hashes, p.next) && TotalBytes(p.next.writes) == 0
                && Commitment(hc.hashes, p.next.writes) == hc.hashes.zero
            && Holds(hc, Disk(tables, 1, |hc.delta(d)|), y) && Counted(hc, Disk(tables, 1, |hc.delta(d)|), y)
  {
    var d := SealedDelta(hc, [], []);
    assert ApplyDelta(map[], d) == map[];
    DeltaStores(hc, map[], map[], [], d, Fresh(contract));
    RowBytesAppend(hc, [], d);
    assert [] + [d] == [d];
  }

  /** The contract an open may ask for: the stored one or the target of the
      stored cutover. */
  predicate MayRequest(l: Lifecycle, requested: Contract) {
    requested == l.contract || (l.cutover.Some? && requested == l.cutover.value.to)
  }

  /** Opens a store that holds the layout `y`, after a shutdown or a crash. The
      engine comes back with exactly the stored state. */
  method Reopen(hc: HaCodec, checkpointEntries: nat, tables: Tables, requested: Contract, ghost y: Layout)
    returns (r: Option<Engine>, ghost rs: seq<(Bytes, Bytes)>, ghost js: seq<(Bytes, Bytes)>)
    requires hc.Lawful() && checkpointEntries <= U32_MAX && Stored(hc, tables, y.base, y.deltas, y.state)
    ensures Scanned(tables, rs, js)
    ensures r.Some? <==>
              && WithinLoadBound(tables, rs, js)
              && (requested == y.state.contract
                  || (y.state.cutover.Some? && requested == y.state.cutover.value.to))
    ensures r.Some? ==> fresh(r.value) && r.value.Valid() && !r.value.failed
                        && r.value.View() == y.state && r.value.layout == y
  {
    hide Inv, Stored, LoadScans, WithinLoadBound, Scanned;
    var loaded;
    loaded, rs, js := Load(hc, tables);
    LoadsWhatWasStored(hc, tables, y.base, y.deltas, y.state, rs, js);
    StoredIsValid(hc, tables, y);
    if loaded.Err? || !MayRequest(loaded.value.value.lifecycle, requested) {
      return None, rs, js;
    }
    var state := loaded.value.value;
    var engine := new Engine(hc, checkpointEntries, state.lifecycle, state.bytes, state.commitment,
                             Disk(tables, state.entries, state.journalBytes), y);
    return Some(engine), rs, js;
  }

  lemma {:induction false} StoredIsValid(hc: HaCodec, tables: Tables, y: Layout)
    requires Stored(hc, tables, y.base, y.deltas, y.state)
    ensures Inv(hc.hashes, y.state)
  {
  }

  lemma {:induction false} TooMany(h: Hashes, l: Lifecycle, batch: Batch)
    requires |batch.commands| > MAX_ACCEPTED_WRITES
    ensures AcceptAll(h, l, batch.commands).None?
  {
  }
}
