/**
 The store object. Its fields are updated in place; every method is proved to
 do to them what `LogHandle` specifies.
 */
module LogStore {
  import opened Wrappers
  import opened Arithmetic
  import opened LogTables
  import opened LogTransaction
  import opened LogRecovery
  import opened LogGroups
  import Spec = LogHandle
  import Runs = LogRuns

  class Store {
    const setup: Setup
    var first: nat
    var log: seq<Record>
    var state: State
    var nextSequence: nat
    var transactionsSince: nat
    var bytesSince: nat
    var poisoned: bool
    var closed: bool

    constructor (setup: Setup, first: nat, log: seq<Record>, state: State)
      ensures this.setup == setup && View() == Spec.FreshHandle(first, log, state)
    {
      this.setup := setup;
      this.first := first;
      this.log := log;
      this.state := state;
      nextSequence := first + |log|;
      transactionsSince := 0;
      bytesSince := 0;
      poisoned := false;
      closed := false;
    }

    ghost function View(): Spec.Handle
      reads this
    {
      Spec.Handle(first, log, state, nextSequence, transactionsSince, bytesSince, poisoned, closed)
    }

    predicate IsWritable()
      reads this
    {
      !closed && !poisoned
    }

    /** Cuts, appends and syncs one group. */
    method PersistGroup(kind: GroupKind, groupId: nat, body: Bytes, fate: Spec.AppendFate)
      returns (ok: bool, payloadBytes: nat)
      requires setup.Valid()
      modifies this
      ensures View() == Spec.Persist(setup, old(View()), kind, groupId, body, fate).handle
      ensures ok == Spec.Persist(setup, old(View()), kind, groupId, body, fate).ok
      ensures ok ==> payloadBytes == Spec.GroupBytes(setup, Group(setup, kind, groupId, body))
    {
      var records := BuildGroup(setup, kind, groupId, body);
      payloadBytes := 0;
      if records.Err? {
        return false, 0;
      }
      var g := records.value;
      for i := 0 to |g|
        invariant payloadBytes == Spec.GroupBytes(setup, g[..i])
        invariant View() == old(View())
      {
        assert g[..i + 1][..i] == g[..i];
        payloadBytes := SaturatingAdd(payloadBytes, setup.codec.recordBytes(g[i]));
      }
      assert g[..|g|] == g;
      log := log + Spec.Survivors(g, fate);
      ok := fate.Acknowledged?;
      if ok {
        nextSequence := nextSequence + |g|;
      } else {
        poisoned := true;
      }
    }

    /** Writes a checkpoint of the given state and drops the older records. */
    method WriteCheckpoint(revision: nat, tables: Tables, fate: Spec.CheckpointFate) returns (ok: bool)
      requires setup.Valid()
      modifies this
      ensures View() == Spec.WriteCheckpoint(setup, old(View()), revision, tables, fate).handle
      ensures ok == Spec.WriteCheckpoint(setup, old(View()), revision, tables, fate).ok
    {
      if !ValidTables(tables, setup.config.maxValueBytes) || !setup.codec.estimateFits(tables) {
        return false;
      }
      var encoded := setup.codec.encode(CheckpointBody(setup.identity, revision, tables));
      if |encoded| > setup.config.maxCheckpointBytes {
        return false;
      }
      if !fate.sealed {
        poisoned := true;
        return false;
      }
      var firstSequence := nextSequence;
      var persisted, _ := PersistGroup(CheckpointGroup, revision, encoded, fate.append);
      if !persisted {
        poisoned := true;
        return false;
      }
      if (fate.compacted || fate.dropped) && first <= firstSequence <= first + |log| {
        log := log[firstSequence - first..];
        first := firstSequence;
      }
      if !fate.compacted {
        poisoned := true;
        return false;
      }
      transactionsSince := 0;
      bytesSince := 0;
      return true;
    }

    method MaybeCheckpoint(fate: Spec.CheckpointFate)
      requires setup.Valid()
      modifies this
      ensures View() == Spec.MaybeCheckpoint(setup, old(View()), fate)
    {
      if transactionsSince >= setup.config.checkpointAfterTransactions
         || bytesSince >= setup.config.checkpointAfterBytes {
        var ok := WriteCheckpoint(state.revision, state.tables, fate);
        if !ok {
          poisoned := true;
        }
      }
    }

    /** Persists the staged operations, then makes them visible. */
    method Commit(transaction: Transaction, append: Spec.AppendFate, checkpoint: Spec.CheckpointFate)
      returns (ok: bool)
      requires setup.Valid()
      requires transaction.base == state.tables
      requires transaction.Valid() && transaction.maxValueBytes == setup.config.maxValueBytes
      modifies this
      ensures View() == Spec.Transact(setup, old(View()), transaction.operations, append, checkpoint).handle
      ensures ok == Spec.Transact(setup, old(View()), transaction.operations, append, checkpoint).ok
      ensures ok ==> state.tables == transaction.View()
      ensures forall d :: Runs.Inv(setup, Runs.Up(old(View())), d) ==>
                var e := Runs.Transacted(transaction.operations, append, checkpoint);
                Runs.Inv(setup, Runs.Up(View()), Runs.NextDurable(setup, Runs.Up(old(View())), d, e))
    {
      hide Spec.MaybeCheckpoint, Spec.GroupBytes, Spec.Survivors, Group, StageableOp, Runs.Inv, Runs.NextDurable;
      forall d | Runs.Inv(setup, Runs.Up(View()), d)
        ensures var e := Runs.Transacted(transaction.operations, append, checkpoint);
                Runs.Inv(setup, Runs.Next(setup, Runs.Up(View()), e), Runs.NextDurable(setup, Runs.Up(View()), d, e))
      {
        Runs.TransactStep(setup, View(), d, transaction.operations, append, checkpoint);
      }
      if !IsWritable() {
        return false;
      }
      var ops := transaction.operations;
      if ops == [] {
        return true;
      }
      if state.revision >= U64_MAX {
        return false;
      }
      var revision := state.revision + 1;
      var encoded := setup.codec.encode(TransactionBody(state.revision, revision, ops));
      if |encoded| > setup.config.maxTransactionBytes {
        return false;
      }
      var persisted, bytes := PersistGroup(TransactionGroup, revision, encoded, append);
      if !persisted {
        return false;
      }
      var tables := ApplyOperations(state.tables, ops);
      state := State(revision, tables);
      transactionsSince := SaturatingAdd(transactionsSince, 1);
      bytesSince := SaturatingAdd(bytesSince, bytes);
      Spec.CheckpointKeepsState(setup, View(), checkpoint);
      MaybeCheckpoint(checkpoint);
      return true;
    }

    method Checkpoint(fate: Spec.CheckpointFate) returns (ok: bool)
      requires setup.Valid()
      modifies this
      ensures View() == Spec.Checkpoint(setup, old(View()), fate).handle
      ensures ok == Spec.Checkpoint(setup, old(View()), fate).ok
    {
      if !IsWritable() {
        return false;
      }
      ok := WriteCheckpoint(state.revision, state.tables, fate);
    }

    /** Installs a snapshot taken from a store of the same identity. */
    method ReplaceFromCheckpoint(identity: Identity, snapshot: State, fate: Spec.CheckpointFate)
      returns (ok: bool)
      requires setup.Valid()
      modifies this
      ensures View() == Spec.Replace(setup, old(View()), identity, snapshot, fate).handle
      ensures ok == Spec.Replace(setup, old(View()), identity, snapshot, fate).ok
    {
      if !IsWritable() || identity != setup.identity {
        return false;
      }
      ok := WriteCheckpoint(snapshot.revision, snapshot.tables, fate);
      if ok {
        state := snapshot;
      }
    }

    method Shutdown(synced: bool) returns (ok: bool)
      modifies this
      ensures View() == Spec.Shutdown(old(View()), synced).handle
      ensures ok == Spec.Shutdown(old(View()), synced).ok
    {
      if closed {
        return true;
      }
      closed := true;
      if !synced {
        poisoned := true;
      }
      return synced;
    }
  }

  /** Opens a directory holding `log`. Returns the store, if the open succeeds,
      and the records the directory holds afterwards. */
  method Open(setup: Setup, first: nat, log: seq<Record>, abort: Spec.AppendFate,
              checkpoint: Spec.CheckpointFate)
    returns (store: Option<Store>, first': nat, log': seq<Record>)
    requires setup.codec.Lawful()
    ensures !setup.config.Valid() || !setup.identity.Valid() ==>
              store.None? && first' == first && log' == log
    ensures store.Some? ==>
              && setup.config.maxChunkBytes > 0 && setup.config.maxValueBytes > 0
              && setup.config.maxValueBytes <= setup.config.maxTransactionBytes
              && setup.config.maxValueBytes <= setup.config.maxCheckpointBytes
              && setup.config.checkpointAfterTransactions > 0 && setup.config.checkpointAfterBytes > 0
              && setup.identity.formatVersion == 1
              && 1 <= |setup.identity.storeKind| <= 128 && 1 <= |setup.identity.publicScope| <= 64 * 1024 * 1024
    ensures setup.Valid() ==>
              var o := Spec.Open(setup, first, log, abort, checkpoint);
              && first' == o.first && log' == o.log
              && store.Some? == o.handle.Some?
              && (store.Some? ==> store.value.View() == o.handle.value && store.value.setup == setup)
  {
    store, first', log' := None, first, log;
    if !setup.config.Valid() || !setup.identity.Valid() {
      return;
    }
    var recovered := Recover(setup, log);
    if recovered.Err? {
      return;
    }
    var r := recovered.value;
    if r.pending.Some? {
      log' := log + Spec.Survivors([AbortOf(r.pending.value)], abort);
      if abort.Failed? {
        return;
      }
    }
    var created := new Store(setup, first, log', r.state);
    if !r.initialized {
      var ok := created.WriteCheckpoint(created.state.revision, created.state.tables, checkpoint);
      first', log' := created.first, created.log;
      if !ok {
        return;
      }
    }
    store := Some(created);
  }
}
