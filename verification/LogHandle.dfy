/**
 An open store handle as a value, and what each public operation does to it and
 to the retained log. How far an append or a compaction gets is a parameter, so
 that a crash is an operation that got only part of the way followed by a reopen.
 */
module LogHandle {
  import opened Wrappers
  import opened Arithmetic
  import opened LogTables
  import opened LogRecovery
  import opened LogGroups

  /** Fate of one group append: acknowledged, or failed with the given number of
      leading records durable all the same. */
  datatype AppendFate = Acknowledged | Failed(survivors: nat)

  /** Fate of a checkpoint: sealing, then the group append, then compaction,
      which may have dropped the prefix even when it reports failure. */
  datatype CheckpointFate = CheckpointFate(sealed: bool, append: AppendFate, compacted: bool, dropped: bool)

  datatype Handle = Handle(first: nat, log: seq<Record>, state: State, nextSequence: nat,
                           transactionsSince: nat, bytesSince: nat, poisoned: bool, closed: bool)

  /** A handle and whether the operation that led to it succeeded. */
  datatype Outcome = Outcome(handle: Handle, ok: bool)

  predicate Writable(h: Handle) {
    !h.closed && !h.poisoned
  }

  /** Records of a group that are durable after the append. */
  function Survivors(g: seq<Record>, fate: AppendFate): seq<Record> {
    match fate
    case Acknowledged => g
    case Failed(n) => if n < |g| then g[..n] else g
  }

  function GroupBytes(setup: Setup, g: seq<Record>): nat {
    if g == [] then 0
    else SaturatingAdd(GroupBytes(setup, g[..|g| - 1]), setup.codec.recordBytes(g[|g| - 1]))
  }

  ghost predicate ChunkCountOk(setup: Setup, body: Bytes)
    requires setup.Valid()
  {
    1 <= ChunkCount(setup, body) <= MAX_GROUP_CHUNKS
  }

  /** Appends the group of one body. A failed append poisons the handle. */
  ghost function Persist(setup: Setup, h: Handle, kind: GroupKind, groupId: nat, body: Bytes,
                         fate: AppendFate): Outcome
    requires setup.Valid()
  {
    if !ChunkCountOk(setup, body) then Outcome(h, false)
    else
      var g := Group(setup, kind, groupId, body);
      var log := h.log + Survivors(g, fate);
      if fate.Acknowledged?
      then Outcome(h.(log := log, nextSequence := h.nextSequence + |g|), true)
      else Outcome(h.(log := log, poisoned := true), false)
  }

  ghost function CheckpointBytes(setup: Setup, revision: nat, tables: Tables): Bytes {
    setup.codec.encode(CheckpointBody(setup.identity, revision, tables))
  }

  /** The tables pass the checks made before anything is written. */
  ghost predicate CheckpointFits(setup: Setup, revision: nat, tables: Tables) {
    && ValidTables(tables, setup.config.maxValueBytes)
    && setup.codec.estimateFits(tables)
    && |CheckpointBytes(setup, revision, tables)| <= setup.config.maxCheckpointBytes
  }

  /** Drops the records below a sequence number. */
  function DropBelow(h: Handle, sequence: nat): Handle {
    if h.first <= sequence <= h.first + |h.log|
    then h.(first := sequence, log := h.log[sequence - h.first..])
    else h
  }

  /** Writes a full-state checkpoint and drops everything before it. */
  ghost function WriteCheckpoint(setup: Setup, h: Handle, revision: nat, tables: Tables,
                                 fate: CheckpointFate): Outcome
    requires setup.Valid()
  {
    if !CheckpointFits(setup, revision, tables) then Outcome(h, false)
    else if !fate.sealed then Outcome(h.(poisoned := true), false)
    else
      var p := Persist(setup, h, CheckpointGroup, revision,
                       CheckpointBytes(setup, revision, tables), fate.append);
      if !p.ok then Outcome(p.handle.(poisoned := true), false)
      else
        var dropped := if fate.compacted || fate.dropped
                       then DropBelow(p.handle, h.nextSequence) else p.handle;
        if fate.compacted
        then Outcome(dropped.(transactionsSince := 0, bytesSince := 0), true)
        else Outcome(dropped.(poisoned := true), false)
  }

  predicate CheckpointDue(setup: Setup, h: Handle) {
    h.transactionsSince >= setup.config.checkpointAfterTransactions
    || h.bytesSince >= setup.config.checkpointAfterBytes
  }

  /** The automatic checkpoint after a commit; its failure only poisons. */
  ghost function MaybeCheckpoint(setup: Setup, h: Handle, fate: CheckpointFate): Handle
    requires setup.Valid()
  {
    if !CheckpointDue(setup, h) then h
    else
      var w := WriteCheckpoint(setup, h, h.state.revision, h.state.tables, fate);
      if w.ok then w.handle else w.handle.(poisoned := true)
  }

  /** A checkpoint never touches the materialized state. */
  lemma {:induction false} CheckpointKeepsState(setup: Setup, h: Handle, fate: CheckpointFate)
    requires setup.Valid()
    ensures MaybeCheckpoint(setup, h, fate).state == h.state
  {
  }

  ghost function TransactionBytes(setup: Setup, state: State, ops: seq<Op>): Bytes {
    setup.codec.encode(TransactionBody(state.revision, state.revision + 1, ops))
  }

  /** The staged operations will be written: there are some and they fit. */
  ghost predicate TransactionFits(setup: Setup, state: State, ops: seq<Op>)
    requires setup.Valid()
  {
    && ops != [] && state.revision < U64_MAX
    && |TransactionBytes(setup, state, ops)| <= setup.config.maxTransactionBytes
    && ChunkCountOk(setup, TransactionBytes(setup, state, ops))
  }

  function After(state: State, ops: seq<Op>): State {
    State(state.revision + 1, ApplyAll(state.tables, ops))
  }

  /** Commits the staged operations of one transaction. Success without
      operations is a read-only transaction. */
  ghost function Transact(setup: Setup, h: Handle, ops: seq<Op>, append: AppendFate,
                          checkpoint: CheckpointFate): Outcome
    requires setup.Valid()
  {
    if !Writable(h) then Outcome(h, false)
    else if ops == [] then Outcome(h, true)
    else if !TransactionFits(setup, h.state, ops) then Outcome(h, false)
    else
      var body := TransactionBytes(setup, h.state, ops);
      var p := Persist(setup, h, TransactionGroup, h.state.revision + 1, body, append);
      if !p.ok then Outcome(p.handle, false)
      else
        var bytes := GroupBytes(setup, Group(setup, TransactionGroup, h.state.revision + 1, body));
        var committed := p.handle.(state := After(h.state, ops),
                                   transactionsSince := SaturatingAdd(h.transactionsSince, 1),
                                   bytesSince := SaturatingAdd(h.bytesSince, bytes));
        Outcome(MaybeCheckpoint(setup, committed, checkpoint), true)
  }

  ghost function Checkpoint(setup: Setup, h: Handle, fate: CheckpointFate): Outcome
    requires setup.Valid()
  {
    if !Writable(h) then Outcome(h, false)
    else WriteCheckpoint(setup, h, h.state.revision, h.state.tables, fate)
  }

  /** Installs a snapshot of the same identity as the new state. */
  ghost function Replace(setup: Setup, h: Handle, identity: Identity, snapshot: State,
                         fate: CheckpointFate): Outcome
    requires setup.Valid()
  {
    if !Writable(h) || identity != setup.identity then Outcome(h, false)
    else
      var w := WriteCheckpoint(setup, h, snapshot.revision, snapshot.tables, fate);
      if w.ok then Outcome(w.handle.(state := snapshot), true) else w
  }

  function Shutdown(h: Handle, synced: bool): Outcome {
    if h.closed then Outcome(h, true)
    else Outcome(h.(closed := true, poisoned := h.poisoned || !synced), synced)
  }

  /** Result of opening a directory: the records it then retains and, when the
      open succeeded, the handle. */
  datatype Opened = Opened(first: nat, log: seq<Record>, handle: Option<Handle>)

  function FreshHandle(first: nat, log: seq<Record>, state: State): Handle {
    Handle(first, log, state, first + |log|, 0, 0, false, false)
  }

  /** Recovers, aborts an incomplete tail and writes the first checkpoint of a
      store that has none. */
  ghost function Open(setup: Setup, first: nat, log: seq<Record>, abort: AppendFate,
                      checkpoint: CheckpointFate): Opened
    requires setup.Valid()
  {
    match Replay(setup, Start(), log)
    case Err => Opened(first, log, None)
    case Ok(r) =>
      var cleaned := if r.pending.Some? then log + Survivors([AbortOf(r.pending.value)], abort) else log;
      if r.pending.Some? && abort.Failed? then Opened(first, cleaned, None)
      else
        var h := FreshHandle(first, cleaned, r.state);
        if r.initialized then Opened(first, cleaned, Some(h))
        else
          var w := WriteCheckpoint(setup, h, r.state.revision, r.state.tables, checkpoint);
          Opened(w.handle.first, w.handle.log, if w.ok then Some(w.handle) else None)
  }
}
