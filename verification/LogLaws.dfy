/**
 What the store's operations mean, stated over operations, bytes and counters:
 the effect of each staged operation on each key, when a commit or a checkpoint
 succeeds, how long the log may grow between checkpoints, and that a poisoned or
 closed handle never writes again.
 */
module LogLaws {
  import opened Wrappers
  import opened Arithmetic
  import opened LogTables
  import opened LogRecovery
  import opened LogGroups
  import opened LogHandle
  import opened LogRuns
  import opened LogAuthenticity

  /** Byte strings are ordered by their first difference, a prefix before its
      extensions. */
  lemma {:induction false} LessByFirstDifference(a: Bytes, b: Bytes)
    ensures Less(a, b) <==>
              exists i :: 0 <= i <= |a| && i < |b| && a[..i] == b[..i] && (i == |a| || a[i] < b[i])
  {
    if a == [] {
      assert b != [] ==> a[..0] == b[..0];
    } else if b != [] {
      if a[0] == b[0] {
        LessByFirstDifference(a[1..], b[1..]);
        if i :| 0 <= i <= |a[1..]| && i < |b[1..]| && a[1..][..i] == b[1..][..i]
                && (i == |a[1..]| || a[1..][i] < b[1..][i]) {
          assert a[..i + 1] == [a[0]] + a[1..][..i] && b[..i + 1] == [b[0]] + b[1..][..i];
          assert 0 <= i + 1 <= |a| && i + 1 < |b| && a[..i + 1] == b[..i + 1];
        }
        if i :| 0 <= i <= |a| && i < |b| && a[..i] == b[..i] && (i == |a| || a[i] < b[i]) {
          assert a[1..][..i - 1] == a[..i][1..] && b[1..][..i - 1] == b[..i][1..];
        }
      } else {
        assert a[..0] == b[..0];
        forall i | 0 < i <= |a| && i < |b| ensures a[..i] != b[..i] {
          assert a[..i][0] != b[..i][0];
        }
      }
    }
  }

  /** What each operation leaves under each key: an insert its value, a removal, a
      range that covers the key or a clear nothing, and anything else what was
      there. */
  lemma {:induction false} EffectAt(tables: Tables, op: Op, name: string, key: Bytes)
    ensures Lookup(Apply(tables, op), name, key)
         == match op
            case Insert(t, k, v) => if t == name && k == key then Some(v) else Lookup(tables, name, key)
            case Remove(t, k) => if t == name && k == key then None else Lookup(tables, name, key)
            case RemoveRange(t, start, end) =>
              if t == name && (key == start || Less(start, key)) && (end.Some? ==> Less(key, end.value)) then None
              else Lookup(tables, name, key)
            case Clear(t) => if t == name then None else Lookup(tables, name, key)
    ensures name in Apply(tables, op) <==>
              if op.Insert? then name in tables || name == op.table
              else if op.Clear? then name in tables && name != op.table
              else name in tables
  {
    if op.RemoveRange? {
      LessTotal(key, op.start);
      if Less(key, op.start) && Less(op.start, key) {
        LessTransitive(key, op.start, key);
      }
      LessIrreflexive(key);
    }
  }

  /** Table names have up to 128 bytes, each a hyphen, a dot, a digit, a letter or an
      underscore, by their ASCII codes. */
  lemma {:induction false} NameExactly(table: string)
    ensures ValidName(table) <==>
              && 1 <= |table| <= 128
              && forall i :: 0 <= i < |table| ==>
                   var b := table[i] as int;
                   45 <= b <= 46 || 48 <= b <= 57 || 65 <= b <= 90 || b == 95 || 97 <= b <= 122
  {
  }

  /** Staging admits what recovery accepts, except for empty ranges. */
  lemma {:induction false} StagesExactly(op: Op, maxValueBytes: nat)
    ensures StageableOp(op, maxValueBytes) <==>
              && WellFormedOp(op, maxValueBytes)
              && (op.RemoveRange? && op.end.Some? ==> Less(op.start, op.end.value))
    ensures RecoverableOp(op, maxValueBytes) <==> WellFormedOp(op, maxValueBytes)
  {
  }

  /** A body of `len` bytes needs one chunk per started `n` bytes. */
  lemma {:induction false} ChunksNeeded(body: Bytes, n: nat)
    requires n > 0
    ensures (|Chunks(body, n)| - 1) * n < |body| <= |Chunks(body, n)| * n || (body == [] && Chunks(body, n) == [])
    decreases |body|
  {
    if |body| > n {
      ChunksNeeded(body[n..], n);
      assert |Chunks(body, n)| == |Chunks(body[n..], n)| + 1;
      OneMoreChunk(|Chunks(body[n..], n)|, n);
    }
  }

  lemma {:induction false} OneMoreChunk(c: nat, n: nat)
    ensures (c + 1) * n == c * n + n && c * n == (c - 1) * n + n
  {
  }

  /** A body can be cut into chunks exactly when it is not empty and not longer
      than the greatest number of whole chunks. */
  lemma {:induction false} ChunkableExactly(setup: Setup, body: Bytes)
    requires setup.Valid()
    ensures ChunkCountOk(setup, body) <==> 1 <= |body| <= MAX_GROUP_CHUNKS * setup.config.maxChunkBytes
  {
    var n := setup.config.maxChunkBytes;
    var c := |Chunks(body, n)|;
    ChunksNeeded(body, n);
    if c <= MAX_GROUP_CHUNKS {
      MulMono(c, MAX_GROUP_CHUNKS, n);
    } else {
      MulMono(MAX_GROUP_CHUNKS, c - 1, n);
    }
  }

  /** The operations and their encoding are within what a commit can write. */
  ghost predicate Writes(setup: Setup, state: State, ops: seq<Op>) {
    var body := setup.codec.encode(TransactionBody(state.revision, state.revision + 1, ops));
    && state.revision < U64_MAX && |body| <= setup.config.maxTransactionBytes
    && 1 <= |body| <= MAX_GROUP_CHUNKS * setup.config.maxChunkBytes
  }

  /** A commit succeeds exactly on a handle that is neither closed nor poisoned,
      with nothing staged or with operations that fit and whose append is
      acknowledged; it then advances the revision by one and applies them. An
      append that fails leaves the state and poisons the handle. */
  lemma {:induction false} CommitsExactlyWhen(setup: Setup, h: Handle, ops: seq<Op>, append: AppendFate,
                                              checkpoint: CheckpointFate)
    requires setup.Valid()
    ensures var o := Transact(setup, h, ops, append, checkpoint);
            && (o.ok <==> !h.closed && !h.poisoned
                          && (ops == [] || (Writes(setup, h.state, ops) && append.Acknowledged?)))
            && o.handle.state == (if o.ok && ops != []
                                  then State(h.state.revision + 1, ApplyAll(h.state.tables, ops)) else h.state)
            && (!h.closed && !h.poisoned && ops != [] && Writes(setup, h.state, ops) && append.Failed? ==>
                  o.handle.poisoned)
            && (!o.ok && !(append.Failed? && Writes(setup, h.state, ops) && ops != []) ==> o.handle == h)
            && (o.ok && ops == [] ==> o.handle == h)
  {
    hide Group, GroupBytes, MaybeCheckpoint, ApplyAll, ChunkCount;
    ChunkableExactly(setup, TransactionBytes(setup, h.state, ops));
    if Writable(h) && ops != [] && TransactionFits(setup, h.state, ops) && append.Acknowledged? {
      var body := TransactionBytes(setup, h.state, ops);
      var p := Persist(setup, h, TransactionGroup, h.state.revision + 1, body, append).handle;
      var bytes := GroupBytes(setup, Group(setup, TransactionGroup, h.state.revision + 1, body));
      CheckpointKeepsState(setup, p.(state := After(h.state, ops),
                                     transactionsSince := SaturatingAdd(h.transactionsSince, 1),
                                     bytesSince := SaturatingAdd(h.bytesSince, bytes)), checkpoint);
    }
  }

  /** Below both thresholds a commit appends its group and counts it, and nothing
      else. */
  lemma {:induction false} NoEarlyCheckpoint(setup: Setup, h: Handle, ops: seq<Op>, checkpoint: CheckpointFate)
    requires setup.Valid() && ops != [] && Transact(setup, h, ops, Acknowledged, checkpoint).ok
    requires h.transactionsSince + 1 < setup.config.checkpointAfterTransactions <= U64_MAX
    requires var g := Group(setup, TransactionGroup, h.state.revision + 1, TransactionBytes(setup, h.state, ops));
             h.bytesSince + GroupBytes(setup, g) < setup.config.checkpointAfterBytes <= U64_MAX
    ensures var g := Group(setup, TransactionGroup, h.state.revision + 1, TransactionBytes(setup, h.state, ops));
            Transact(setup, h, ops, Acknowledged, checkpoint).handle
            == h.(log := h.log + g, nextSequence := h.nextSequence + |g|,
                  state := State(h.state.revision + 1, ApplyAll(h.state.tables, ops)),
                  transactionsSince := h.transactionsSince + 1, bytesSince := h.bytesSince + GroupBytes(setup, g))
  {
    hide Group, GroupBytes, ApplyAll, ChunkCount;
  }

  /** Fewer transactions and bytes than the thresholds since the last checkpoint. */
  predicate BelowThresholds(setup: Setup, h: Handle) {
    && h.transactionsSince < setup.config.checkpointAfterTransactions
    && h.bytesSince < setup.config.checkpointAfterBytes
  }

  ghost predicate Bounded(setup: Setup, w: World) {
    w.Up? && !w.handle.poisoned ==> BelowThresholds(setup, w.handle)
  }

  lemma {:induction false} CheckpointResets(setup: Setup, h: Handle, revision: nat, tables: Tables,
                                            fate: CheckpointFate)
    requires setup.Valid()
    ensures var w := WriteCheckpoint(setup, h, revision, tables, fate);
            && (w.ok ==> w.handle.transactionsSince == 0 && w.handle.bytesSince == 0)
            && (!w.ok ==> w.handle.poisoned || w.handle == h)
  {
    hide Group, ChunkCount;
  }

  lemma {:induction false} EventKeepsBounded(setup: Setup, w: World, e: Event)
    requires setup.Valid() && Bounded(setup, w)
    ensures Bounded(setup, Next(setup, w, e))
  {
    hide Group, GroupBytes, ChunkCount, WriteCheckpoint, Replay, Persist, TransactionFits;
    match e {
      case Transacted(ops, append, checkpoint) =>
        if w.Up? {
          CommitKeepsBounded(setup, w.handle, ops, append, checkpoint);
        }
      case Checkpointed(fate) =>
        if w.Up? {
          CheckpointResets(setup, w.handle, w.handle.state.revision, w.handle.state.tables, fate);
        }
      case Replaced(identity, snapshot, fate) =>
        if w.Up? {
          CheckpointResets(setup, w.handle, snapshot.revision, snapshot.tables, fate);
        }
      case ShutDown(synced) =>
      case Reopened(abort, checkpoint) => OpenIsBounded(setup, w, abort, checkpoint);
    }
  }

  lemma {:induction false} CommitKeepsBounded(setup: Setup, h: Handle, ops: seq<Op>, append: AppendFate,
                                              checkpoint: CheckpointFate)
    requires setup.Valid() && Bounded(setup, Up(h))
    ensures Bounded(setup, Up(Transact(setup, h, ops, append, checkpoint).handle))
  {
    hide Group, GroupBytes, ChunkCount, WriteCheckpoint;
    if Writable(h) && ops != [] && TransactionFits(setup, h.state, ops) && append.Acknowledged? {
      var body := TransactionBytes(setup, h.state, ops);
      var p := Persist(setup, h, TransactionGroup, h.state.revision + 1, body, append).handle;
      var bytes := GroupBytes(setup, Group(setup, TransactionGroup, h.state.revision + 1, body));
      var committed := p.(state := After(h.state, ops),
                          transactionsSince := SaturatingAdd(h.transactionsSince, 1),
                          bytesSince := SaturatingAdd(h.bytesSince, bytes));
      CheckpointResets(setup, committed, committed.state.revision, committed.state.tables, checkpoint);
    }
  }

  lemma {:induction false} OpenIsBounded(setup: Setup, w: World, abort: AppendFate, checkpoint: CheckpointFate)
    requires setup.Valid()
    ensures Bounded(setup, Next(setup, w, Reopened(abort, checkpoint)))
  {
    hide Group, GroupBytes, ChunkCount, WriteCheckpoint, Replay;
    match Replay(setup, Start(), LogOf(w))
    case Err =>
    case Ok(r) =>
      var cleaned := if r.pending.Some? then LogOf(w) + LogHandle.Survivors([AbortOf(r.pending.value)], abort)
                     else LogOf(w);
      CheckpointResets(setup, FreshHandle(FirstOf(w), cleaned, r.state), r.state.revision, r.state.tables, checkpoint);
  }

  /** In every reachable state a usable handle has fewer transactions and fewer
      bytes behind its last checkpoint than the thresholds. */
  lemma {:induction false} LogStaysShort(setup: Setup, w: World, events: seq<Event>, d: Durable)
    requires setup.Valid() && Bounded(setup, w)
    ensures Bounded(setup, Run(setup, w, d, events).0)
    decreases |events|
  {
    hide Next, NextDurable, Bounded;
    if events != [] {
      EventKeepsBounded(setup, w, events[0]);
      LogStaysShort(setup, Next(setup, w, events[0]), events[1..], NextDurable(setup, w, d, events[0]));
    }
  }

  /** An append may leave any number of leading records behind. */
  lemma {:induction false} AnyPrefixCanSurvive(g: seq<Record>, n: nat)
    requires n <= |g|
    ensures exists fate: AppendFate :: fate.Failed? && LogHandle.Survivors(g, fate) == g[..n]
  {
    assert LogHandle.Survivors(g, Failed(n)) == g[..n];
  }

  /** A commit that reaches a threshold checkpoints: if that succeeds the counts
      restart and the handle stays usable, if it fails the handle is poisoned; the
      commit succeeds either way. */
  lemma {:induction false} CheckpointFollows(setup: Setup, h: Handle, ops: seq<Op>, checkpoint: CheckpointFate)
    requires setup.Valid() && ops != [] && Transact(setup, h, ops, Acknowledged, checkpoint).ok
    requires h.transactionsSince + 1 >= setup.config.checkpointAfterTransactions && h.transactionsSince < U64_MAX
    requires h.nextSequence == h.first + |h.log|
    ensures var next := Transact(setup, h, ops, Acknowledged, checkpoint).handle;
            var tables := ApplyAll(h.state.tables, ops);
            var body := setup.codec.encode(CheckpointBody(setup.identity, h.state.revision + 1, tables));
            var written := && CheckpointFits(setup, h.state.revision + 1, tables)
                           && 1 <= |body| <= MAX_GROUP_CHUNKS * setup.config.maxChunkBytes
                           && checkpoint.sealed && checkpoint.append.Acknowledged? && checkpoint.compacted;
            && next.state == State(h.state.revision + 1, tables) && next.poisoned == !written && !next.closed
            && (written ==> next.transactionsSince == 0 && next.bytesSince == 0
                            && next.log == Group(setup, CheckpointGroup, h.state.revision + 1, body))
  {
    hide Group, GroupBytes, ApplyAll, ChunkCount;
    var body := setup.codec.encode(CheckpointBody(setup.identity, h.state.revision + 1, ApplyAll(h.state.tables, ops)));
    ChunkableExactly(setup, body);
    var g := Group(setup, TransactionGroup, h.state.revision + 1, TransactionBytes(setup, h.state, ops));
    var c := Group(setup, CheckpointGroup, h.state.revision + 1, body);
    assert (h.log + g + c)[|h.log + g|..] == c;
  }

  /** An explicit checkpoint succeeds exactly on a usable handle, for tables that
      pass the checks, when sealing, appending and compacting all do; the log is
      then that one group. */
  lemma {:induction false} ChecksPointExactly(setup: Setup, h: Handle, revision: nat, tables: Tables,
                                              fate: CheckpointFate)
    requires setup.Valid() && h.nextSequence == h.first + |h.log|
    ensures var body := setup.codec.encode(CheckpointBody(setup.identity, revision, tables));
            var w := WriteCheckpoint(setup, h, revision, tables, fate);
            && (w.ok <==>
                  && (forall t :: t in tables ==>
                        ValidName(t) && forall k :: k in tables[t] ==>
                          1 <= |k| <= MAX_KEY_BYTES && |tables[t][k]| <= setup.config.maxValueBytes)
                  && setup.codec.estimateFits(tables) && |body| <= setup.config.maxCheckpointBytes
                  && 1 <= |body| <= MAX_GROUP_CHUNKS * setup.config.maxChunkBytes
                  && fate.sealed && fate.append.Acknowledged? && fate.compacted)
            && (w.ok ==> w.handle.log == Group(setup, CheckpointGroup, revision, body)
                         && w.handle.first == h.nextSequence
                         && w.handle.nextSequence == w.handle.first + |w.handle.log|)
  {
    hide Group, ChunkCount;
    var body := CheckpointBytes(setup, revision, tables);
    ChunkableExactly(setup, body);
    if ChunkCountOk(setup, body) && fate.append.Acknowledged? {
      var g := Group(setup, CheckpointGroup, revision, body);
      assert (h.log + g)[h.nextSequence - h.first..] == g;
    }
  }

  /** A snapshot replaces the state exactly when it carries this store's identity
      and its checkpoint succeeds. */
  lemma {:induction false} ReplacesExactly(setup: Setup, h: Handle, identity: Identity, snapshot: State,
                                           fate: CheckpointFate)
    requires setup.Valid()
    ensures var o := Replace(setup, h, identity, snapshot, fate);
            && (o.ok <==> !h.closed && !h.poisoned && identity == setup.identity
                          && WriteCheckpoint(setup, h, snapshot.revision, snapshot.tables, fate).ok)
            && o.handle.state == (if o.ok then snapshot else h.state)
  {
    hide Group, ChunkCount;
  }

  predicate Unusable(w: World) {
    w.Up? && (w.handle.poisoned || w.handle.closed)
  }

  /** A poisoned or closed handle never writes again: until the directory is opened
      anew every run leaves its records and its state as they are. */
  lemma {:induction false} UnusableNeverWrites(setup: Setup, w: World, d: Durable, events: seq<Event>)
    requires setup.Valid() && Unusable(w) && forall i :: 0 <= i < |events| ==> !events[i].Reopened?
    ensures var w' := Run(setup, w, d, events).0;
            && Unusable(w') && w'.handle.log == w.handle.log && w'.handle.first == w.handle.first
            && w'.handle.state == w.handle.state
    ensures Run(setup, w, d, events).1 == d
    decreases |events|
  {
    hide WriteCheckpoint, Persist, TransactionFits, CheckpointSurvives, GroupSurvives;
    if events != [] {
      UnusableNeverWrites(setup, Next(setup, w, events[0]), NextDurable(setup, w, d, events[0]), events[1..]);
    }
  }

  /** Closing is final, reports success the second time whatever happened, and
      otherwise whether the sync did. */
  lemma {:induction false} ClosesOnce(h: Handle, synced: bool)
    ensures var o := Shutdown(h, synced);
            && o.handle.closed && o.ok == (h.closed || synced) && o.handle.log == h.log && o.handle.state == h.state
            && (o.handle.poisoned <==> h.poisoned || (!h.closed && !synced))
  {
  }
}
