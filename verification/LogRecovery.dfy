/**
 The durable record format and the recovery interpreter.

 A transaction or checkpoint body is cut into chunks and followed by one Commit
 record. Recovery folds the records: chunks collect in a pending group, Commit
 applies the reassembled body, Abort discards it.
 */
module LogRecovery {
  import opened Wrappers
  import opened Arithmetic
  import opened Digests
  import opened LogTables

  const FORMAT_VERSION: nat := 1
  const MAX_GROUP_CHUNKS: nat := 65_536
  const DEFAULT_MAX_VALUE_BYTES: nat := 64 * 1024 * 1024

  datatype Identity = Identity(formatVersion: nat, storeKind: string, publicScope: Bytes, generation: nat)
  {
    predicate Valid() {
      && formatVersion == FORMAT_VERSION
      && 1 <= |storeKind| <= MAX_TABLE_NAME_BYTES
      && 1 <= |publicScope| <= DEFAULT_MAX_VALUE_BYTES
    }
  }

  datatype Config = Config(maxChunkBytes: nat, maxValueBytes: nat, maxTransactionBytes: nat,
                           maxCheckpointBytes: nat, checkpointAfterTransactions: nat,
                           checkpointAfterBytes: nat)
  {
    predicate Valid() {
      && maxChunkBytes > 0 && maxValueBytes > 0
      && maxTransactionBytes >= maxValueBytes && maxCheckpointBytes >= maxValueBytes
      && checkpointAfterTransactions > 0 && checkpointAfterBytes > 0
    }
  }

  datatype State = State(revision: nat, tables: Tables)

  datatype GroupKind = TransactionGroup | CheckpointGroup

  datatype Body =
    | TransactionBody(baseRevision: nat, revision: nat, operations: seq<Op>)
    | CheckpointBody(identity: Identity, revision: nat, tables: Tables)

  function KindOf(body: Body): GroupKind {
    if body.TransactionBody? then TransactionGroup else CheckpointGroup
  }

  /** The digest, the canonical body encoding, the encoded size of a record and
      the size estimate that precedes a checkpoint: foreign or size-only code. */
  datatype Codec = Codec(hash: Bytes -> Digest, encode: Body -> Bytes,
                         decode: (GroupKind, Bytes) -> Option<Body>,
                         recordBytes: Record -> nat, estimateFits: Tables -> bool)
  {
    /** Decoding an encoded body of the same kind gives the body back, and no
        encoding is empty. */
    ghost predicate Lawful() {
      forall b: Body :: decode(KindOf(b), encode(b)) == Some(b) && encode(b) != []
    }
  }

  datatype Record =
    | Chunk(version: nat, kind: GroupKind, groupId: nat, index: nat, count: nat, hash: Digest, bytes: Bytes)
    | Commit(version: nat, kind: GroupKind, groupId: nat, count: nat, hash: Digest)
    | Abort(version: nat, kind: GroupKind, groupId: nat, count: nat, hash: Digest)

  datatype Pending = Pending(kind: GroupKind, groupId: nat, count: nat, hash: Digest,
                             chunks: seq<Option<Bytes>>)

  datatype Recovered = Recovered(state: State, pending: Option<Pending>, initialized: bool,
                                 replayed: nat)

  const EMPTY_STATE: State := State(0, map[])

  predicate ValidTables(tables: Tables, maxValueBytes: nat) {
    forall t :: t in tables ==>
      ValidName(t) && forall k :: k in tables[t] ==> ValidKey(k) && |tables[t][k]| <= maxValueBytes
  }

  /** Everything one store is opened with. */
  datatype Setup = Setup(config: Config, identity: Identity, codec: Codec)
  {
    ghost predicate Valid() {
      config.Valid() && identity.Valid() && codec.Lawful()
    }

    function MaxBody(kind: GroupKind): nat {
      if kind.TransactionGroup? then config.maxTransactionBytes else config.maxCheckpointBytes
    }
  }

  function Joined(chunks: seq<Option<Bytes>>): Bytes {
    if chunks == [] then []
    else
      var last := chunks[|chunks| - 1];
      Joined(chunks[..|chunks| - 1]) + (if last.Some? then last.value else [])
  }

  predicate Complete(chunks: seq<Option<Bytes>>) {
    forall i :: 0 <= i < |chunks| ==> chunks[i].Some?
  }

  /** Effect of a committed body on the recovered state. */
  function CommitBody(setup: Setup, r: Recovered, body: Body): (out: Result<Recovered>) {
    match body
    case TransactionBody(baseRevision, revision, operations) =>
      if !r.initialized
         || baseRevision != r.state.revision || r.state.revision >= U64_MAX
         || revision != r.state.revision + 1
         || (exists i :: 0 <= i < |operations| && !RecoverableOp(operations[i], setup.config.maxValueBytes))
      then Err
      else Ok(Recovered(State(revision, ApplyAll(r.state.tables, operations)), None, true, r.replayed + 1))
    case CheckpointBody(identity, revision, tables) =>
      if !identity.Valid() || identity != setup.identity
         || !ValidTables(tables, setup.config.maxValueBytes)
      then Err
      else Ok(Recovered(State(revision, tables), None, true, r.replayed))
  }

  /** One iteration of the recovery loop. */
  function Step(setup: Setup, r: Recovered, record: Record): (out: Result<Recovered>) {
    if record.version != FORMAT_VERSION then Err
    else
      match record
      case Chunk(_, kind, groupId, index, count, hash, bytes) =>
        if count == 0 || count > MAX_GROUP_CHUNKS || index >= count
           || |bytes| > setup.config.maxChunkBytes then Err
        else if r.pending.None? then
          var chunks := seq(count, i => None)[index := Some(bytes)];
          Ok(r.(pending := Some(Pending(kind, groupId, count, hash, chunks))))
        else
          var p := r.pending.value;
          if p.kind != kind || p.groupId != groupId || p.count != count || p.hash != hash
             || index >= |p.chunks| || p.chunks[index].Some? then Err
          else Ok(r.(pending := Some(p.(chunks := p.chunks[index := Some(bytes)]))))
      case Commit(_, kind, groupId, count, hash) =>
        if r.pending.None? then Err
        else
          var p := r.pending.value;
          if p.kind != kind || p.groupId != groupId || p.count != count || p.hash != hash
             || !Complete(p.chunks) then Err
          else
            var body := Joined(p.chunks);
            if |body| > setup.MaxBody(kind) || setup.codec.hash(body) != hash then Err
            else
              var b := setup.codec.decode(kind, body);
              if b.None? || KindOf(b.value) != kind then Err else CommitBody(setup, r, b.value)
      case Abort(_, kind, groupId, count, hash) =>
        if r.pending.None? then Err
        else
          var p := r.pending.value;
          if p.kind != kind || p.groupId != groupId || p.count != count || p.hash != hash then Err
          else Ok(r.(pending := None))
  }

  function Start(): Recovered {
    Recovered(EMPTY_STATE, None, false, 0)
  }

  /** Interpretation of a whole retained log. */
  function Replay(setup: Setup, r: Recovered, log: seq<Record>): (out: Result<Recovered>) {
    if log == [] then Ok(r)
    else
      match Replay(setup, r, log[..|log| - 1])
      case Err => Err
      case Ok(mid) => Step(setup, mid, log[|log| - 1])
  }

  lemma {:induction false} ReplaySplit(setup: Setup, r: Recovered, a: seq<Record>, b: seq<Record>)
    ensures Replay(setup, r, a + b) ==
            match Replay(setup, r, a)
            case Err => Err
            case Ok(mid) => Replay(setup, mid, b)
  {
    if b == [] {
      assert a + b == a;
    } else {
      ReplaySplit(setup, r, a, b[..|b| - 1]);
      assert (a + b)[..|a + b| - 1] == a + b[..|b| - 1];
    }
  }

  /** Concatenates the collected chunks. */
  method JoinChunks(chunks: seq<Option<Bytes>>) returns (body: Bytes)
    ensures body == Joined(chunks)
  {
    body := [];
    for i := 0 to |chunks|
      invariant body == Joined(chunks[..i])
    {
      assert chunks[..i + 1][..i] == chunks[..i];
      if chunks[i].Some? {
        body := body + chunks[i].value;
      }
    }
    assert chunks[..|chunks|] == chunks;
  }

  /** Adds one chunk to the pending group, opening it if there is none. */
  method TakeChunk(setup: Setup, r: Recovered, record: Record) returns (out: Result<Recovered>)
    requires record.Chunk? && record.version == FORMAT_VERSION
    ensures out == Step(setup, r, record)
  {
    if record.count == 0 || record.count > MAX_GROUP_CHUNKS || record.index >= record.count
       || |record.bytes| > setup.config.maxChunkBytes {
      return Err;
    }
    match r.pending {
      case None =>
        var chunks := seq(record.count, i => None)[record.index := Some(record.bytes)];
        return Ok(r.(pending := Some(
          Pending(record.kind, record.groupId, record.count, record.hash, chunks))));
      case Some(group) =>
        if group.kind != record.kind || group.groupId != record.groupId
           || group.count != record.count || group.hash != record.hash
           || record.index >= |group.chunks| || group.chunks[record.index].Some? {
          return Err;
        }
        return Ok(r.(pending := Some(
          group.(chunks := group.chunks[record.index := Some(record.bytes)]))));
    }
  }

  /** Reassembles, checks and applies the pending group. */
  method TakeCommit(setup: Setup, r: Recovered, record: Record) returns (out: Result<Recovered>)
    requires record.Commit? && record.version == FORMAT_VERSION
    ensures out == Step(setup, r, record)
  {
    if r.pending.None? {
      return Err;
    }
    var group := r.pending.value;
    if group.kind != record.kind || group.groupId != record.groupId || group.count != record.count
       || group.hash != record.hash || !Complete(group.chunks) {
      return Err;
    }
    var bytes := JoinChunks(group.chunks);
    if |bytes| > setup.MaxBody(record.kind) || setup.codec.hash(bytes) != record.hash {
      return Err;
    }
    var body := setup.codec.decode(record.kind, bytes);
    if body.None? || KindOf(body.value) != record.kind {
      return Err;
    }
    match body.value {
      case TransactionBody(baseRevision, revision, operations) =>
        if !r.initialized || baseRevision != r.state.revision || r.state.revision >= U64_MAX
           || revision != r.state.revision + 1 {
          return Err;
        }
        for i := 0 to |operations|
          invariant forall j :: 0 <= j < i ==> RecoverableOp(operations[j], setup.config.maxValueBytes)
        {
          if !RecoverableOp(operations[i], setup.config.maxValueBytes) {
            return Err;
          }
        }
        var tables := ApplyOperations(r.state.tables, operations);
        return Ok(Recovered(State(revision, tables), None, true, r.replayed + 1));
      case CheckpointBody(identity, revision, tables) =>
        if !identity.Valid() || identity != setup.identity
           || !ValidTables(tables, setup.config.maxValueBytes) {
          return Err;
        }
        return Ok(Recovered(State(revision, tables), None, true, r.replayed));
    }
  }

  /** Discards the pending group an Abort record names. */
  method TakeAbort(setup: Setup, r: Recovered, record: Record) returns (out: Result<Recovered>)
    requires record.Abort? && record.version == FORMAT_VERSION
    ensures out == Step(setup, r, record)
  {
    if r.pending.None? || r.pending.value.kind != record.kind
       || r.pending.value.groupId != record.groupId || r.pending.value.count != record.count
       || r.pending.value.hash != record.hash {
      return Err;
    }
    return Ok(r.(pending := None));
  }

  /** The recovery loop over the retained records. */
  method Recover(setup: Setup, log: seq<Record>) returns (out: Result<Recovered>)
    ensures out == Replay(setup, Start(), log)
  {
    var r := Start();
    for i := 0 to |log|
      invariant Replay(setup, Start(), log[..i]) == Ok(r)
    {
      assert log[..i + 1][..i] == log[..i];
      var record := log[i];
      var next: Result<Recovered> := Err;
      if record.version == FORMAT_VERSION {
        match record {
          case Chunk(_, _, _, _, _, _, _) => next := TakeChunk(setup, r, record);
          case Commit(_, _, _, _, _) => next := TakeCommit(setup, r, record);
          case Abort(_, _, _, _, _) => next := TakeAbort(setup, r, record);
        }
      }
      assert Replay(setup, Start(), log[..i + 1]) == next;
      if next.Err? {
        Rejected(setup, log, i + 1);
        return Err;
      }
      r := next.value;
    }
    assert log[..|log|] == log;
    return Ok(r);
  }

  /** A rejected prefix rejects the log. */
  lemma {:induction false} Rejected(setup: Setup, log: seq<Record>, i: nat)
    requires i <= |log| && Replay(setup, Start(), log[..i]).Err?
    ensures Replay(setup, Start(), log).Err?
  {
    ReplaySplit(setup, Start(), log[..i], log[i..]);
    assert log == log[..i] + log[i..];
  }

  /** A body cut into chunks of at most `n` bytes. */
  ghost function Chunks(body: Bytes, n: nat): (r: seq<Bytes>)
    requires n > 0
    decreases |body|
  {
    if body == [] then []
    else if |body| <= n then [body]
    else [body[..n]] + Chunks(body[n..], n)
  }

  ghost function JoinedBytes(chunks: seq<Bytes>): Bytes {
    if chunks == [] then [] else chunks[0] + JoinedBytes(chunks[1..])
  }

  lemma {:induction false} JoinedCons(head: Bytes, rest: seq<Bytes>)
    ensures JoinedBytes([head] + rest) == head + JoinedBytes(rest)
  {
    assert ([head] + rest)[1..] == rest;
  }

  lemma {:induction false} ChunksJoin(body: Bytes, n: nat)
    requires n > 0
    ensures JoinedBytes(Chunks(body, n)) == body
    ensures forall i :: 0 <= i < |Chunks(body, n)| ==> |Chunks(body, n)[i]| <= n
    ensures body != [] ==> Chunks(body, n) != []
    decreases |body|
  {
    if |body| > n {
      var head, tail := body[..n], body[n..];
      ChunksJoin(tail, n);
      JoinedCons(head, Chunks(tail, n));
      assert body == head + tail;
    } else if body != [] {
      JoinedCons(body, []);
    }
  }
}
