/**
 Replay of one appended group: a complete group has exactly the effect of its
 body, any strict prefix only leaves a pending group, and an Abort record after
 such a prefix leaves nothing.
 */
module LogGroups {
  import opened Wrappers
  import opened LogTables
  import opened LogRecovery

  ghost function ChunkCount(setup: Setup, body: Bytes): nat
    requires setup.config.maxChunkBytes > 0
  {
    |Chunks(body, setup.config.maxChunkBytes)|
  }

  ghost function ChunkRecord(setup: Setup, kind: GroupKind, groupId: nat, body: Bytes, i: nat): Record
    requires setup.config.maxChunkBytes > 0 && i < ChunkCount(setup, body)
  {
    Chunk(FORMAT_VERSION, kind, groupId, i, ChunkCount(setup, body), setup.codec.hash(body),
          Chunks(body, setup.config.maxChunkBytes)[i])
  }

  /** The records one persisted body becomes. */
  ghost function Group(setup: Setup, kind: GroupKind, groupId: nat, body: Bytes): (g: seq<Record>)
    requires setup.config.maxChunkBytes > 0
  {
    seq(ChunkCount(setup, body),
        i requires 0 <= i < ChunkCount(setup, body) => ChunkRecord(setup, kind, groupId, body, i))
    + [Commit(FORMAT_VERSION, kind, groupId, ChunkCount(setup, body), setup.codec.hash(body))]
  }

  method CutChunks(body: Bytes, n: nat) returns (chunks: seq<Bytes>)
    requires n > 0
    ensures chunks == Chunks(body, n)
  {
    chunks := [];
    var rest := body;
    while rest != []
      invariant chunks + Chunks(rest, n) == Chunks(body, n)
      decreases |rest|
    {
      if |rest| <= n {
        chunks := chunks + [rest];
        rest := [];
      } else {
        assert Chunks(rest, n) == [rest[..n]] + Chunks(rest[n..], n);
        chunks := chunks + [rest[..n]];
        rest := rest[n..];
      }
    }
  }

  /** Cuts a body into records; refused when the chunk count is out of bounds. */
  method BuildGroup(setup: Setup, kind: GroupKind, groupId: nat, body: Bytes)
    returns (r: Result<seq<Record>>)
    requires setup.config.maxChunkBytes > 0
    ensures r == if 1 <= ChunkCount(setup, body) <= MAX_GROUP_CHUNKS
                 then Ok(Group(setup, kind, groupId, body)) else Err
  {
    var hash := setup.codec.hash(body);
    var chunks := CutChunks(body, setup.config.maxChunkBytes);
    var count := |chunks|;
    if count == 0 || count > MAX_GROUP_CHUNKS {
      return Err;
    }
    var records: seq<Record> := [];
    for i := 0 to count
      invariant |records| == i
      invariant forall j :: 0 <= j < i ==> records[j] == ChunkRecord(setup, kind, groupId, body, j)
    {
      records := records + [Chunk(FORMAT_VERSION, kind, groupId, i, count, hash, chunks[i])];
    }
    records := records + [Commit(FORMAT_VERSION, kind, groupId, count, hash)];
    assert records == Group(setup, kind, groupId, body);
    return Ok(records);
  }

  /** The pending group after the first `k` chunks arrived. */
  ghost function Partial(setup: Setup, kind: GroupKind, groupId: nat, body: Bytes, k: nat): Pending
    requires setup.config.maxChunkBytes > 0
  {
    var chunks := Chunks(body, setup.config.maxChunkBytes);
    Pending(kind, groupId, |chunks|, setup.codec.hash(body), Filled(chunks, k))
  }

  ghost function Filled(chunks: seq<Bytes>, k: nat): (r: seq<Option<Bytes>>)
    ensures |r| == |chunks|
  {
    seq(|chunks|, i requires 0 <= i < |chunks| => if i < k then Some(chunks[i]) else None)
  }

  lemma {:induction false} FilledNext(chunks: seq<Bytes>, k: nat)
    requires k < |chunks|
    ensures Filled(chunks, k)[k := Some(chunks[k])] == Filled(chunks, k + 1)
  {
  }

  lemma {:induction false} FilledFirst(chunks: seq<Bytes>)
    requires |chunks| > 0
    ensures seq(|chunks|, i => None)[0 := Some(chunks[0])] == Filled(chunks, 1)
  {
  }

  /** A non-empty strict prefix of a group leaves the state alone and only a
      pending group behind. */
  lemma {:induction false} PrefixLeavesPending(setup: Setup, r: Recovered, kind: GroupKind,
                                               groupId: nat, body: Bytes, k: nat)
    requires setup.config.maxChunkBytes > 0 && r.pending.None?
    requires 1 <= k <= ChunkCount(setup, body) <= MAX_GROUP_CHUNKS
    ensures Replay(setup, r, Group(setup, kind, groupId, body)[..k])
         == Ok(r.(pending := Some(Partial(setup, kind, groupId, body, k))))
  {
    var chunks := Chunks(body, setup.config.maxChunkBytes);
    var g := Group(setup, kind, groupId, body);
    ChunksJoin(body, setup.config.maxChunkBytes);
    assert g[..k][..k - 1] == g[..k - 1];
    assert g[..k][k - 1] == ChunkRecord(setup, kind, groupId, body, k - 1);
    if k == 1 {
      assert g[..0] == [];
      FilledFirst(chunks);
    } else {
      PrefixLeavesPending(setup, r, kind, groupId, body, k - 1);
      FilledNext(chunks, k - 1);
    }
  }

  lemma {:induction false} JoinedBytesAppend(a: seq<Bytes>, x: Bytes)
    ensures JoinedBytes(a + [x]) == JoinedBytes(a) + x
  {
    if a == [] {
      assert a + [x] == [x];
      assert JoinedBytes([x]) == x + JoinedBytes([]);
    } else {
      JoinedBytesAppend(a[1..], x);
      assert (a + [x])[1..] == a[1..] + [x];
    }
  }

  lemma {:induction false} FilledJoins(chunks: seq<Bytes>)
    ensures Complete(Filled(chunks, |chunks|))
    ensures Joined(Filled(chunks, |chunks|)) == JoinedBytes(chunks)
  {
    if chunks != [] {
      var n := |chunks|;
      var init := chunks[..n - 1];
      FilledJoins(init);
      assert Filled(chunks, n)[..n - 1] == Filled(init, n - 1);
      JoinedBytesAppend(init, chunks[n - 1]);
      assert chunks == init + [chunks[n - 1]];
    }
  }

  /** A complete group replays as exactly the effect of its body. */
  lemma {:induction false} GroupCommits(setup: Setup, r: Recovered, groupId: nat, b: Body)
    requires setup.config.maxChunkBytes > 0 && setup.codec.Lawful() && r.pending.None?
    requires ChunkCount(setup, setup.codec.encode(b)) <= MAX_GROUP_CHUNKS
    requires |setup.codec.encode(b)| <= setup.MaxBody(KindOf(b))
    ensures Replay(setup, r, Group(setup, KindOf(b), groupId, setup.codec.encode(b)))
         == CommitBody(setup, r, b)
  {
    var body, kind := setup.codec.encode(b), KindOf(b);
    var g, n := Group(setup, kind, groupId, body), ChunkCount(setup, body);
    ChunksJoin(body, setup.config.maxChunkBytes);
    PrefixLeavesPending(setup, r, kind, groupId, body, n);
    FilledJoins(Chunks(body, setup.config.maxChunkBytes));
    assert g[..|g| - 1] == g[..n];
    assert setup.codec.decode(KindOf(b), setup.codec.encode(b)) == Some(b);
    CommitIgnoresPending(setup, r, Some(Partial(setup, kind, groupId, body, n)), b);
  }

  lemma {:induction false} CommitIgnoresPending(setup: Setup, r: Recovered, p: Option<Pending>, b: Body)
    ensures CommitBody(setup, r.(pending := p), b) == CommitBody(setup, r, b)
  {
  }

  /** The record a reopened store appends for a pending group. */
  function AbortOf(p: Pending): Record {
    Abort(FORMAT_VERSION, p.kind, p.groupId, p.count, p.hash)
  }

  /** Aborting whatever is pending restores the state with nothing pending. */
  lemma {:induction false} AbortClears(setup: Setup, log: seq<Record>, r: Recovered)
    requires Replay(setup, Start(), log) == Ok(r) && r.pending.Some?
    ensures Replay(setup, Start(), log + [AbortOf(r.pending.value)]) == Ok(r.(pending := None))
  {
    var after := log + [AbortOf(r.pending.value)];
    assert after[..|after| - 1] == log;
  }

  /** A group that starts while another is pending, or over chunks of its own, is
      rejected at its first chunk. */
  lemma {:induction false} PendingBlocksGroup(setup: Setup, r: Recovered, kind: GroupKind, groupId: nat, body: Bytes)
    requires setup.config.maxChunkBytes > 0 && ChunkCount(setup, body) >= 1 && r.pending.Some?
    requires var p := r.pending.value;
             || p.kind != kind || p.groupId != groupId || p.count != ChunkCount(setup, body)
             || p.hash != setup.codec.hash(body) || p.chunks == [] || p.chunks[0].Some?
    ensures Replay(setup, r, Group(setup, kind, groupId, body)).Err?
  {
    var g := Group(setup, kind, groupId, body);
    assert g[0] == ChunkRecord(setup, kind, groupId, body, 0);
    assert g[..1][..0] == [] && g[..1][0] == g[0];
    assert Replay(setup, r, g[..1]).Err?;
    ReplaySplit(setup, r, g[..1], g[1..]);
    assert g == g[..1] + g[1..];
  }

  /** Why a reopened store appends an abort record: behind any part of a group
      every further group is rejected, and behind its abort record every further
      group replays as if the part had never been written. */
  lemma {:induction false} AbortIsNeeded(setup: Setup, r: Recovered, kind: GroupKind, groupId: nat, body: Bytes, k: nat,
                                         kind': GroupKind, groupId': nat, body': Bytes)
    requires setup.config.maxChunkBytes > 0 && r.pending.None?
    requires 1 <= k <= ChunkCount(setup, body) <= MAX_GROUP_CHUNKS && ChunkCount(setup, body') >= 1
    ensures var part, next := Group(setup, kind, groupId, body)[..k], Group(setup, kind', groupId', body');
            && Replay(setup, r, part + next).Err?
            && Replay(setup, r, part + [AbortOf(Partial(setup, kind, groupId, body, k))] + next)
               == Replay(setup, r, next)
  {
    var part, next := Group(setup, kind, groupId, body)[..k], Group(setup, kind', groupId', body');
    var p := Partial(setup, kind, groupId, body, k);
    PrefixLeavesPending(setup, r, kind, groupId, body, k);
    ReplaySplit(setup, r, part, next);
    PendingBlocksGroup(setup, r.(pending := Some(p)), kind', groupId', body');
    var aborted := part + [AbortOf(p)];
    assert aborted[..|aborted| - 1] == part;
    assert r.(pending := Some(p)).(pending := None) == r;
    ReplaySplit(setup, r, aborted, next);
  }
}
