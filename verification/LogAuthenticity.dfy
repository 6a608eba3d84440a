/**
 Which records recovery accepts, stated over the records themselves: a commit is
 taken exactly when the chunks before it are one whole group whose bytes hash to
 the digest the commit names and decode to a body that fits the state.
 */
module LogAuthenticity {
  import opened Wrappers
  import opened Arithmetic
  import opened FiniteSets
  import opened LogTables
  import opened LogRecovery
  import opened LogGroups

  ghost predicate AllChunks(rs: seq<Record>) {
    forall j :: 0 <= j < |rs| ==> rs[j].Chunk?
  }

  /** Well-formed chunks of one group, no index twice. */
  ghost predicate Uniform(setup: Setup, rs: seq<Record>) {
    && AllChunks(rs)
    && (forall j :: 0 <= j < |rs| ==>
          && rs[j].version == 1 && 1 <= rs[j].count <= MAX_GROUP_CHUNKS && rs[j].index < rs[j].count
          && |rs[j].bytes| <= setup.config.maxChunkBytes
          && rs[j].kind == rs[0].kind && rs[j].groupId == rs[0].groupId && rs[j].count == rs[0].count
          && rs[j].hash == rs[0].hash)
    && (forall i, j :: 0 <= i < j < |rs| ==> rs[i].index != rs[j].index)
  }

  /** What the chunks put in each place of their group. */
  ghost function Slots(rs: seq<Record>, count: nat): (s: seq<Option<Bytes>>)
    requires AllChunks(rs) && forall j :: 0 <= j < |rs| ==> rs[j].index < count
    ensures |s| == count
  {
    if rs == [] then seq(count, _ => None)
    else
      var last := rs[|rs| - 1];
      Slots(rs[..|rs| - 1], count)[last.index := Some(last.bytes)]
  }

  /** A place is filled by the chunk that names it. */
  lemma {:induction false} SlotAt(setup: Setup, rs: seq<Record>, count: nat, j: nat)
    requires Uniform(setup, rs) && j < |rs| && forall i :: 0 <= i < |rs| ==> rs[i].index < count
    ensures Slots(rs, count)[rs[j].index] == Some(rs[j].bytes)
  {
    var n := |rs| - 1;
    if j < n {
      SlotAt(setup, rs[..n], count, j);
    }
  }

  lemma {:induction false} SlotFilledBy(rs: seq<Record>, count: nat, i: nat)
    requires AllChunks(rs) && i < count && forall j :: 0 <= j < |rs| ==> rs[j].index < count
    ensures Slots(rs, count)[i].Some? ==> exists j :: 0 <= j < |rs| && rs[j].index == i
  {
    if rs != [] {
      var init := rs[..|rs| - 1];
      SlotFilledBy(init, count, i);
      if Slots(init, count)[i].Some? {
        var j :| 0 <= j < |init| && init[j].index == i;
        assert rs[j].index == i;
      } else {
        assert Slots(rs, count)[i].Some? ==> rs[|rs| - 1].index == i;
      }
    }
  }

  /** A chunk that stands on its own. */
  ghost predicate WellFormedChunk(setup: Setup, c: Record) {
    && c.Chunk? && c.version == 1 && 1 <= c.count <= MAX_GROUP_CHUNKS && c.index < c.count
    && |c.bytes| <= setup.config.maxChunkBytes
  }

  predicate SameGroup(c: Record, d: Record)
    requires c.Chunk? && d.Chunk?
  {
    c.kind == d.kind && c.groupId == d.groupId && c.count == d.count && c.hash == d.hash
  }

  lemma {:induction false} UniformSplit(setup: Setup, init: seq<Record>, last: Record)
    requires init != [] && AllChunks(init) && last.Chunk?
    ensures Uniform(setup, init + [last]) <==>
              && Uniform(setup, init) && WellFormedChunk(setup, last) && SameGroup(last, init[0])
              && forall j :: 0 <= j < |init| ==> init[j].index != last.index
  {
    var rs := init + [last];
    assert forall j :: 0 <= j < |init| ==> rs[j] == init[j];
    assert rs[|init|] == last;
  }

  lemma {:induction false} UniformOne(setup: Setup, c: Record)
    requires c.Chunk?
    ensures Uniform(setup, [c]) <==> WellFormedChunk(setup, c)
  {
    assert [c][0] == c;
  }

  lemma {:induction false} SlotsNext(init: seq<Record>, last: Record, count: nat)
    requires AllChunks(init) && last.Chunk? && last.index < count
    requires forall j :: 0 <= j < |init| ==> init[j].index < count
    ensures Slots(init + [last], count) == Slots(init, count)[last.index := Some(last.bytes)]
  {
    assert (init + [last])[..|init|] == init;
  }

  lemma {:induction false} FirstChunk(setup: Setup, r: Recovered, c: Record)
    requires r.pending.None? && c.Chunk?
    ensures Replay(setup, r, [c]).Ok? <==> WellFormedChunk(setup, c)
    ensures Replay(setup, r, [c]).Ok? ==>
              Replay(setup, r, [c]).value
              == r.(pending := Some(Pending(c.kind, c.groupId, c.count, c.hash, Slots([c], c.count))))
  {
    assert [c][..0] == [] && Replay(setup, r, []) == Ok(r);
    if c.index < c.count {
      SlotsNext([], c, c.count);
      assert [] + [c] == [c];
    }
  }

  lemma {:induction false} LaterChunk(setup: Setup, r: Recovered, p: Pending, c: Record)
    requires r.pending == Some(p) && |p.chunks| == p.count && c.Chunk?
    ensures Step(setup, r, c).Ok? <==>
              && WellFormedChunk(setup, c)
              && p.kind == c.kind && p.groupId == c.groupId && p.count == c.count && p.hash == c.hash
              && p.chunks[c.index].None?
    ensures Step(setup, r, c).Ok? ==>
              Step(setup, r, c).value == r.(pending := Some(p.(chunks := p.chunks[c.index := Some(c.bytes)])))
  {
  }

  /** Replaying chunks collects them, exactly when they are well-formed chunks of
      one group. */
  lemma {:induction false} ReplayOfChunks(setup: Setup, r: Recovered, rs: seq<Record>)
    requires r.pending.None? && AllChunks(rs) && rs != []
    ensures Replay(setup, r, rs).Ok? <==> Uniform(setup, rs)
    ensures Replay(setup, r, rs).Ok? ==>
              Replay(setup, r, rs).value
              == r.(pending := Some(Pending(rs[0].kind, rs[0].groupId, rs[0].count, rs[0].hash,
                                            Slots(rs, rs[0].count))))
  {
    var n := |rs| - 1;
    var init, last := rs[..n], rs[n];
    if n == 0 {
      assert rs == [last];
      FirstChunk(setup, r, last);
      UniformOne(setup, last);
    } else {
      assert rs == init + [last];
      ReplayOfChunks(setup, r, init);
      UniformSplit(setup, init, last);
      if Uniform(setup, init) {
        AddChunk(setup, r, init, last);
      }
    }
  }

  lemma {:induction false} AddChunk(setup: Setup, r: Recovered, init: seq<Record>, last: Record)
    requires r.pending.None? && init != [] && Uniform(setup, init) && last.Chunk?
    ensures var at := r.(pending := Some(Pending(init[0].kind, init[0].groupId, init[0].count, init[0].hash,
                                                 Slots(init, init[0].count))));
            && (Step(setup, at, last).Ok? <==>
                  && WellFormedChunk(setup, last) && SameGroup(last, init[0])
                  && forall j :: 0 <= j < |init| ==> init[j].index != last.index)
            && (Step(setup, at, last).Ok? ==>
                  Step(setup, at, last).value
                  == r.(pending := Some(Pending(init[0].kind, init[0].groupId, init[0].count, init[0].hash,
                                                Slots(init + [last], init[0].count)))))
  {
    var count := init[0].count;
    assert AllChunks(init) && forall j :: 0 <= j < |init| ==> init[j].index < count;
    hide Uniform, Slots, Step;
    var p := Pending(init[0].kind, init[0].groupId, count, init[0].hash, Slots(init, count));
    LaterChunk(setup, r.(pending := Some(p)), p, last);
    if last.index < count {
      NextChunk(setup, init, last);
      SlotsNext(init, last, count);
    }
  }

  /** The place of the next chunk is free exactly when no chunk named it before. */
  lemma {:induction false} NextChunk(setup: Setup, init: seq<Record>, last: Record)
    requires init != [] && Uniform(setup, init) && last.Chunk? && last.index < init[0].count
    ensures Slots(init, init[0].count)[last.index].None?
       <==> forall j :: 0 <= j < |init| ==> init[j].index != last.index
  {
    SlotFilledBy(init, init[0].count, last.index);
    if j :| 0 <= j < |init| && init[j].index == last.index {
      SlotAt(setup, init, init[0].count, j);
    }
  }

  ghost function Indices(rs: seq<Record>): set<nat>
    requires AllChunks(rs)
  {
    set j | 0 <= j < |rs| :: rs[j].index
  }

  ghost predicate DistinctIndices(rs: seq<Record>)
    requires AllChunks(rs)
  {
    forall i, j :: 0 <= i < j < |rs| ==> rs[i].index != rs[j].index
  }

  lemma {:induction false} IndicesNext(rs: seq<Record>)
    requires rs != [] && AllChunks(rs) && DistinctIndices(rs)
    ensures var n := |rs| - 1;
            && Indices(rs) == Indices(rs[..n]) + {rs[n].index} && rs[n].index !in Indices(rs[..n])
            && DistinctIndices(rs[..n])
  {
    var n := |rs| - 1;
    var init := rs[..n];
    forall i | i in Indices(init) ensures i in Indices(rs) && i != rs[n].index {
      var j :| 0 <= j < n && init[j].index == i;
      assert rs[j].index == i;
    }
    forall i | i in Indices(rs) && i != rs[n].index ensures i in Indices(init) {
      var j :| 0 <= j < |rs| && rs[j].index == i;
      assert init[j].index == i;
    }
    assert rs[n].index in Indices(rs);
  }

  lemma {:induction false} IndexCount(rs: seq<Record>)
    requires AllChunks(rs) && DistinctIndices(rs)
    ensures |Indices(rs)| == |rs|
  {
    if rs != [] {
      IndicesNext(rs);
      IndexCount(rs[..|rs| - 1]);
    }
  }

  lemma {:induction false} AllFilled(setup: Setup, rs: seq<Record>, count: nat)
    requires Uniform(setup, rs) && |rs| == count && forall j :: 0 <= j < |rs| ==> rs[j].index < count
    ensures Complete(Slots(rs, count))
  {
    hide Slots;
    IndexCount(rs);
    assert Indices(rs) <= UpTo(count);
    SameSizeSubset(Indices(rs), UpTo(count));
    forall i | 0 <= i < count ensures Slots(rs, count)[i].Some? {
      assert i in UpTo(count);
      var j :| 0 <= j < |rs| && rs[j].index == i;
      SlotAt(setup, rs, count, j);
    }
  }

  lemma {:induction false} AllNamed(setup: Setup, rs: seq<Record>, count: nat)
    requires Uniform(setup, rs) && (forall j :: 0 <= j < |rs| ==> rs[j].index < count) && Complete(Slots(rs, count))
    ensures |rs| == count
  {
    assert AllChunks(rs) && DistinctIndices(rs);
    hide Slots, Uniform;
    IndexCount(rs);
    assert Indices(rs) <= UpTo(count);
    SubsetSize(Indices(rs), UpTo(count));
    forall i | i in UpTo(count) ensures i in Indices(rs) {
      SlotFilledBy(rs, count, i);
    }
    SubsetSize(UpTo(count), Indices(rs));
  }

  /** A group is whole exactly when it has as many chunks as it announces. */
  lemma {:induction false} WholeByCount(setup: Setup, rs: seq<Record>)
    requires rs != [] && Uniform(setup, rs)
    ensures Complete(Slots(rs, rs[0].count)) <==> |rs| == rs[0].count
  {
    var count := rs[0].count;
    assert forall j :: 0 <= j < |rs| ==> rs[j].index < count;
    hide Uniform, Slots, Complete;
    if |rs| == count {
      AllFilled(setup, rs, count);
    }
    if Complete(Slots(rs, count)) {
      AllNamed(setup, rs, count);
    }
  }

  /** The chunks are one whole group, in any order, and `parts` are their bytes by
      index. */
  ghost predicate Assembles(setup: Setup, rs: seq<Record>, parts: seq<Bytes>) {
    && rs != [] && Uniform(setup, rs) && |rs| == rs[0].count == |parts|
    && forall j :: 0 <= j < |rs| ==> parts[rs[j].index] == rs[j].bytes
  }

  /** The commit names the group, and the joined bytes hash to its digest, are
      within the bound and decode to this body. */
  ghost predicate Vouches(setup: Setup, rs: seq<Record>, c: Record, parts: seq<Bytes>, b: Body) {
    && c.Commit? && c.version == 1 && Assembles(setup, rs, parts)
    && c.kind == rs[0].kind && c.groupId == rs[0].groupId && c.count == rs[0].count && c.hash == rs[0].hash
    && setup.codec.hash(JoinedBytes(parts)) == c.hash
    && |JoinedBytes(parts)| <= (if c.kind.TransactionGroup? then setup.config.maxTransactionBytes
                                else setup.config.maxCheckpointBytes)
    && setup.codec.decode(c.kind, JoinedBytes(parts)) == Some(b)
    && (c.kind.TransactionGroup? <==> b.TransactionBody?)
  }

  ghost predicate WellFormedOp(op: Op, maxValueBytes: nat) {
    match op
    case Insert(t, k, v) => ValidName(t) && 1 <= |k| <= MAX_KEY_BYTES && |v| <= maxValueBytes
    case Remove(t, k) => ValidName(t) && 1 <= |k| <= MAX_KEY_BYTES
    case RemoveRange(t, s, e) =>
      ValidName(t) && 1 <= |s| <= MAX_KEY_BYTES && (e.Some? ==> 1 <= |e.value| <= MAX_KEY_BYTES)
    case Clear(t) => ValidName(t)
  }

  /** The body continues the state: the next transaction, or a checkpoint of the
      same store. */
  ghost predicate Fits(setup: Setup, r: Recovered, b: Body) {
    match b
    case TransactionBody(base, revision, ops) =>
      && r.initialized && base == r.state.revision && base < U64_MAX && revision == base + 1
      && forall i :: 0 <= i < |ops| ==> WellFormedOp(ops[i], setup.config.maxValueBytes)
    case CheckpointBody(identity, _, tables) =>
      && identity == setup.identity && identity.Valid()
      && forall t :: t in tables ==>
           ValidName(t) && forall k :: k in tables[t] ==>
             1 <= |k| <= MAX_KEY_BYTES && |tables[t][k]| <= setup.config.maxValueBytes
  }

  /** The state the body leads to. */
  ghost function Outcome(state: State, b: Body): State {
    match b
    case TransactionBody(_, revision, ops) => State(revision, ApplyAll(state.tables, ops))
    case CheckpointBody(_, revision, tables) => State(revision, tables)
  }

  lemma {:induction false} BodyDecides(setup: Setup, r: Recovered, b: Body)
    ensures CommitBody(setup, r, b).Ok? <==> Fits(setup, r, b)
    ensures CommitBody(setup, r, b).Ok? ==>
              var out := CommitBody(setup, r, b).value;
              out.state == Outcome(r.state, b) && out.pending.None? && out.initialized
  {
    match b
    case TransactionBody(_, _, ops) =>
      forall i | 0 <= i < |ops|
        ensures RecoverableOp(ops[i], setup.config.maxValueBytes) == WellFormedOp(ops[i], setup.config.maxValueBytes)
      {
      }
    case CheckpointBody(_, _, _) =>
  }

  ghost function PartsOf(rs: seq<Record>, count: nat): seq<Bytes>
    requires AllChunks(rs) && (forall j :: 0 <= j < |rs| ==> rs[j].index < count)
    requires Complete(Slots(rs, count))
  {
    seq(count, i requires 0 <= i < count => Slots(rs, count)[i].value)
  }

  lemma {:induction false} PartsAssemble(setup: Setup, rs: seq<Record>)
    requires rs != [] && Uniform(setup, rs) && |rs| == rs[0].count && Complete(Slots(rs, rs[0].count))
    ensures Assembles(setup, rs, PartsOf(rs, rs[0].count))
    ensures Joined(Slots(rs, rs[0].count)) == JoinedBytes(PartsOf(rs, rs[0].count))
  {
    var count := rs[0].count;
    var parts := PartsOf(rs, count);
    forall j | 0 <= j < |rs| ensures parts[rs[j].index] == rs[j].bytes {
      SlotAt(setup, rs, count, j);
    }
    FilledJoins(parts);
    assert Filled(parts, |parts|) == Slots(rs, count);
  }

  lemma {:induction false} PartsUnique(setup: Setup, rs: seq<Record>, parts: seq<Bytes>)
    requires Assembles(setup, rs, parts) && Complete(Slots(rs, rs[0].count))
    ensures parts == PartsOf(rs, rs[0].count)
  {
    forall i | 0 <= i < |parts| ensures parts[i] == PartsOf(rs, rs[0].count)[i] {
      SlotFilledBy(rs, rs[0].count, i);
      var j :| 0 <= j < |rs| && rs[j].index == i;
      SlotAt(setup, rs, rs[0].count, j);
    }
  }

  /** One commit record after a whole group. */
  lemma {:induction false} CommitStep(setup: Setup, r: Recovered, rs: seq<Record>, c: Record)
    requires r.pending.None? && rs != [] && Uniform(setup, rs) && c.Commit?
    ensures var at := r.(pending := Some(Pending(rs[0].kind, rs[0].groupId, rs[0].count, rs[0].hash,
                                                 Slots(rs, rs[0].count))));
            && (Step(setup, at, c).Ok? <==>
                  exists parts, b :: Vouches(setup, rs, c, parts, b) && Fits(setup, r, b))
            && forall parts, b :: Step(setup, at, c).Ok? && Vouches(setup, rs, c, parts, b) ==>
                 && Step(setup, at, c).value.state == Outcome(r.state, b)
                 && Step(setup, at, c).value.pending.None? && Step(setup, at, c).value.initialized
  {
    assert AllChunks(rs) && forall j :: 0 <= j < |rs| ==> rs[j].index < rs[0].count;
    hide Uniform, Slots, JoinedBytes, Fits, Outcome, CommitBody;
    var slots := Slots(rs, rs[0].count);
    var at := r.(pending := Some(Pending(rs[0].kind, rs[0].groupId, rs[0].count, rs[0].hash, slots)));
    WholeByCount(setup, rs);
    if Complete(slots) {
      PartsAssemble(setup, rs);
      var parts := PartsOf(rs, rs[0].count);
      forall other | Assembles(setup, rs, other) ensures other == parts {
        PartsUnique(setup, rs, other);
      }
      var decoded := setup.codec.decode(c.kind, JoinedBytes(parts));
      if decoded.Some? {
        BodyDecides(setup, at, decoded.value);
        FitsIgnoresPending(setup, r, at, decoded.value);
        assert Vouches(setup, rs, c, parts, decoded.value) ==> Assembles(setup, rs, parts);
      }
    }
  }

  lemma {:induction false} FitsIgnoresPending(setup: Setup, r: Recovered, at: Recovered, b: Body)
    requires at.state == r.state && at.initialized == r.initialized
    ensures Fits(setup, at, b) == Fits(setup, r, b) && Outcome(at.state, b) == Outcome(r.state, b)
  {
  }

  /** Chunks and a commit replay exactly when the commit vouches for the chunks
      and the body fits, and then to exactly the body's outcome. */
  lemma {:induction false} CommitsExactly(setup: Setup, r: Recovered, rs: seq<Record>, c: Record)
    requires r.pending.None? && AllChunks(rs) && c.Commit?
    ensures Replay(setup, r, rs + [c]).Ok? <==>
              exists parts, b :: Vouches(setup, rs, c, parts, b) && Fits(setup, r, b)
    ensures forall parts, b :: Replay(setup, r, rs + [c]).Ok? && Vouches(setup, rs, c, parts, b) ==>
              var out := Replay(setup, r, rs + [c]).value;
              out.state == Outcome(r.state, b) && out.pending.None? && out.initialized
  {
    hide Slots, JoinedBytes, Fits, Outcome;
    assert (rs + [c])[..|rs|] == rs;
    if rs != [] {
      ReplayOfChunks(setup, r, rs);
      if Uniform(setup, rs) {
        CommitStep(setup, r, rs, c);
      }
    }
  }

  /** Chunks and an abort replay exactly when the abort names the group of the
      chunks, and then to where they began. */
  lemma {:induction false} AbortsExactly(setup: Setup, r: Recovered, rs: seq<Record>, a: Record)
    requires r.pending.None? && AllChunks(rs) && a.Abort?
    ensures Replay(setup, r, rs + [a]).Ok? <==>
              && rs != [] && Uniform(setup, rs) && a.version == 1
              && a.kind == rs[0].kind && a.groupId == rs[0].groupId && a.count == rs[0].count && a.hash == rs[0].hash
    ensures Replay(setup, r, rs + [a]).Ok? ==> Replay(setup, r, rs + [a]).value == r
  {
    hide Slots, Uniform;
    assert (rs + [a])[..|rs|] == rs;
    if rs != [] {
      ReplayOfChunks(setup, r, rs);
    }
  }

  /** A group written by the store whose bytes were replaced, so that the digest of
      the body changed, is rejected. */
  lemma {:induction false} AlteredGroupRejected(setup: Setup, r: Recovered, kind: GroupKind, groupId: nat, body: Bytes,
                                                rs: seq<Record>, bytes: seq<Bytes>)
    requires setup.config.maxChunkBytes > 0 && r.pending.None? && |rs| == |bytes| == ChunkCount(setup, body)
    requires forall j :: 0 <= j < |rs| ==>
               rs[j] == Chunk(1, kind, groupId, j, ChunkCount(setup, body), setup.codec.hash(body), bytes[j])
    requires setup.codec.hash(JoinedBytes(bytes)) != setup.codec.hash(body)
    ensures Replay(setup, r, rs + [Group(setup, kind, groupId, body)[ChunkCount(setup, body)]]).Err?
  {
    hide Fits, JoinedBytes;
    var c := Group(setup, kind, groupId, body)[ChunkCount(setup, body)];
    CommitsExactly(setup, r, rs, c);
    forall parts, b | Vouches(setup, rs, c, parts, b) ensures parts == bytes {
      forall j | 0 <= j < |parts| ensures parts[j] == bytes[j] {
        assert rs[j].index == j;
      }
    }
  }
}
