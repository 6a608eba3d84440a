/**
 The two ways a new lifecycle state is persisted, a journal delta or a full
 checkpoint, and that either leaves exactly that state stored.
 */
module HaPersist {
  import opened Wrappers
  import opened Digests
  import opened LogTables
  import opened HaTypes
  import opened HaLifecycle
  import opened HaStore
  import opened HaReload
  import opened FiniteSets

  function SealedDelta(hc: HaCodec, upserts: seq<WriteRecord>, removals: seq<CommandIdentity>): Delta {
    Delta(STATE_VERSION, upserts, removals, hc.deltaHash(upserts, removals))
  }

  function DeltaOps(hc: HaCodec, sequence: nat, deltaBytes: Bytes, metadataBytes: Bytes): seq<Op> {
    [Insert(JOURNAL_TABLE, JournalKey(sequence), deltaBytes), Insert(METADATA_TABLE, METADATA_KEY, metadataBytes)]
  }

  function RecordOps(hc: HaCodec, table: string, records: seq<WriteRecord>): seq<Op> {
    if records == [] then []
    else
      var r := records[|records| - 1];
      RecordOps(hc, table, records[..|records| - 1]) + [Insert(table, EncodeIdentity(r.command.identity), hc.record(r))]
  }

  function CheckpointOps(hc: HaCodec, records: seq<WriteRecord>, metadataBytes: Bytes): seq<Op> {
    [Clear(RECORDS_TABLE)] + RecordOps(hc, RECORDS_TABLE, records)
    + [Clear(JOURNAL_TABLE), Insert(METADATA_TABLE, METADATA_KEY, metadataBytes)]
  }

  lemma {:induction false} JournalKeyFresh(i: nat, n: nat)
    requires i < n <= U32_MAX
    ensures JournalKey(i) != JournalKey(n)
  {
    BigEndian.Limit8();
    BigEndian.RoundTrip(i, 8);
    BigEndian.RoundTrip(n, 8);
  }

  lemma {:induction false} JournalGrows(hc: HaCodec, t: Table, ds: seq<Delta>, d: Delta)
    requires IsJournal(hc, t, ds) && |ds| < U32_MAX
    ensures IsJournal(hc, t[JournalKey(|ds|) := hc.delta(d)], ds + [d])
  {
    var t', ds' := t[JournalKey(|ds|) := hc.delta(d)], ds + [d];
    forall i | 0 <= i < |ds'| ensures JournalKey(i) in t' && t'[JournalKey(i)] == hc.delta(ds'[i]) {
      if i < |ds| {
        JournalKeyFresh(i, |ds|);
      }
    }
    forall b | b in t' ensures exists i :: 0 <= i < |ds'| && JournalKey(i) == b {
      if b == JournalKey(|ds|) {
        assert ds'[|ds|] == d;
      } else {
        var i :| 0 <= i < |ds| && JournalKey(i) == b;
        assert 0 <= i < |ds'|;
      }
    }
  }

  lemma {:induction false} OneOp(tables: Tables, a: Op)
    ensures ApplyAll(tables, [a]) == Apply(tables, a)
  {
    assert [a][..0] == [];
  }

  lemma {:induction false} TwoOps(tables: Tables, a: Op, b: Op)
    ensures ApplyAll(tables, [a, b]) == Apply(Apply(tables, a), b)
  {
    assert [a, b][..1] == [a];
    OneOp(tables, a);
  }

  lemma {:induction false} TwoInserts(tables: Tables, journal: string, key: Bytes, value: Bytes, meta: string,
                                      metaKey: Bytes, m: Bytes,
                                      other: string)
    requires journal != meta && other != journal && other != meta
    ensures var after := ApplyAll(tables, [Insert(journal, key, value), Insert(meta, metaKey, m)]);
            && Lookup(after, meta, metaKey) == Some(m)
            && TableOf(after, other) == TableOf(tables, other)
            && TableOf(after, journal) == TableOf(tables, journal)[key := value]
  {
    TwoOps(tables, Insert(journal, key, value), Insert(meta, metaKey, m));
  }

  lemma {:induction false} LaidGrows(hc: HaCodec, records: Table, journal: Table, base: Writes, ds: seq<Delta>,
                                     d: Delta)
    requires Laid(hc, records, journal, base, ds) && |ds| < U32_MAX && ValidDelta(hc, d)
    ensures Laid(hc, records, journal[JournalKey(|ds|) := hc.delta(d)], base, ds + [d])
    ensures ApplyDeltas(base, ds + [d]) == ApplyDelta(ApplyDeltas(base, ds), d)
  {
    JournalGrows(hc, journal, ds, d);
    assert (ds + [d])[..|ds|] == ds;
  }

  /** Appending a delta stores the state it leads to. */
  lemma {:induction false} DeltaStores(hc: HaCodec, tables: Tables, base: Writes, ds: seq<Delta>, d: Delta,
                                       next: Lifecycle)
    requires Laid(hc, TableOf(tables, RECORDS_TABLE), TableOf(tables, JOURNAL_TABLE), base, ds)
    requires |ds| < U32_MAX && ValidDelta(hc, d)
    requires Inv(hc.hashes, next) && next.writes == ApplyDelta(ApplyDeltas(base, ds), d)
    ensures Stored(hc, ApplyAll(tables, DeltaOps(hc, |ds|, hc.delta(d), hc.metadata(MetadataOf(hc, next, |ds| + 1)))),
                   base, ds + [d], next)
  {
    var m := hc.metadata(MetadataOf(hc, next, |ds| + 1));
    LaidGrows(hc, TableOf(tables, RECORDS_TABLE), TableOf(tables, JOURNAL_TABLE), base, ds, d);
    TablesDiffer();
    TwoInserts(tables, JOURNAL_TABLE, JournalKey(|ds|), hc.delta(d), METADATA_TABLE, METADATA_KEY, m, RECORDS_TABLE);
  }

  /** Inserting the records one by one fills the cleared table with them. */
  lemma {:induction false} RecordOpsFill(hc: HaCodec, tables: Tables, table: string, records: seq<WriteRecord>)
    requires hc.Lawful() && table !in tables
    ensures IsRecordTable(hc, TableOf(ApplyAll(tables, RecordOps(hc, table, records)), table), ByIdentity(records))
  {
    if records != [] {
      var init, r := records[..|records| - 1], records[|records| - 1];
      RecordOpsFill(hc, tables, table, init);
      var ops := RecordOps(hc, table, records);
      assert ops[..|ops| - 1] == RecordOps(hc, table, init);
      var mid := ApplyAll(tables, RecordOps(hc, table, init));
      RecordTableInsert(hc, TableOf(mid, table), ByIdentity(init), r);
    }
  }

  lemma {:induction false} RecordTableInsert(hc: HaCodec, t: Table, w: Writes, r: WriteRecord)
    requires hc.Lawful() && IsRecordTable(hc, t, w)
    ensures IsRecordTable(hc, t[EncodeIdentity(r.command.identity) := hc.record(r)], w[r.command.identity := r])
  {
    var id := r.command.identity;
    var t', w' := t[EncodeIdentity(id) := hc.record(r)], w[id := r];
    forall k | k in w && EncodeIdentity(k) == EncodeIdentity(id) ensures k == id {
      IdentityInjective(k, id);
    }
    forall b | b in t' ensures exists k :: k in w' && EncodeIdentity(k) == b {
      if b == EncodeIdentity(id) {
        assert id in w';
      } else {
        var k :| k in w && EncodeIdentity(k) == b;
        assert k in w';
      }
    }
  }

  /** A listing in identity order reads back as the writes it lists. */
  lemma {:induction false} ListingPrefix(records: seq<WriteRecord>, w: Writes, n: nat, k: CommandIdentity)
    requires IsListing(records, w) && n <= |records| && (k in w ==> w[k].command.identity == k)
    ensures k in ByIdentity(records[..n]) <==> k in w && w[k] in records[..n]
    ensures k in ByIdentity(records[..n]) ==> ByIdentity(records[..n])[k] == w[k]
  {
    if n > 0 {
      ListingPrefix(records, w, n - 1, k);
      assert records[..n][..n - 1] == records[..n - 1];
      assert records[..n] == records[..n - 1] + [records[n - 1]];
    }
  }

  lemma {:induction false} ListingIsWrites(records: seq<WriteRecord>, w: Writes)
    requires IsListing(records, w) && forall k :: k in w ==> w[k].command.identity == k
    ensures ByIdentity(records) == w
  {
    assert records[..|records|] == records;
    forall k: CommandIdentity
      ensures k in ByIdentity(records) <==> k in w
      ensures k in w ==> ByIdentity(records)[k] == w[k]
    {
      ListingPrefix(records, w, |records|, k);
    }
  }

  lemma {:induction false} Rewritten(hc: HaCodec, tables: Tables, table: string, records: seq<WriteRecord>,
                                     journal: string,
                                     meta: string, metaKey: Bytes, m: Bytes)
    requires hc.Lawful() && journal != meta && table != journal && table != meta
    ensures var after := ApplyAll(tables, [Clear(table)] + RecordOps(hc, table, records)
                                          + [Clear(journal), Insert(meta, metaKey, m)]);
            && Lookup(after, meta, metaKey) == Some(m)
            && IsRecordTable(hc, TableOf(after, table), ByIdentity(records))
            && TableOf(after, journal) == map[]
  {
    hide IsRecordTable, RecordOps;
    var cleared := Apply(tables, Clear(table));
    var filled := ApplyAll(cleared, RecordOps(hc, table, records));
    OneOp(tables, Clear(table));
    RecordOpsFill(hc, cleared, table, records);
    TwoOps(filled, Clear(journal), Insert(meta, metaKey, m));
    ApplyAllSplit(tables, [Clear(table)], RecordOps(hc, table, records));
    ApplyAllSplit(tables, [Clear(table)] + RecordOps(hc, table, records), [Clear(journal), Insert(meta, metaKey, m)]);
  }

  /** A full checkpoint stores the state with an empty journal. */
  lemma {:induction false} CheckpointStores(hc: HaCodec, tables: Tables, records: seq<WriteRecord>, next: Lifecycle)
    requires hc.Lawful() && Inv(hc.hashes, next) && IsListing(records, next.writes)
    ensures Stored(hc, ApplyAll(tables, CheckpointOps(hc, records, hc.metadata(MetadataOf(hc, next, 0)))),
                   next.writes, [], next)
  {
    ListingIsWrites(records, next.writes);
    TablesDiffer();
    Rewritten(hc, tables, RECORDS_TABLE, records, JOURNAL_TABLE, METADATA_TABLE, METADATA_KEY,
              hc.metadata(MetadataOf(hc, next, 0)));
    var after := ApplyAll(tables, CheckpointOps(hc, records, hc.metadata(MetadataOf(hc, next, 0))));
    FreshlyLaid(hc, TableOf(after, RECORDS_TABLE), next);
  }

  lemma {:induction false} FreshlyLaid(hc: HaCodec, records: Table, l: Lifecycle)
    requires Inv(hc.hashes, l) && IsRecordTable(hc, records, l.writes)
    ensures Laid(hc, records, map[], l.writes, []) && ApplyDeltas(l.writes, []) == l.writes
  {
    forall k | k in l.writes
      ensures l.writes[k].command.identity == k && ValidRecord(hc.hashes, l.writes[k])
    {
      assert RecordOk(hc.hashes, l.contract, l.cutover, k, l.writes[k]);
    }
  }

  /** The tables and the journal counters kept beside them. */
  datatype Disk = Disk(tables: Tables, entries: nat, journalBytes: nat)

  /** What the tables hold: a checkpoint, the deltas since, the state they store. */
  datatype Layout = Layout(base: Writes, deltas: seq<Delta>, state: Lifecycle)

  ghost predicate Holds(hc: HaCodec, disk: Disk, y: Layout) {
    Stored(hc, disk.tables, y.base, y.deltas, y.state)
  }

  ghost predicate Counted(hc: HaCodec, disk: Disk, y: Layout) {
    disk.entries == |y.deltas| && disk.journalBytes == ValueBytes(JournalRows(hc, y.deltas))
  }

  /** A next state with its summaries and the delta that leads to it. */
  datatype Plan = Plan(next: Lifecycle, bytes: nat, commitment: Digest,
                       upserts: seq<WriteRecord>, removals: seq<CommandIdentity>)

  ghost predicate GoodPlan(hc: HaCodec, writes: Writes, p: Plan) {
    && Inv(hc.hashes, p.next)
    && p.bytes == TotalBytes(p.next.writes) && p.commitment == Commitment(hc.hashes, p.next.writes)
    && ValidDelta(hc, SealedDelta(hc, p.upserts, p.removals))
    && ApplyDelta(writes, SealedDelta(hc, p.upserts, p.removals)) == p.next.writes
  }

  lemma {:induction false} PlanFacts(hc: HaCodec, writes: Writes, p: Plan)
    requires GoodPlan(hc, writes, p)
    ensures Inv(hc.hashes, p.next)
    ensures p.bytes == TotalBytes(p.next.writes) && p.commitment == Commitment(hc.hashes, p.next.writes)
    ensures ValidDelta(hc, SealedDelta(hc, p.upserts, p.removals))
    ensures ApplyDelta(writes, SealedDelta(hc, p.upserts, p.removals)) == p.next.writes
  {
    hide Inv, ValidDelta, ApplyDelta, TotalBytes, Commitment;
  }

  /** What became of one durable write: stored and acknowledged, stored but
      reported as failed, or not stored. */
  datatype PersistFate = Persisted | StoredButFailed | NotStored

  lemma {:induction false} RowBytesAppend(hc: HaCodec, ds: seq<Delta>, d: Delta)
    ensures ValueBytes(JournalRows(hc, ds + [d])) == ValueBytes(JournalRows(hc, ds)) + |hc.delta(d)|
  {
    assert (ds + [d])[..|ds|] == ds;
    assert JournalRows(hc, ds + [d])[..|ds|] == JournalRows(hc, ds);
  }

  /** Sealed metadata of a plan at a journal position. */
  function PlanMetadata(hc: HaCodec, p: Plan, entries: nat): Metadata {
    var m := Metadata(STATE_VERSION, p.next.contract, |p.next.writes|, p.bytes, p.commitment, p.next.cutover,
                      entries, entries, hc.hashes.zero);
    m.(hash := hc.metadataHash(m))
  }

  lemma {:induction false} PlannedDeltaStores(hc: HaCodec, tables: Tables, y: Layout, p: Plan)
    requires Stored(hc, tables, y.base, y.deltas, y.state) && |y.deltas| < U32_MAX && GoodPlan(hc, y.state.writes, p)
    ensures var d := SealedDelta(hc, p.upserts, p.removals);
            var m := PlanMetadata(hc, p, |y.deltas| + 1);
            Stored(hc, ApplyAll(tables, DeltaOps(hc, |y.deltas|, hc.delta(d), hc.metadata(m))),
                   y.base, y.deltas + [d], p.next)
  {
    hide Stored, GoodPlan, Laid, MetadataOf, PlanMetadata, ValidDelta, ApplyDelta, SealedDelta, DeltaOps, Inv;
    StoredLaid(hc, tables, y);
    PlanFacts(hc, y.state.writes, p);
    PlanMetadataIs(hc, p, |y.deltas| + 1);
    DeltaStores(hc, tables, y.base, y.deltas, SealedDelta(hc, p.upserts, p.removals), p.next);
  }

  lemma {:induction false} StoredLaid(hc: HaCodec, tables: Tables, y: Layout)
    requires Stored(hc, tables, y.base, y.deltas, y.state)
    ensures Laid(hc, TableOf(tables, RECORDS_TABLE), TableOf(tables, JOURNAL_TABLE), y.base, y.deltas)
    ensures y.state.writes == ApplyDeltas(y.base, y.deltas)
  {
    hide Laid, Inv;
  }

  lemma {:induction false} PlanMetadataIs(hc: HaCodec, p: Plan, entries: nat)
    requires p.bytes == TotalBytes(p.next.writes) && p.commitment == Commitment(hc.hashes, p.next.writes)
    ensures PlanMetadata(hc, p, entries) == MetadataOf(hc, p.next, entries)
  {
    hide TotalBytes, Commitment;
  }

  /** The operations that append the plan's delta to the journal. */
  ghost predicate IsDeltaWrite(hc: HaCodec, y: Layout, p: Plan, ops: seq<Op>) {
    && |y.deltas| < U32_MAX
    && ops == DeltaOps(hc, |y.deltas|, hc.delta(SealedDelta(hc, p.upserts, p.removals)),
                       hc.metadata(PlanMetadata(hc, p, |y.deltas| + 1)))
  }

  /** The operations that rewrite the record table with the plan's state. */
  ghost predicate IsCheckpointWrite(hc: HaCodec, p: Plan, ops: seq<Op>) {
    exists records :: IsListing(records, p.next.writes)
                      && ops == CheckpointOps(hc, records, hc.metadata(PlanMetadata(hc, p, 0)))
  }

  /** One write transaction turned the tables into the others. */
  ghost predicate Rewrites(hc: HaCodec, y: Layout, p: Plan, before: Tables, after: Tables) {
    exists ops :: (IsDeltaWrite(hc, y, p, ops) || IsCheckpointWrite(hc, p, ops)) && after == ApplyAll(before, ops)
  }

  /** What the tables hold after one of the two. */
  ghost function NextLayout(hc: HaCodec, y: Layout, p: Plan, ops: seq<Op>): Layout {
    if IsDeltaWrite(hc, y, p, ops) then Layout(y.base, y.deltas + [SealedDelta(hc, p.upserts, p.removals)], p.next)
    else Layout(p.next.writes, [], p.next)
  }

  /** Either write, applied to tables that store the old state, stores the next. */
  lemma {:induction false} WriteStores(hc: HaCodec, tables: Tables, y: Layout, p: Plan, ops: seq<Op>)
    requires hc.Lawful() && Stored(hc, tables, y.base, y.deltas, y.state) && GoodPlan(hc, y.state.writes, p)
    requires IsDeltaWrite(hc, y, p, ops) || IsCheckpointWrite(hc, p, ops)
    ensures var y' := NextLayout(hc, y, p, ops);
            Stored(hc, ApplyAll(tables, ops), y'.base, y'.deltas, y'.state)
  {
    hide Stored, GoodPlan, IsListing, DeltaOps, CheckpointOps, PlanMetadata;
    if IsDeltaWrite(hc, y, p, ops) {
      PlannedDeltaStores(hc, tables, y, p);
    } else {
      var records :| IsListing(records, p.next.writes)
                     && ops == CheckpointOps(hc, records, hc.metadata(PlanMetadata(hc, p, 0)));
      PlannedCheckpointStores(hc, tables, y.state.writes, records, p);
    }
  }

  /** Commits one journal row and the metadata that counts it. */
  method WriteDelta(hc: HaCodec, disk: Disk, ghost y: Layout, p: Plan, deltaBytes: Bytes)
    returns (disk': Disk, ghost y': Layout, ghost ops: seq<Op>)
    requires Holds(hc, disk, y) && Counted(hc, disk, y) && disk.entries < U32_MAX
    requires GoodPlan(hc, y.state.writes, p) && deltaBytes == hc.delta(SealedDelta(hc, p.upserts, p.removals))
    ensures Holds(hc, disk', y') && Counted(hc, disk', y') && y'.state == p.next
    ensures IsDeltaWrite(hc, y, p, ops) && disk'.tables == ApplyAll(disk.tables, ops)
    ensures disk'.entries == disk.entries + 1 && disk'.journalBytes == disk.journalBytes + |deltaBytes|
  {
    hide Stored, GoodPlan, JournalKey, DeltaOps, PlanMetadata;
    ghost var d := SealedDelta(hc, p.upserts, p.removals);
    RowBytesAppend(hc, y.deltas, d);
    PlannedDeltaStores(hc, disk.tables, y, p);
    var staged := DeltaOps(hc, disk.entries, deltaBytes, hc.metadata(PlanMetadata(hc, p, disk.entries + 1)));
    return Disk(ApplyAll(disk.tables, staged), disk.entries + 1, disk.journalBytes + |deltaBytes|),
           Layout(y.base, y.deltas + [d], p.next), staged;
  }

  lemma {:induction false} PlannedCheckpointStores(hc: HaCodec, tables: Tables, writes: Writes,
                                                   records: seq<WriteRecord>, p: Plan)
    requires hc.Lawful() && GoodPlan(hc, writes, p) && IsListing(records, p.next.writes)
    ensures Stored(hc, ApplyAll(tables, CheckpointOps(hc, records, hc.metadata(PlanMetadata(hc, p, 0)))),
                   p.next.writes, [], p.next)
  {
    hide GoodPlan, MetadataOf, PlanMetadata, CheckpointOps, Inv, IsListing;
    PlanFacts(hc, writes, p);
    PlanMetadataIs(hc, p, 0);
    CheckpointStores(hc, tables, records, p.next);
  }

  lemma {:induction false} PlanKeysMatch(hc: HaCodec, writes: Writes, p: Plan)
    requires GoodPlan(hc, writes, p)
    ensures ApplyDelta(writes, SealedDelta(hc, p.upserts, p.removals)) == p.next.writes
    ensures forall k :: k in p.next.writes ==> p.next.writes[k].command.identity == k
  {
    assert forall k :: k in p.next.writes ==> RecordOk(hc.hashes, p.next.contract, p.next.cutover, k, p.next.writes[k]);
  }

  /** Commits the whole record table, an empty journal and the metadata. */
  method WriteCheckpoint(hc: HaCodec, disk: Disk, writes: Writes, p: Plan)
    returns (disk': Disk, ghost y': Layout, ghost ops: seq<Op>)
    requires hc.Lawful() && GoodPlan(hc, writes, p)
    ensures Holds(hc, disk', y') && Counted(hc, disk', y') && y'.state == p.next
    ensures IsCheckpointWrite(hc, p, ops) && disk'.tables == ApplyAll(disk.tables, ops)
    ensures disk'.entries == 0 && disk'.journalBytes == 0
  {
    hide Stored, GoodPlan, CheckpointOps, PlanMetadata, ApplyDelta, IsListing;
    PlanKeysMatch(hc, writes, p);
    var accepted := ApplyDelta(writes, SealedDelta(hc, p.upserts, p.removals));
    var records := ListWrites(accepted);
    PlannedCheckpointStores(hc, disk.tables, writes, records, p);
    var staged := CheckpointOps(hc, records, hc.metadata(PlanMetadata(hc, p, 0)));
    return Disk(ApplyAll(disk.tables, staged), 0, 0), Layout(accepted, [], p.next), staged;
  }

  const JOURNAL_CHECKPOINT_BYTES: nat := 32 * 1024 * 1024

  /** The journal is long enough to be replaced by a checkpoint. */
  predicate CheckpointDue(hc: HaCodec, checkpointEntries: nat, disk: Disk, p: Plan) {
    || disk.entries >= checkpointEntries
    || disk.journalBytes + |hc.delta(SealedDelta(hc, p.upserts, p.removals))| > JOURNAL_CHECKPOINT_BYTES
  }

  /** Stores the next state as a delta, or as a checkpoint once the journal is
      long. Which of the two it was makes no difference to what is stored. */
  method PersistNext(hc: HaCodec, checkpointEntries: nat, writes: Writes, disk: Disk, ghost y: Layout, p: Plan,
                     fate: PersistFate)
    returns (ok: bool, disk': Disk, ghost y': Layout, ghost ops: seq<Op>)
    requires hc.Lawful() && checkpointEntries <= U32_MAX
    requires Holds(hc, disk, y) && Counted(hc, disk, y) && y.state.writes == writes && GoodPlan(hc, writes, p)
    ensures Holds(hc, disk', y') && ok == fate.Persisted?
    ensures ok ==> Counted(hc, disk', y')
    ensures if fate.NotStored? then y' == y else y'.state == p.next
    ensures if CheckpointDue(hc, checkpointEntries, disk, p) then IsCheckpointWrite(hc, p, ops)
            else IsDeltaWrite(hc, y, p, ops)
    ensures disk'.tables == if fate.NotStored? then disk.tables else ApplyAll(disk.tables, ops)
    ensures !fate.NotStored? ==>
              var added := |hc.delta(SealedDelta(hc, p.upserts, p.removals))|;
              if disk.entries < checkpointEntries && disk.journalBytes + added <= 32 * 1024 * 1024
              then disk'.entries == disk.entries + 1 && disk'.journalBytes == disk.journalBytes + added
              else disk'.entries == 0 && disk'.journalBytes == 0
  {
    hide Holds, GoodPlan, SealedDelta, IsDeltaWrite, IsCheckpointWrite;
    var deltaBytes := hc.delta(SealedDelta(hc, p.upserts, p.removals));
    if disk.entries >= checkpointEntries || disk.journalBytes + |deltaBytes| > JOURNAL_CHECKPOINT_BYTES {
      disk', y', ops := WriteCheckpoint(hc, disk, writes, p);
    } else {
      disk', y', ops := WriteDelta(hc, disk, y, p, deltaBytes);
    }
    if fate.NotStored? {
      disk', y' := disk, y;
    }
    ok := fate.Persisted?;
  }

  /** The diff between two write maps, in identity order. */
  ghost predicate IsDiff(before: Writes, after: Writes, upserts: seq<WriteRecord>, removals: seq<CommandIdentity>) {
    && IsListing(upserts, Changed(before, after))
    && CanonicalIds(removals) && IdSet(removals) == before.Keys - after.Keys
  }

  function Changed(before: Writes, after: Writes): Writes {
    map k | k in after && !(k in before && before[k] == after[k]) :: after[k]
  }

  /** Applying the diff to the old writes gives the new ones. */
  lemma {:induction false} DiffApplies(before: Writes, after: Writes, upserts: seq<WriteRecord>,
                                       removals: seq<CommandIdentity>, hash: Digest)
    requires IsDiff(before, after, upserts, removals)
    requires forall k :: k in after ==> after[k].command.identity == k
    ensures ApplyDelta(before, Delta(STATE_VERSION, upserts, removals, hash)) == after
  {
    ListingIsWrites(upserts, Changed(before, after));
  }

  /** Compares the next writes with the current ones, both walked in order. */
  method Diff(before: Writes, after: Writes) returns (upserts: seq<WriteRecord>, removals: seq<CommandIdentity>)
    requires forall k :: k in after ==> after[k].command.identity == k
    ensures IsDiff(before, after, upserts, removals)
    ensures |upserts| <= |after| && |removals| <= |before|
  {
    upserts := ListWrites(Changed(before, after));
    SubsetSize(Changed(before, after).Keys, after.Keys);
    removals := ListIdentities(before.Keys - after.Keys);
    SubsetSize(before.Keys - after.Keys, before.Keys);
  }

  /** Lists identities in order. */
  method ListIdentities(ids: set<CommandIdentity>) returns (listed: seq<CommandIdentity>)
    ensures CanonicalIds(listed) && IdSet(listed) == ids && |listed| == |ids|
  {
    hide IdSet;
    listed := [];
    NoIds();
    var rest := ids;
    while rest != {}
      invariant rest <= ids && CanonicalIds(listed) && |listed| + |rest| == |ids|
      invariant IdSet(listed) == ids - rest
      invariant forall i, k :: 0 <= i < |listed| && k in rest ==> Precedes(listed[i], k)
      decreases rest
    {
      var k := LeastIdentity(rest);
      IdSetAppend(listed, k);
      listed := listed + [k];
      rest := rest - {k};
    }
  }

  lemma {:induction false} NoIds()
    ensures IdSet([]) == {}
  {
  }

  lemma {:induction false} IdSetAppend(ids: seq<CommandIdentity>, k: CommandIdentity)
    ensures IdSet(ids + [k]) == IdSet(ids) + {k}
  {
    forall x | x in IdSet(ids) ensures x in IdSet(ids + [k]) {
      var i :| 0 <= i < |ids| && ids[i] == x;
      assert (ids + [k])[i] == x;
    }
    assert (ids + [k])[|ids|] == k;
  }
}
