/**
 How the lifecycle is laid out in the tables of the log store: one metadata
 entry, a record table written at each checkpoint and a journal of deltas since.

 Loading is proved to give back exactly the state that was stored, whichever mix
 of checkpoint and deltas stored it, if and only if the stored bytes are within
 the load bound.
 */
module HaStore {
  import opened Wrappers
  import opened Digests
  import opened LogTables
  import opened HaTypes
  import opened HaLifecycle
  import BigEndian

  const STATE_VERSION: nat := 2
  const MAX_DURABLE_STATE_BYTES: nat := 128 * 1024 * 1024
  const IDENTITY_BYTES: nat := 32
  const U32_MAX: nat := 0xFFFF_FFFF

  const METADATA_TABLE: string := "active_active_ha_metadata_v2"
  const RECORDS_TABLE: string := "active_active_ha_accepted_writes_v2"
  const JOURNAL_TABLE: string := "active_active_ha_journal_v2"
  const METADATA_KEY: Bytes := [109, 101, 116, 97, 100, 97, 116, 97]

  lemma {:induction false} TablesDiffer()
    ensures METADATA_TABLE != RECORDS_TABLE && METADATA_TABLE != JOURNAL_TABLE && RECORDS_TABLE != JOURNAL_TABLE
  {
    assert METADATA_TABLE[17] != RECORDS_TABLE[17];
    assert JOURNAL_TABLE[17] != RECORDS_TABLE[17];
    assert METADATA_TABLE[17] != JOURNAL_TABLE[17];
  }

  datatype Metadata = Metadata(version: nat, contract: Contract, count: nat, bytes: nat, commitment: Digest,
                               cutover: Option<Cutover>, nextSequence: nat, entries: nat, hash: Digest)

  datatype Delta = Delta(version: nat, upserts: seq<WriteRecord>, removals: seq<CommandIdentity>, hash: Digest)

  /** Byte forms of what is stored, and the digests that seal them. */
  datatype HaCodec = HaCodec(hashes: Hashes,
                             record: WriteRecord -> Bytes, decodeRecord: Bytes -> Option<WriteRecord>,
                             delta: Delta -> Bytes, decodeDelta: Bytes -> Option<Delta>,
                             metadata: Metadata -> Bytes, decodeMetadata: Bytes -> Option<Metadata>,
                             deltaHash: (seq<WriteRecord>, seq<CommandIdentity>) -> Digest,
                             metadataHash: Metadata -> Digest)
  {
    ghost predicate Lawful() {
      && (forall r :: decodeRecord(record(r)) == Some(r))
      && (forall d :: decodeDelta(delta(d)) == Some(d))
      && (forall m :: decodeMetadata(metadata(m)) == Some(m))
    }
  }

  /** Byte form of an identity: 16 client bytes, then two 8-byte integers. */
  function EncodeIdentity(k: CommandIdentity): (b: Bytes)
    ensures |b| == IDENTITY_BYTES
  {
    BigEndian.Encode(k.clientId, 16)
    + (BigEndian.EncodeLittle(k.clientEpoch, 8) + BigEndian.EncodeLittle(k.sequence, 8))
  }

  /** Different identities have different bytes. */
  lemma {:induction false} IdentityInjective(a: CommandIdentity, b: CommandIdentity)
    requires EncodeIdentity(a) == EncodeIdentity(b)
    ensures a == b
  {
    BigEndian.Limit8();
    BigEndian.Limit16();
    var x, y := EncodeIdentity(a), EncodeIdentity(b);
    assert x[..16] == BigEndian.Encode(a.clientId, 16) && y[..16] == BigEndian.Encode(b.clientId, 16);
    assert x[16..24] == BigEndian.EncodeLittle(a.clientEpoch, 8)
        && y[16..24] == BigEndian.EncodeLittle(b.clientEpoch, 8);
    assert x[24..] == BigEndian.EncodeLittle(a.sequence, 8) && y[24..] == BigEndian.EncodeLittle(b.sequence, 8);
    BigEndian.BigInjective(a.clientId, b.clientId, 16);
    BigEndian.LittleInjective(a.clientEpoch, b.clientEpoch, 8);
    BigEndian.LittleInjective(a.sequence, b.sequence, 8);
  }

  predicate ValidMetadata(hc: HaCodec, m: Metadata) {
    && m.version == STATE_VERSION && ValidContract(m.contract)
    && m.count <= MAX_ACCEPTED_WRITES && m.bytes <= MAX_ACCEPTED_COMMAND_BYTES
    && ValidCutover(m.contract, m.cutover)
    && hc.metadataHash(m.(hash := hc.hashes.zero)) == m.hash
  }

  predicate CanonicalIds(ids: seq<CommandIdentity>) {
    forall i, j :: 0 <= i < j < |ids| ==> Precedes(ids[i], ids[j])
  }

  predicate CanonicalDelta(d: Delta) {
    && d.version == STATE_VERSION
    && |d.upserts| <= MAX_ACCEPTED_WRITES && |d.removals| <= MAX_ACCEPTED_WRITES
    && CanonicalRecords(d.upserts) && CanonicalIds(d.removals)
  }

  predicate ValidDelta(hc: HaCodec, d: Delta) {
    && CanonicalDelta(d)
    && (forall i :: 0 <= i < |d.upserts| ==> ValidRecord(hc.hashes, d.upserts[i]))
    && hc.deltaHash(d.upserts, d.removals) == d.hash
  }

  function IdSet(ids: seq<CommandIdentity>): set<CommandIdentity> {
    set i | 0 <= i < |ids| :: ids[i]
  }

  /** A delta removes first, then upserts. */
  function ApplyDelta(w: Writes, d: Delta): Writes {
    w - IdSet(d.removals) + ByIdentity(d.upserts)
  }

  function ApplyDeltas(w: Writes, ds: seq<Delta>): Writes {
    if ds == [] then w else ApplyDelta(ApplyDeltas(w, ds[..|ds| - 1]), ds[|ds| - 1])
  }

  /** The metadata that summarises a state and a journal length. */
  ghost function MetadataOf(hc: HaCodec, l: Lifecycle, entries: nat): Metadata {
    var m := Metadata(STATE_VERSION, l.contract, |l.writes|, TotalBytes(l.writes),
                      Commitment(hc.hashes, l.writes), l.cutover, entries, entries, hc.hashes.zero);
    m.(hash := hc.metadataHash(m))
  }

  /** The table holds exactly these records under their encoded identities. */
  ghost predicate IsRecordTable(hc: HaCodec, t: Table, w: Writes) {
    && (forall k :: k in w ==> EncodeIdentity(k) in t && t[EncodeIdentity(k)] == hc.record(w[k]))
    && (forall b :: b in t ==> exists k :: k in w && EncodeIdentity(k) == b)
  }

  function JournalKey(i: nat): Bytes {
    BigEndian.Encode(i, 8)
  }

  /** The table holds exactly these deltas under their sequence numbers. */
  ghost predicate IsJournal(hc: HaCodec, t: Table, ds: seq<Delta>) {
    && (forall i :: 0 <= i < |ds| ==> JournalKey(i) in t && t[JournalKey(i)] == hc.delta(ds[i]))
    && (forall b :: b in t ==> exists i :: 0 <= i < |ds| && JournalKey(i) == b)
  }

  ghost predicate ValidBase(hc: HaCodec, base: Writes) {
    forall k :: k in base ==> base[k].command.identity == k && ValidRecord(hc.hashes, base[k])
  }

  /** The record and journal tables hold the checkpoint `base` and the deltas `ds`. */
  ghost predicate Laid(hc: HaCodec, records: Table, journal: Table, base: Writes, ds: seq<Delta>) {
    && ValidBase(hc, base) && |ds| <= U32_MAX
    && (forall i :: 0 <= i < |ds| ==> ValidDelta(hc, ds[i]))
    && IsRecordTable(hc, records, base) && IsJournal(hc, journal, ds)
  }

  /** The tables store state `l` as the checkpoint `base` plus the journal `ds`. */
  ghost predicate Stored(hc: HaCodec, tables: Tables, base: Writes, ds: seq<Delta>, l: Lifecycle) {
    && Inv(hc.hashes, l)
    && Laid(hc, TableOf(tables, RECORDS_TABLE), TableOf(tables, JOURNAL_TABLE), base, ds)
    && l.writes == ApplyDeltas(base, ds)
    && Lookup(tables, METADATA_TABLE, METADATA_KEY) == Some(hc.metadata(MetadataOf(hc, l, |ds|)))
  }

  function EntryBytes(es: seq<(Bytes, Bytes)>): nat {
    if es == [] then 0
    else EntryBytes(es[..|es| - 1]) + |es[|es| - 1].0| + |es[|es| - 1].1|
  }

  function ValueBytes(es: seq<(Bytes, Bytes)>): nat {
    if es == [] then 0 else ValueBytes(es[..|es| - 1]) + |es[|es| - 1].1|
  }

  /** One more record row, if it decodes, validates and sits under its own key. */
  function ReadRecord(hc: HaCodec, w: Writes, e: (Bytes, Bytes)): Option<Writes> {
    match hc.decodeRecord(e.1)
    case None => None
    case Some(r) =>
      if !ValidRecord(hc.hashes, r) || EncodeIdentity(r.command.identity) != e.0 || r.command.identity in w then None
      else Some(w[r.command.identity := r])
  }

  function ReadRecords(hc: HaCodec, es: seq<(Bytes, Bytes)>): Option<Writes> {
    if es == [] then Some(map[])
    else
      match ReadRecords(hc, es[..|es| - 1])
      case None => None
      case Some(w) => ReadRecord(hc, w, es[|es| - 1])
  }

  /** One more journal row, if it is the next in sequence and validates. */
  function ReadDelta(hc: HaCodec, w: Writes, index: nat, e: (Bytes, Bytes)): Option<Writes> {
    if |e.0| != 8 || BigEndian.Decode(e.0) != index then None
    else
      match hc.decodeDelta(e.1)
      case None => None
      case Some(d) => if ValidDelta(hc, d) then Some(ApplyDelta(w, d)) else None
  }

  function ReadJournal(hc: HaCodec, w: Writes, es: seq<(Bytes, Bytes)>): Option<Writes> {
    if es == [] then Some(w)
    else
      match ReadJournal(hc, w, es[..|es| - 1])
      case None => None
      case Some(mid) => ReadDelta(hc, mid, |es| - 1, es[|es| - 1])
  }

  datatype Loaded = Loaded(lifecycle: Lifecycle, bytes: nat, commitment: Digest, entries: nat, journalBytes: nat)

  /** The metadata summarises these writes, and they are acceptable under it. */
  ghost predicate MetadataMatches(hc: HaCodec, m: Metadata, w: Writes, entries: nat) {
    && entries == m.nextSequence && m.entries == entries
    && Inv(hc.hashes, Lifecycle(m.contract, w, m.cutover))
    && |w| == m.count && TotalBytes(w) == m.bytes && Commitment(hc.hashes, w) == m.commitment
  }

  /** What loading makes of the metadata entry and the two table scans. */
  ghost function LoadScans(hc: HaCodec, metadata: Option<Bytes>, rs: seq<(Bytes, Bytes)>, js: seq<(Bytes, Bytes)>)
    : Result<Option<Loaded>>
  {
    if metadata.None? then Ok(None)
    else if |metadata.value| > MAX_DURABLE_STATE_BYTES then Err
    else
      var m := hc.decodeMetadata(metadata.value);
      var base := ReadRecords(hc, rs);
      if m.None? || !ValidMetadata(hc, m.value) || base.None? then Err
      else
        var w := ReadJournal(hc, base.value, js);
        if w.None? || EntryBytes(rs) + ValueBytes(js) > MAX_DURABLE_STATE_BYTES
           || !MetadataMatches(hc, m.value, w.value, |js|) then Err
        else Ok(Some(Loaded(Lifecycle(m.value.contract, w.value, m.value.cutover), m.value.bytes, m.value.commitment,
                            |js|, ValueBytes(js))))
  }

  lemma {:induction false} EntryBytesMono(es: seq<(Bytes, Bytes)>, i: nat)
    requires i <= |es|
    ensures EntryBytes(es[..i]) <= EntryBytes(es) && ValueBytes(es[..i]) <= ValueBytes(es)
  {
    if i < |es| {
      EntryBytesMono(es[..|es| - 1], i);
      assert es[..|es| - 1][..i] == es[..i];
    } else {
      assert es[..i] == es;
    }
  }

  /** A row that is refused refuses the whole table. */
  lemma {:induction false} RecordsRefused(hc: HaCodec, es: seq<(Bytes, Bytes)>, i: nat)
    requires i <= |es| && ReadRecords(hc, es[..i]).None?
    ensures ReadRecords(hc, es).None?
  {
    if i < |es| {
      assert es[..|es| - 1][..i] == es[..i];
      RecordsRefused(hc, es[..|es| - 1], i);
    } else {
      assert es[..i] == es;
    }
  }

  lemma {:induction false} JournalRefused(hc: HaCodec, w: Writes, es: seq<(Bytes, Bytes)>, i: nat)
    requires i <= |es| && ReadJournal(hc, w, es[..i]).None?
    ensures ReadJournal(hc, w, es).None?
  {
    if i < |es| {
      assert es[..|es| - 1][..i] == es[..i];
      JournalRefused(hc, w, es[..|es| - 1], i);
    } else {
      assert es[..i] == es;
    }
  }
}
