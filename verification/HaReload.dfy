/**
 Loading the durable lifecycle: the loop itself, and that it returns exactly
 what was stored.
 */
module HaReload {
  import opened Wrappers
  import opened LogTables
  import opened HaTypes
  import opened HaLifecycle
  import opened HaStore
  import BigEndian

  /** Rows read so far, in terms of the stored writes. */
  ghost predicate ReadSoFar(hc: HaCodec, w: Writes, read: Writes, es: seq<(Bytes, Bytes)>) {
    && (forall k :: k in read <==> k in w && (EncodeIdentity(k), hc.record(w[k])) in es)
    && (forall k :: k in read ==> read[k] == w[k])
  }

  lemma {:induction false} RowOf(hc: HaCodec, t: Table, w: Writes, es: seq<(Bytes, Bytes)>, n: nat)
    returns (k: CommandIdentity)
    requires IsRecordTable(hc, t, w) && IsScanOf(es, t) && n < |es|
    ensures k in w && es[n] == (EncodeIdentity(k), hc.record(w[k]))
  {
    var e := es[n];
    assert e in es && e.0 in t;
    k :| k in w && EncodeIdentity(k) == e.0;
  }

  lemma {:induction false} ReadOne(hc: HaCodec, w: Writes, read: Writes, k: CommandIdentity)
    requires hc.Lawful() && ValidBase(hc, w) && k in w && k !in read
    ensures ReadRecord(hc, read, (EncodeIdentity(k), hc.record(w[k]))) == Some(read[k := w[k]])
  {
    assert hc.decodeRecord(hc.record(w[k])) == Some(w[k]);
  }

  lemma {:induction false} NotYetRead(hc: HaCodec, t: Table, w: Writes, read: Writes, es: seq<(Bytes, Bytes)>, n: nat,
                                      k: CommandIdentity)
    requires IsScanOf(es, t) && n < |es| && ReadSoFar(hc, w, read, es[..n])
    requires k in w && es[n] == (EncodeIdentity(k), hc.record(w[k]))
    ensures k !in read
  {
    if k in read {
      var i :| 0 <= i < n && es[..n][i] == es[n];
      assert Less(es[i].0, es[n].0);
      LessIrreflexive(es[i].0);
    }
  }

  lemma {:induction false} ReadOneMore(hc: HaCodec, w: Writes, read: Writes, es: seq<(Bytes, Bytes)>, n: nat,
                                       k: CommandIdentity)
    requires hc.Lawful() && n < |es| && ReadSoFar(hc, w, read, es[..n])
    requires k in w && es[n] == (EncodeIdentity(k), hc.record(w[k]))
    ensures ReadSoFar(hc, w, read[k := w[k]], es[..n + 1])
  {
    assert es[..n + 1] == es[..n] + [es[n]];
    forall j | j in w && EncodeIdentity(j) == EncodeIdentity(k) ensures j == k {
      IdentityInjective(j, k);
    }
  }

  /** Reading a prefix of the scan gives the writes listed in it. */
  lemma {:induction false} ReadPrefix(hc: HaCodec, t: Table, w: Writes, es: seq<(Bytes, Bytes)>, n: nat)
    requires hc.Lawful() && ValidBase(hc, w) && IsRecordTable(hc, t, w) && IsScanOf(es, t) && n <= |es|
    ensures ReadRecords(hc, es[..n]).Some? && ReadSoFar(hc, w, ReadRecords(hc, es[..n]).value, es[..n])
  {
    hide ValidBase, IsRecordTable, IsScanOf, ReadRecord, EncodeIdentity;
    if n > 0 {
      var m := n - 1;
      ReadPrefix(hc, t, w, es, m);
      assert es[..n][..m] == es[..m];
      var read := ReadRecords(hc, es[..m]).value;
      var k := RowOf(hc, t, w, es, m);
      NotYetRead(hc, t, w, read, es, m, k);
      ReadOne(hc, w, read, k);
      ReadOneMore(hc, w, read, es, m, k);
    }
  }

  lemma {:induction false} ReadEverything(hc: HaCodec, t: Table, w: Writes, read: Writes, es: seq<(Bytes, Bytes)>)
    requires IsRecordTable(hc, t, w) && IsScanOf(es, t) && ReadSoFar(hc, w, read, es)
    ensures read == w
  {
    forall k | k in w ensures k in read {
      assert (EncodeIdentity(k), t[EncodeIdentity(k)]) in es;
    }
  }

  /** The record table reads back as the writes it was built from. */
  lemma {:induction false} ReadStoredRecords(hc: HaCodec, t: Table, w: Writes, es: seq<(Bytes, Bytes)>)
    requires hc.Lawful() && ValidBase(hc, w) && IsRecordTable(hc, t, w) && IsScanOf(es, t)
    ensures ReadRecords(hc, es) == Some(w)
  {
    ReadPrefix(hc, t, w, es, |es|);
    assert es[..|es|] == es;
    ReadEverything(hc, t, w, ReadRecords(hc, es).value, es);
  }

  function JournalRows(hc: HaCodec, ds: seq<Delta>): (rows: seq<(Bytes, Bytes)>)
    ensures |rows| == |ds| && forall i :: 0 <= i < |ds| ==> rows[i] == (JournalKey(i), hc.delta(ds[i]))
  {
    if ds == [] then []
    else
      var n := |ds| - 1;
      JournalRows(hc, ds[..n]) + [(JournalKey(n), hc.delta(ds[n]))]
  }

  /** The journal's scan meets the deltas in the order they were written. */
  lemma {:induction false} JournalScan(hc: HaCodec, t: Table, ds: seq<Delta>, es: seq<(Bytes, Bytes)>)
    requires IsJournal(hc, t, ds) && |ds| <= U32_MAX && IsScanOf(es, t)
    ensures es == JournalRows(hc, ds)
  {
    var rows := JournalRows(hc, ds);
    BigEndian.Limit8();
    forall i, j | 0 <= i < j < |rows|
      ensures Less(rows[i].0, rows[j].0)
    {
      BigEndian.KeepsOrder(i, j, 8);
    }
    forall k | k in t ensures (k, t[k]) in rows {
      var i :| 0 <= i < |ds| && JournalKey(i) == k;
      assert rows[i] == (k, t[k]);
    }
    ScanUnique(es, rows, t);
  }

  lemma {:induction false} ReadOneDelta(hc: HaCodec, w: Writes, d: Delta, n: nat)
    requires hc.Lawful() && n <= U32_MAX && ValidDelta(hc, d)
    ensures ReadDelta(hc, w, n, (JournalKey(n), hc.delta(d))) == Some(ApplyDelta(w, d))
  {
    BigEndian.Limit8();
    BigEndian.RoundTrip(n, 8);
    assert hc.decodeDelta(hc.delta(d)) == Some(d);
  }

  /** Replaying the journal rows applies the deltas. */
  lemma {:induction false} ReadStoredJournal(hc: HaCodec, w: Writes, ds: seq<Delta>)
    requires hc.Lawful() && |ds| <= U32_MAX
    requires forall i :: 0 <= i < |ds| ==> ValidDelta(hc, ds[i])
    ensures ReadJournal(hc, w, JournalRows(hc, ds)) == Some(ApplyDeltas(w, ds))
  {
    if ds != [] {
      var n := |ds| - 1;
      ReadStoredJournal(hc, w, ds[..n]);
      assert JournalRows(hc, ds)[..n] == JournalRows(hc, ds[..n]);
      ReadOneDelta(hc, ApplyDeltas(w, ds[..n]), ds[n], n);
    }
  }

  /** Stored bytes as the loader counts them. */
  ghost predicate WithinLoadBound(tables: Tables, rs: seq<(Bytes, Bytes)>, js: seq<(Bytes, Bytes)>) {
    && EntryBytes(rs) + ValueBytes(js) <= MAX_DURABLE_STATE_BYTES
    && (Lookup(tables, METADATA_TABLE, METADATA_KEY).Some? ==>
          |Lookup(tables, METADATA_TABLE, METADATA_KEY).value| <= MAX_DURABLE_STATE_BYTES)
  }

  ghost predicate Scanned(tables: Tables, rs: seq<(Bytes, Bytes)>, js: seq<(Bytes, Bytes)>) {
    IsScanOf(rs, TableOf(tables, RECORDS_TABLE)) && IsScanOf(js, TableOf(tables, JOURNAL_TABLE))
  }

  lemma {:induction false} MetadataFits(hc: HaCodec, l: Lifecycle, entries: nat)
    requires hc.Lawful() && Inv(hc.hashes, l)
    ensures var m := MetadataOf(hc, l, entries);
            && hc.decodeMetadata(hc.metadata(m)) == Some(m) && ValidMetadata(hc, m)
            && m.contract == l.contract && m.cutover == l.cutover
            && MetadataMatches(hc, m, l.writes, entries)
  {
    var m := MetadataOf(hc, l, entries);
    assert hc.decodeMetadata(hc.metadata(m)) == Some(m);
    assert Lifecycle(m.contract, l.writes, m.cutover) == l;
  }

  lemma {:induction false} LoadDecides(hc: HaCodec, bytes: Bytes, m: Metadata, base: Writes, l: Lifecycle,
                                       rs: seq<(Bytes, Bytes)>, js: seq<(Bytes, Bytes)>)
    requires hc.decodeMetadata(bytes) == Some(m) && ValidMetadata(hc, m)
    requires m.contract == l.contract && m.cutover == l.cutover && MetadataMatches(hc, m, l.writes, |js|)
    requires ReadRecords(hc, rs) == Some(base) && ReadJournal(hc, base, js) == Some(l.writes)
    ensures LoadScans(hc, Some(bytes), rs, js)
         == if |bytes| <= MAX_DURABLE_STATE_BYTES && EntryBytes(rs) + ValueBytes(js) <= MAX_DURABLE_STATE_BYTES
            then Ok(Some(Loaded(l, m.bytes, m.commitment, |js|, ValueBytes(js)))) else Err
  {
    assert Lifecycle(m.contract, l.writes, m.cutover) == l;
  }

  /** Loading stored tables gives the stored state exactly when the stored
      bytes are within the bound; otherwise it is refused. */
  lemma {:induction false} LoadsWhatWasStored(hc: HaCodec, tables: Tables, base: Writes, ds: seq<Delta>, l: Lifecycle,
                                              rs: seq<(Bytes, Bytes)>, js: seq<(Bytes, Bytes)>)
    requires hc.Lawful() && Stored(hc, tables, base, ds, l) && Scanned(tables, rs, js)
    ensures LoadScans(hc, Lookup(tables, METADATA_TABLE, METADATA_KEY), rs, js)
         == if WithinLoadBound(tables, rs, js)
            then Ok(Some(Loaded(l, TotalBytes(l.writes), Commitment(hc.hashes, l.writes), |ds|, ValueBytes(js))))
            else Err
    ensures js == JournalRows(hc, ds)
  {
    ReadStoredRecords(hc, TableOf(tables, RECORDS_TABLE), base, rs);
    JournalScan(hc, TableOf(tables, JOURNAL_TABLE), ds, js);
    ReadStoredJournal(hc, base, ds);
    MetadataFits(hc, l, |ds|);
    LoadDecides(hc, hc.metadata(MetadataOf(hc, l, |ds|)), MetadataOf(hc, l, |ds|), base, l, rs, js);
  }

  lemma {:induction false} PrecedesTotal(a: CommandIdentity, b: CommandIdentity)
    ensures a == b || Precedes(a, b) || Precedes(b, a)
  {
  }

  lemma {:induction false} PrecedesTransitive(a: CommandIdentity, b: CommandIdentity, c: CommandIdentity)
    requires Precedes(a, b) && Precedes(b, c)
    ensures Precedes(a, c)
  {
  }

  /** The smallest identity of a non-empty set. */
  method LeastIdentity(ids: set<CommandIdentity>) returns (least: CommandIdentity)
    requires ids != {}
    ensures least in ids && forall k :: k in ids && k != least ==> Precedes(least, k)
  {
    least :| least in ids;
    var rest := ids - {least};
    while rest != {}
      invariant rest <= ids && least in ids
      invariant forall k :: k in ids - rest && k != least ==> Precedes(least, k)
      decreases rest
    {
      var k :| k in rest;
      PrecedesTotal(k, least);
      if Precedes(k, least) {
        forall x | x in ids - rest && x != least
          ensures Precedes(k, x)
        {
          PrecedesTransitive(k, least, x);
        }
        least := k;
      }
      rest := rest - {k};
    }
  }

  /** `records` lists the writes in identity order. */
  ghost predicate IsListing(records: seq<WriteRecord>, w: Writes) {
    && CanonicalRecords(records)
    && (forall i :: 0 <= i < |records| ==>
          records[i].command.identity in w && w[records[i].command.identity] == records[i])
    && (forall k :: k in w ==> w[k] in records)
  }

  lemma {:induction false} GreatestIdentity(ids: set<CommandIdentity>) returns (greatest: CommandIdentity)
    requires ids != {}
    ensures greatest in ids && forall k :: k in ids && k != greatest ==> Precedes(k, greatest)
    decreases ids
  {
    var k :| k in ids;
    if ids == {k} {
      return k;
    }
    var g := GreatestIdentity(ids - {k});
    PrecedesTotal(k, g);
    if Precedes(k, g) {
      return g;
    }
    forall x | x in ids && x != k ensures Precedes(x, k) {
      if x != g {
        PrecedesTransitive(x, g, k);
      }
    }
    return k;
  }

  lemma {:induction false} ListingExtends(init: seq<WriteRecord>, w: Writes, last: CommandIdentity)
    requires last in w && w[last].command.identity == last && IsListing(init, w - {last})
    requires forall k :: k in w && k != last ==> Precedes(k, last)
    ensures IsListing(init + [w[last]], w)
  {
    hide Precedes;
    var records := init + [w[last]];
    assert forall i :: 0 <= i < |init| ==> init[i].command.identity in w - {last};
    forall k | k in w ensures w[k] in records {
      if k == last {
        assert records[|init|] == w[k];
      } else {
        assert (w - {last})[k] in init;
      }
    }
  }

  /** Every write map has a listing. */
  lemma {:induction false} ListingExists(w: Writes) returns (records: seq<WriteRecord>)
    requires forall k :: k in w ==> w[k].command.identity == k
    ensures IsListing(records, w) && |records| == |w|
    decreases |w|
  {
    if w == map[] {
      return [];
    }
    hide Precedes;
    assert w.Keys != {};
    var last := GreatestIdentity(w.Keys);
    assert |w - {last}| == |w| - 1;
    var init := ListingExists(w - {last});
    ListingExtends(init, w, last);
    records := init + [w[last]];
  }

  /** Lists accepted writes in identity order. */
  method ListWrites(w: Writes) returns (records: seq<WriteRecord>)
    requires forall k :: k in w ==> w[k].command.identity == k
    ensures IsListing(records, w) && |records| == |w|
  {
    records := [];
    var rest := w.Keys;
    while rest != {}
      invariant rest <= w.Keys && |records| + |rest| == |w|
      invariant CanonicalRecords(records)
      invariant forall i :: 0 <= i < |records| ==>
        records[i].command.identity in w && records[i].command.identity !in rest
        && w[records[i].command.identity] == records[i]
      invariant forall k :: k in w && k !in rest ==> w[k] in records
      invariant forall i, k :: 0 <= i < |records| && k in rest ==> Precedes(records[i].command.identity, k)
      decreases rest
    {
      var k := LeastIdentity(rest);
      records := records + [w[k]];
      rest := rest - {k};
    }
  }

  /** Rejects a write list that breaks the contract, the cutover or a bound. */
  method ValidateWrites(h: Hashes, contract: Contract, cutover: Option<Cutover>, w: Writes) returns (ok: bool)
    requires ValidContract(contract)
    requires forall k :: k in w ==> w[k].command.identity == k
    ensures ok == Inv(h, Lifecycle(contract, w, cutover))
  {
    if |w| > MAX_ACCEPTED_WRITES || !ValidCutover(contract, cutover) {
      return false;
    }
    var records := ListWrites(w);
    for i := 0 to |records|
      invariant forall j :: 0 <= j < i ==>
        RecordOk(h, contract, cutover, records[j].command.identity, records[j])
    {
      if !RecordOk(h, contract, cutover, records[i].command.identity, records[i]) {
        return false;
      }
    }
    var total := SumCommandBytes(w);
    return total <= MAX_ACCEPTED_COMMAND_BYTES;
  }

  lemma {:induction false} ReadKeysMatch(hc: HaCodec, es: seq<(Bytes, Bytes)>, k: CommandIdentity)
    requires ReadRecords(hc, es).Some? && k in ReadRecords(hc, es).value
    ensures ReadRecords(hc, es).value[k].command.identity == k
  {
    var init, last := es[..|es| - 1], es[|es| - 1];
    if k in ReadRecords(hc, init).value {
      ReadKeysMatch(hc, init, k);
    }
  }

  lemma {:induction false} JournalKeysMatch(hc: HaCodec, w: Writes, es: seq<(Bytes, Bytes)>, k: CommandIdentity)
    requires forall j :: j in w ==> w[j].command.identity == j
    requires ReadJournal(hc, w, es).Some? && k in ReadJournal(hc, w, es).value
    ensures ReadJournal(hc, w, es).value[k].command.identity == k
  {
    if es != [] {
      var init, last := es[..|es| - 1], es[|es| - 1];
      var d := hc.decodeDelta(last.1).value;
      if k in ByIdentity(d.upserts) {
        ByIdentityOk(d.upserts, k);
      } else {
        JournalKeysMatch(hc, w, init, k);
      }
    }
  }

  /** Reads the record table, counting bytes as it goes. */
  method LoadRecords(hc: HaCodec, rs: seq<(Bytes, Bytes)>) returns (r: Result<Writes>)
    ensures r.Ok? <==> ReadRecords(hc, rs).Some? && EntryBytes(rs) <= MAX_DURABLE_STATE_BYTES
    ensures r.Ok? ==> ReadRecords(hc, rs) == Some(r.value)
  {
    var w: Writes := map[];
    var encoded := 0;
    for i := 0 to |rs|
      invariant ReadRecords(hc, rs[..i]) == Some(w)
      invariant encoded == EntryBytes(rs[..i]) <= MAX_DURABLE_STATE_BYTES
    {
      assert rs[..i + 1][..i] == rs[..i];
      EntryBytesMono(rs, i + 1);
      encoded := encoded + |rs[i].0| + |rs[i].1|;
      if encoded > MAX_DURABLE_STATE_BYTES {
        return Err;
      }
      var next := ReadRecord(hc, w, rs[i]);
      if next.None? {
        RecordsRefused(hc, rs, i + 1);
        return Err;
      }
      w := next.value;
    }
    assert rs[..|rs|] == rs;
    return Ok(w);
  }

  /** Replays the journal over the record table, counting on. */
  method LoadJournal(hc: HaCodec, base: Writes, recordBytes: nat, js: seq<(Bytes, Bytes)>)
    returns (r: Result<Writes>, journalBytes: nat)
    requires recordBytes <= MAX_DURABLE_STATE_BYTES
    ensures r.Ok? <==> ReadJournal(hc, base, js).Some? && recordBytes + ValueBytes(js) <= MAX_DURABLE_STATE_BYTES
    ensures r.Ok? ==> ReadJournal(hc, base, js) == Some(r.value) && journalBytes == ValueBytes(js)
  {
    var w := base;
    journalBytes := 0;
    for i := 0 to |js|
      invariant ReadJournal(hc, base, js[..i]) == Some(w)
      invariant journalBytes == ValueBytes(js[..i]) && recordBytes + journalBytes <= MAX_DURABLE_STATE_BYTES
    {
      assert js[..i + 1][..i] == js[..i];
      EntryBytesMono(js, i + 1);
      if |js[i].0| != 8 || BigEndian.Decode(js[i].0) != i {
        JournalRefused(hc, base, js, i + 1);
        return Err, 0;
      }
      journalBytes := journalBytes + |js[i].1|;
      if recordBytes + journalBytes > MAX_DURABLE_STATE_BYTES {
        return Err, 0;
      }
      var next := ReadDelta(hc, w, i, js[i]);
      if next.None? {
        JournalRefused(hc, base, js, i + 1);
        return Err, 0;
      }
      w := next.value;
    }
    assert js[..|js|] == js;
    return Ok(w), journalBytes;
  }

  /** Loads the lifecycle. The two scans are the only ones these tables have. */
  method Load(hc: HaCodec, tables: Tables)
    returns (r: Result<Option<Loaded>>, ghost rs: seq<(Bytes, Bytes)>, ghost js: seq<(Bytes, Bytes)>)
    requires hc.Lawful()
    ensures Scanned(tables, rs, js)
    ensures r == LoadScans(hc, Lookup(tables, METADATA_TABLE, METADATA_KEY), rs, js)
    ensures forall a, b :: Scanned(tables, a, b) ==>
              r == LoadScans(hc, Lookup(tables, METADATA_TABLE, METADATA_KEY), a, b)
    ensures r.Ok? && r.value.Some? ==> Inv(hc.hashes, r.value.value.lifecycle)
  {
    rs, js, r := LoadScanned(hc, tables);
    forall a, b | Scanned(tables, a, b) ensures a == rs && b == js {
      ScanUnique(a, rs, TableOf(tables, RECORDS_TABLE));
      ScanUnique(b, js, TableOf(tables, JOURNAL_TABLE));
    }
  }

  /** Loads through one scan of each table. */
  method LoadScanned(hc: HaCodec, tables: Tables)
    returns (ghost rs: seq<(Bytes, Bytes)>, ghost js: seq<(Bytes, Bytes)>, r: Result<Option<Loaded>>)
    requires hc.Lawful()
    ensures Scanned(tables, rs, js)
    ensures r == LoadScans(hc, Lookup(tables, METADATA_TABLE, METADATA_KEY), rs, js)
  {
    var records := ScanTable(TableOf(tables, RECORDS_TABLE));
    var journal := ScanTable(TableOf(tables, JOURNAL_TABLE));
    rs, js := records, journal;
    var bytes := Lookup(tables, METADATA_TABLE, METADATA_KEY);
    if bytes.None? {
      return rs, js, Ok(None);
    }
    if |bytes.value| > MAX_DURABLE_STATE_BYTES {
      return rs, js, Err;
    }
    var decoded := hc.decodeMetadata(bytes.value);
    if decoded.None? || !ValidMetadata(hc, decoded.value) {
      return rs, js, Err;
    }
    var m := decoded.value;
    var base := LoadRecords(hc, records);
    if base.Err? {
      return rs, js, Err;
    }
    var recordBytes := SumEntries(records);
    var replayed, journalBytes := LoadJournal(hc, base.value, recordBytes, journal);
    if replayed.Err? || |journal| != m.nextSequence || m.entries != |journal| {
      return rs, js, Err;
    }
    var w := replayed.value;
    forall k | k in base.value ensures base.value[k].command.identity == k {
      ReadKeysMatch(hc, records, k);
    }
    forall k | k in w ensures w[k].command.identity == k {
      JournalKeysMatch(hc, base.value, journal, k);
    }
    var ok := ValidateWrites(hc.hashes, m.contract, m.cutover, w);
    var total := SumCommandBytes(w);
    var commitment := FoldCommitment(hc.hashes, w);
    if !ok || |w| != m.count || total != m.bytes || commitment != m.commitment {
      return rs, js, Err;
    }
    var l := Lifecycle(m.contract, w, m.cutover);
    return rs, js, Ok(Some(Loaded(l, m.bytes, m.commitment, |journal|, journalBytes)));
  }

  method SumEntries(es: seq<(Bytes, Bytes)>) returns (total: nat)
    ensures total == EntryBytes(es)
  {
    total := 0;
    for i := 0 to |es|
      invariant total == EntryBytes(es[..i])
    {
      assert es[..i + 1][..i] == es[..i];
      total := total + |es[i].0| + |es[i].1|;
    }
    assert es[..|es|] == es;
  }
}
