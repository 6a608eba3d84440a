/**
 The bound checked when the lifecycle is loaded is not implied by the bounds
 checked when it is written: a run of accepted operations, then a checkpoint,
 leaves tables that can no longer be loaded.
 */
module HaLoadBound {
  import opened Wrappers
  import opened LogTables
  import opened HaTypes
  import opened HaLifecycle
  import opened HaStore
  import opened HaReload

  /** What every command carries, and the reason each is aborted for. */
  datatype Fill = Fill(payload: Bytes, reason: string)
  {
    predicate Valid() {
      |payload| == 1024 && |reason| == 1024
    }
  }

  function Id(i: nat): CommandIdentity
    requires i <= MAX_ACCEPTED_WRITES
  {
    CommandIdentity(i, 0, 1)
  }

  function Ids(n: nat): set<CommandIdentity>
    requires n <= MAX_ACCEPTED_WRITES
  {
    set i | 0 <= i < n :: Id(i)
  }

  function Filled(f: Fill, k: CommandIdentity): Command {
    Command(k, f.payload)
  }

  function Filling(f: Fill, n: nat): (cs: seq<Command>)
    requires n <= MAX_ACCEPTED_WRITES
    ensures |cs| == n && forall i :: 0 <= i < n ==> cs[i] == Filled(f, Id(i))
  {
    seq(n, i requires 0 <= i < n => Filled(f, Id(i)))
  }

  /** `n` writes, of which the first `m` are aborted. */
  function PartlyAborted(f: Fill, h: Hashes, contract: Contract, n: nat, m: nat): Writes
    requires m <= MAX_ACCEPTED_WRITES && n <= MAX_ACCEPTED_WRITES
  {
    map k | k in Ids(n) ::
      WriteRecord(Filled(f, k), h.command(Filled(f, k)), contract,
                  if k in Ids(m) then Aborted(contract, f.reason) else Pending)
  }

  /** Accept `n` writes, begin a cutover, abort the first `m` of them. */
  function FillingRun(f: Fill, c: Cutover, n: nat, m: nat): (actions: seq<Action>)
    requires m <= MAX_ACCEPTED_WRITES && n <= MAX_ACCEPTED_WRITES
    ensures |actions| == m + 2
  {
    if m == 0 then [Accept(Filling(f, n)), Begin(c.to, c.membership)]
    else FillingRun(f, c, n, m - 1) + [AbortWrite(Id(m - 1), f.reason)]
  }

  lemma {:induction false} IdsGrow(n: nat)
    requires n < MAX_ACCEPTED_WRITES
    ensures Ids(n + 1) == Ids(n) + {Id(n)} && Id(n) !in Ids(n)
  {
    forall k | k in Ids(n) ensures k in Ids(n + 1) {
      var i :| 0 <= i < n && Id(i) == k;
      assert 0 <= i < n + 1;
    }
    assert 0 <= n < n + 1;
  }

  lemma {:induction false} IdsCount(n: nat)
    requires n <= MAX_ACCEPTED_WRITES
    ensures |Ids(n)| == n
  {
    if n > 0 {
      IdsCount(n - 1);
      IdsGrow(n - 1);
    } else {
      assert Ids(0) == {};
    }
  }

  /** Accepting the fill from an empty engine adds one pending write each. */
  lemma {:induction false} FillingAdds(f: Fill, h: Hashes, contract: Contract, n: nat)
    requires n <= MAX_ACCEPTED_WRITES
    ensures Additions(h, Fresh(contract), Filling(f, n)) == Some(PartlyAborted(f, h, contract, n, 0))
  {
    assert Ids(0) == {};
    if n > 0 {
      var m := n - 1;
      FillingAdds(f, h, contract, m);
      IdsGrow(m);
      assert Filling(f, n)[..m] == Filling(f, m);
      var last := WriteRecord(Filled(f, Id(m)), h.command(Filled(f, Id(m))), contract, Pending);
      assert PartlyAborted(f, h, contract, n, 0) == PartlyAborted(f, h, contract, m, 0)[Id(m) := last];
    } else {
      assert PartlyAborted(f, h, contract, 0, 0) == map[];
    }
  }

  /** Records of equal size add up to the count times that size. */
  lemma {:induction false} UniformBytes(w: Writes)
    requires forall k :: k in w ==> RecordBytes(w[k]) == 1024
    ensures TotalBytes(w) == |w| * 1024
    decreases |w|
  {
    if w != map[] {
      var k := AnyIdentity(w);
      assert |w - {k}| == |w| - 1;
      UniformBytes(w - {k});
    }
  }

  lemma {:induction false} PartlyAbortedSize(f: Fill, h: Hashes, contract: Contract, n: nat, m: nat)
    requires f.Valid() && n <= MAX_ACCEPTED_WRITES && m <= MAX_ACCEPTED_WRITES
    ensures |PartlyAborted(f, h, contract, n, m)| == n
    ensures TotalBytes(PartlyAborted(f, h, contract, n, m)) == n * 1024
  {
    var w := PartlyAborted(f, h, contract, n, m);
    assert w.Keys == Ids(n);
    IdsCount(n);
    assert |w.Keys| == |w|;
    UniformBytes(w);
  }

  lemma {:induction false} FillAccepted(f: Fill, h: Hashes, contract: Contract, n: nat)
    requires f.Valid() && 0 < n <= MAX_ACCEPTED_WRITES
    ensures AcceptAll(h, Fresh(contract), Filling(f, n))
        == Some(Lifecycle(contract, PartlyAborted(f, h, contract, n, 0), None))
  {
    hide TotalBytes;
    FillingAdds(f, h, contract, n);
    PartlyAbortedSize(f, h, contract, n, 0);
    var w := PartlyAborted(f, h, contract, n, 0);
    assert map[] + w == w;
    forall i | 0 <= i < n ensures ValidCommand(Filling(f, n)[i]) {
    }
  }

  /** The run leads to the fill with the first `m` writes aborted. */
  lemma {:induction false} FillingRuns(f: Fill, h: Hashes, c: Cutover, n: nat, m: nat)
    requires f.Valid() && m <= n && 0 < n <= MAX_ACCEPTED_WRITES && ValidContract(c.from) && ValidContract(c.to)
        && Advances(c.from, c.to)
    ensures Run(h, Fresh(c.from), FillingRun(f, c, n, m))
        == Lifecycle(c.from, PartlyAborted(f, h, c.from, n, m), Some(c))
  {
    hide PartlyAborted, AbortAccepted;
    var actions := FillingRun(f, c, n, m);
    if m == 0 {
      FillThenBegin(f, h, c, n);
    } else {
      FillingRuns(f, h, c, n, m - 1);
      assert actions[..|actions| - 1] == FillingRun(f, c, n, m - 1);
      AbortOneMore(f, h, c, n, m - 1);
    }
  }

  lemma {:induction false} FillThenBegin(f: Fill, h: Hashes, c: Cutover, n: nat)
    requires f.Valid() && 0 < n <= MAX_ACCEPTED_WRITES
    requires ValidContract(c.from) && ValidContract(c.to) && Advances(c.from, c.to)
    ensures Run(h, Fresh(c.from), [Accept(Filling(f, n)), Begin(c.to, c.membership)])
         == Lifecycle(c.from, PartlyAborted(f, h, c.from, n, 0), Some(c))
  {
    hide AcceptAll, PartlyAborted, Filling;
    var first, both := [Accept(Filling(f, n))], [Accept(Filling(f, n)), Begin(c.to, c.membership)];
    FillAccepted(f, h, c.from, n);
    assert first[..0] == [] && both[..1] == first;
    assert Run(h, Fresh(c.from), first) == Lifecycle(c.from, PartlyAborted(f, h, c.from, n, 0), None);
  }

  lemma {:induction false} AbortOneMore(f: Fill, h: Hashes, c: Cutover, n: nat, m: nat)
    requires f.Valid() && m < n <= MAX_ACCEPTED_WRITES
    ensures AbortAccepted(Lifecycle(c.from, PartlyAborted(f, h, c.from, n, m), Some(c)), Id(m), f.reason)
         == Some(Lifecycle(c.from, PartlyAborted(f, h, c.from, n, m + 1), Some(c)))
  {
    hide TotalBytes;
    var w := PartlyAborted(f, h, c.from, n, m);
    PartlyAbortedSize(f, h, c.from, n, m);
    IdsGrow(m);
    assert Id(m) in Ids(n);
    assert w[Id(m) := w[Id(m)].(disposition := Aborted(c.from, f.reason))] == PartlyAborted(f, h, c.from, n, m + 1);
  }

  /** A record's bytes include its command and an abort reason. */
  ghost predicate RecordsHoldTheirContents(hc: HaCodec) {
    forall r :: |hc.record(r)| >=
      |r.command.bytes| + (if r.disposition.Aborted? then |r.disposition.reason| else 0)
  }

  lemma {:induction false} ReadNoMoreThanRows(hc: HaCodec, es: seq<(Bytes, Bytes)>)
    requires ReadRecords(hc, es).Some?
    ensures |ReadRecords(hc, es).value| <= |es|
  {
    if es != [] {
      ReadNoMoreThanRows(hc, es[..|es| - 1]);
    }
  }

  lemma {:induction false} WideRows(es: seq<(Bytes, Bytes)>)
    requires forall i :: 0 <= i < |es| ==> |es[i].0| + |es[i].1| >= 2080
    ensures EntryBytes(es) >= |es| * 2080
  {
    if es != [] {
      WideRows(es[..|es| - 1]);
    }
  }

  lemma {:induction false} RowsAreWide(f: Fill, hc: HaCodec, t: Table, contract: Contract, n: nat,
                                       es: seq<(Bytes, Bytes)>)
    requires f.Valid() && n <= MAX_ACCEPTED_WRITES && RecordsHoldTheirContents(hc) && IsScanOf(es, t)
    requires IsRecordTable(hc, t, PartlyAborted(f, hc.hashes, contract, n, n))
    ensures forall i :: 0 <= i < |es| ==> |es[i].0| + |es[i].1| >= 2080
  {
    var w := PartlyAborted(f, hc.hashes, contract, n, n);
    forall i | 0 <= i < |es| ensures |es[i].0| + |es[i].1| >= 2080 {
      var k := RowOf(hc, t, w, es, i);
      assert |EncodeIdentity(k)| == IDENTITY_BYTES;
      assert w[k].disposition == Aborted(contract, f.reason);
      assert |hc.record(w[k])| >= 2048;
    }
  }

  /** A run of successful operations reaches a state whose checkpoint every
      later load refuses. */
  lemma {:induction false} CheckpointCanExceedLoadBound(f: Fill, hc: HaCodec, c: Cutover, tables: Tables, l: Lifecycle,
                                                        rs: seq<(Bytes, Bytes)>, js: seq<(Bytes, Bytes)>)
    requires f.Valid() && hc.Lawful() && RecordsHoldTheirContents(hc)
    requires ValidContract(c.from) && ValidContract(c.to) && Advances(c.from, c.to)
    requires l == Run(hc.hashes, Fresh(c.from), FillingRun(f, c, MAX_ACCEPTED_WRITES, MAX_ACCEPTED_WRITES))
    requires Stored(hc, tables, l.writes, [], l) && Scanned(tables, rs, js)
    ensures LoadScans(hc, Lookup(tables, METADATA_TABLE, METADATA_KEY), rs, js) == Err
  {
    hide Run, FillingRun, Stored, LoadScans, PartlyAborted, Inv, TotalBytes, Commitment;
    var n := MAX_ACCEPTED_WRITES;
    FillingRuns(f, hc.hashes, c, n, n);
    PartlyAbortedSize(f, hc.hashes, c.from, n, n);
    RecordsExceed(f, hc, tables, c.from, n, l, rs);
    LoadsWhatWasStored(hc, tables, l.writes, [], l, rs, js);
  }

  lemma {:induction false} RecordsExceed(f: Fill, hc: HaCodec, tables: Tables, contract: Contract, n: nat,
                                         l: Lifecycle, rs: seq<(Bytes, Bytes)>)
    requires f.Valid() && n <= MAX_ACCEPTED_WRITES && hc.Lawful() && RecordsHoldTheirContents(hc)
    requires Stored(hc, tables, l.writes, [], l)
    requires l.writes == PartlyAborted(f, hc.hashes, contract, n, n) && IsScanOf(rs, TableOf(tables, RECORDS_TABLE))
    ensures EntryBytes(rs) >= n * 2080
  {
    hide PartlyAborted, Inv;
    RowsAreWide(f, hc, TableOf(tables, RECORDS_TABLE), contract, n, rs);
    WideRows(rs);
    ReadStoredRecords(hc, TableOf(tables, RECORDS_TABLE), l.writes, rs);
    ReadNoMoreThanRows(hc, rs);
    PartlyAbortedSize(f, hc.hashes, contract, n, n);
  }
}
