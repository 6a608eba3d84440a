/**
 Which stored tables load, stated over rows and fields: every record row under its
 own key, every journal row in sequence and sealed, and metadata that is sealed
 and describes the writes that result.
 */
module LoadLaws {
  import opened Wrappers
  import opened LogTables
  import opened HaTypes
  import opened HaLifecycle
  import opened HaStore

  /** The valid record a row holds under that record's own identity, if it does. */
  function RowRecord(hc: HaCodec, e: (Bytes, Bytes)): Option<WriteRecord> {
    match hc.decodeRecord(e.1)
    case None => None
    case Some(r) => if ValidRecord(hc.hashes, r) && e.0 == EncodeIdentity(r.command.identity) then Some(r) else None
  }

  /** The row holds a record of this identity. */
  predicate RowOfId(hc: HaCodec, e: (Bytes, Bytes), k: CommandIdentity) {
    RowRecord(hc, e).Some? && RowRecord(hc, e).value.command.identity == k
  }

  ghost predicate GoodRows(hc: HaCodec, es: seq<(Bytes, Bytes)>) {
    && (forall i :: 0 <= i < |es| ==> RowRecord(hc, es[i]).Some?)
    && (forall i, j, k :: 0 <= i < j < |es| && RowOfId(hc, es[i], k) ==> !RowOfId(hc, es[j], k))
  }

  ghost predicate HoldsRows(hc: HaCodec, es: seq<(Bytes, Bytes)>, w: Writes) {
    && (forall k :: k in w ==> exists i :: 0 <= i < |es| && RowOfId(hc, es[i], k))
    && (forall i, k :: 0 <= i < |es| && RowOfId(hc, es[i], k) ==> k in w && Some(w[k]) == RowRecord(hc, es[i]))
  }

  lemma {:induction false} OneMoreRow(hc: HaCodec, init: seq<(Bytes, Bytes)>, last: (Bytes, Bytes), w: Writes)
    requires GoodRows(hc, init) && HoldsRows(hc, init, w)
    ensures GoodRows(hc, init + [last]) <==> ReadRecord(hc, w, last).Some?
    ensures ReadRecord(hc, w, last).Some? ==> HoldsRows(hc, init + [last], ReadRecord(hc, w, last).value)
  {
    hide EncodeIdentity, ValidRecord;
    var es, n := init + [last], |init|;
    assert es[n] == last && forall i :: 0 <= i < n ==> es[i] == init[i];
    if RowRecord(hc, last).Some? {
      var id := RowRecord(hc, last).value.command.identity;
      assert RowOfId(hc, last, id);
      if id in w {
        var i :| 0 <= i < n && RowOfId(hc, init[i], id);
        assert RowOfId(hc, es[i], id) && RowOfId(hc, es[n], id);
      } else {
        var next := w[id := RowRecord(hc, last).value];
        assert ReadRecord(hc, w, last) == Some(next);
        HoldsOneMore(hc, init, last, w, id);
      }
    } else {
      assert RowRecord(hc, es[n]).None?;
    }
  }

  lemma {:induction false} HoldsOneMore(hc: HaCodec, init: seq<(Bytes, Bytes)>, last: (Bytes, Bytes), w: Writes,
                                        id: CommandIdentity)
    requires HoldsRows(hc, init, w) && RowOfId(hc, last, id) && id !in w
    ensures HoldsRows(hc, init + [last], w[id := RowRecord(hc, last).value])
  {
    hide RowRecord;
    var es, n, next := init + [last], |init|, w[id := RowRecord(hc, last).value];
    forall k | k in next ensures exists i :: 0 <= i < |es| && RowOfId(hc, es[i], k) {
      if k == id {
        assert RowOfId(hc, es[n], k);
      } else {
        var i :| 0 <= i < n && RowOfId(hc, init[i], k);
        assert RowOfId(hc, es[i], k);
      }
    }
    forall i, k | 0 <= i < |es| && RowOfId(hc, es[i], k) ensures k in next && Some(next[k]) == RowRecord(hc, es[i]) {
      if i < n {
        assert RowOfId(hc, init[i], k);
      }
    }
  }

  /** The record table reads exactly when every row holds a valid record under its
      own identity and no two the same one; it then holds exactly those records. */
  lemma {:induction false} RecordsReadExactly(hc: HaCodec, es: seq<(Bytes, Bytes)>)
    ensures ReadRecords(hc, es).Some? <==> GoodRows(hc, es)
    ensures ReadRecords(hc, es).Some? ==> HoldsRows(hc, es, ReadRecords(hc, es).value)
  {
    if es != [] {
      var n := |es| - 1;
      var init := es[..n];
      assert es == init + [es[n]];
      RecordsReadExactly(hc, init);
      if GoodRows(hc, es) {
        GoodRowsPrefix(hc, init, es[n]);
      }
      if GoodRows(hc, init) {
        hide GoodRows, HoldsRows, ReadRecord;
        OneMoreRow(hc, init, es[n], ReadRecords(hc, init).value);
      }
    }
  }

  lemma {:induction false} GoodRowsPrefix(hc: HaCodec, init: seq<(Bytes, Bytes)>, last: (Bytes, Bytes))
    requires GoodRows(hc, init + [last])
    ensures GoodRows(hc, init)
  {
    hide RowRecord;
    var es := init + [last];
    assert forall i :: 0 <= i < |init| ==> es[i] == init[i];
    forall i | 0 <= i < |init| ensures RowRecord(hc, init[i]).Some? {
      assert RowRecord(hc, es[i]).Some?;
    }
    forall i, j, k | 0 <= i < j < |init| && RowOfId(hc, init[i], k) ensures !RowOfId(hc, init[j], k) {
      assert RowOfId(hc, es[i], k);
    }
  }

  /** The row is the `i`-th of the journal and decodes to a sealed delta. */
  ghost predicate GoodDelta(hc: HaCodec, e: (Bytes, Bytes), i: nat) {
    && |e.0| == 8 && BigEndian.Decode(e.0) == i && hc.decodeDelta(e.1).Some?
    && ValidDelta(hc, hc.decodeDelta(e.1).value)
  }

  lemma {:induction false} JournalReadsExactly(hc: HaCodec, w: Writes, es: seq<(Bytes, Bytes)>)
    ensures ReadJournal(hc, w, es).Some? <==> forall i :: 0 <= i < |es| ==> GoodDelta(hc, es[i], i)
  {
    if es != [] {
      var n := |es| - 1;
      JournalReadsExactly(hc, w, es[..n]);
      assert forall i :: 0 <= i < n ==> es[..n][i] == es[i];
    }
  }

  /** A delta is valid exactly when it has the version, bounded and strictly ordered
      lists, valid records and the hash of its contents. */
  lemma {:induction false} DeltaValidExactly(hc: HaCodec, d: Delta)
    ensures ValidDelta(hc, d) <==>
              && d.version == 2 && |d.upserts| <= MAX_ACCEPTED_WRITES && |d.removals| <= MAX_ACCEPTED_WRITES
              && (forall i, j :: 0 <= i < j < |d.upserts| ==>
                    Precedes(d.upserts[i].command.identity, d.upserts[j].command.identity))
              && (forall i, j :: 0 <= i < j < |d.removals| ==> Precedes(d.removals[i], d.removals[j]))
              && (forall i :: 0 <= i < |d.upserts| ==> ValidRecord(hc.hashes, d.upserts[i]))
              && d.hash == hc.deltaHash(d.upserts, d.removals)
  {
  }

  /** What a delta does to each identity: the record it upserts there, nothing where
      it only removes, and otherwise what was there. */
  lemma {:induction false} DeltaEffect(w: Writes, d: Delta, k: CommandIdentity)
    requires forall i, j :: 0 <= i < j < |d.upserts| ==>
               Precedes(d.upserts[i].command.identity, d.upserts[j].command.identity)
    ensures var w' := ApplyDelta(w, d);
            && (forall i :: 0 <= i < |d.upserts| && d.upserts[i].command.identity == k ==>
                  k in w' && w'[k] == d.upserts[i])
            && ((forall i :: 0 <= i < |d.upserts| ==> d.upserts[i].command.identity != k) ==>
                  (k in w' <==> k in w && k !in d.removals) && (k in w' ==> w'[k] == w[k]))
  {
    assert k in IdSet(d.removals) <==> k in d.removals;
    forall i | 0 <= i < |d.upserts| && d.upserts[i].command.identity == k
      ensures k in ByIdentity(d.upserts) && ByIdentity(d.upserts)[k] == d.upserts[i]
    {
      UpsertAt(d.upserts, i);
    }
    if k in ByIdentity(d.upserts) {
      ByIdentityOk(d.upserts, k);
    }
  }

  lemma {:induction false} UpsertAt(rs: seq<WriteRecord>, i: nat)
    requires i < |rs|
    requires forall a, b :: 0 <= a < b < |rs| ==> Precedes(rs[a].command.identity, rs[b].command.identity)
    ensures rs[i].command.identity in ByIdentity(rs) && ByIdentity(rs)[rs[i].command.identity] == rs[i]
  {
    if i < |rs| - 1 {
      UpsertAt(rs[..|rs| - 1], i);
      assert Precedes(rs[i].command.identity, rs[|rs| - 1].command.identity);
    }
  }

  /** The metadata is sealed, in bounds, and summarises these writes and a journal of
      this length. */
  ghost predicate Describes(hc: HaCodec, m: Metadata, w: Writes, entries: nat) {
    && m.version == 2 && m.hash == hc.metadataHash(m.(hash := hc.hashes.zero))
    && m.count == |w| && m.bytes == TotalBytes(w) && m.commitment == Commitment(hc.hashes, w)
    && m.nextSequence == entries && m.entries == entries
  }

  /** Stored tables load to a state exactly when the metadata and the rows are
      within the load bound, every row is good, and the metadata describes the
      resulting writes, which satisfy the engine invariant; it is then that state. */
  lemma {:induction false} LoadsExactly(hc: HaCodec, bytes: Bytes, rs: seq<(Bytes, Bytes)>, js: seq<(Bytes, Bytes)>,
                                        x: Loaded)
    ensures LoadScans(hc, Some(bytes), rs, js) == Ok(Some(x)) <==>
              && |bytes| <= 128 * 1024 * 1024 && EntryBytes(rs) + ValueBytes(js) <= 128 * 1024 * 1024
              && ReadRecords(hc, rs).Some? && (forall i :: 0 <= i < |js| ==> GoodDelta(hc, js[i], i))
              && ReadJournal(hc, ReadRecords(hc, rs).value, js) == Some(x.lifecycle.writes)
              && hc.decodeMetadata(bytes).Some?
              && var m := hc.decodeMetadata(bytes).value;
                 && Describes(hc, m, x.lifecycle.writes, |js|) && Inv(hc.hashes, x.lifecycle)
                 && x == Loaded(Lifecycle(m.contract, x.lifecycle.writes, m.cutover), m.bytes, m.commitment, |js|,
                                ValueBytes(js))
    ensures LoadScans(hc, None, rs, js) == Ok(None)
  {
    hide ReadRecords, ReadJournal, EntryBytes, ValueBytes, TotalBytes, Commitment;
    if ReadRecords(hc, rs).Some? {
      JournalReadsExactly(hc, ReadRecords(hc, rs).value, js);
    }
  }
}
