/**
 The cutover manifest: building it from resolved writes, validating one, and
 that the engine accepts the manifest it built exactly while membership stands.
 */
module HaManifest {
  import opened Wrappers
  import opened HaTypes
  import opened HaLifecycle
  import opened FiniteSets
  import opened HaRuns
  import opened HaReload

  function ResolutionOf(r: WriteRecord): Resolution {
    Resolution(r.command.identity, r.commandHash, r.disposition)
  }

  /** Every write has been recertified or aborted. */
  predicate AllResolved(w: Writes) {
    forall k :: k in w ==> !w[k].disposition.Pending?
  }

  /** `m` is the manifest of this state. */
  ghost predicate IsManifestOf(h: Hashes, l: Lifecycle, m: Manifest) {
    && l.cutover == Some(m.cutover) && m.version == MANIFEST_VERSION && m.spec == l.contract.spec
    && CanonicalResolutions(m.resolutions) && |m.resolutions| == |l.writes|
    && (forall i :: 0 <= i < |m.resolutions| ==> Confirms(l.writes, m.resolutions[i]))
    && m.hash == h.manifest(m.cutover, m.resolutions)
  }

  /** The translated bytes of a manifest were already counted in the total. */
  lemma {:induction false} TranslationsCounted(w: Writes, rs: seq<Resolution>)
    requires CanonicalResolutions(rs) && forall i :: 0 <= i < |rs| ==> Confirms(w, rs[i])
    ensures TranslatedBytes(rs) <= TotalBytes(w)
    decreases |rs|
  {
    if rs != [] {
      var init, last := rs[..|rs| - 1], rs[|rs| - 1];
      assert Confirms(w, last);
      TotalBytesSplit(w, last.identity);
      var rest := w - {last.identity};
      forall i | 0 <= i < |init| ensures Confirms(rest, init[i]) {
        assert Confirms(w, rs[i]) && Precedes(rs[i].identity, last.identity);
      }
      TranslationsCounted(rest, init);
    }
  }

  lemma {:induction false} ManifestIsValid(h: Hashes, l: Lifecycle, m: Manifest)
    requires Inv(h, l) && IsManifestOf(h, l, m) && AllResolved(l.writes)
    ensures ValidManifest(h, m)
  {
    TranslationsCounted(l.writes, m.resolutions);
    forall i | 0 <= i < |m.resolutions|
      ensures !m.resolutions[i].disposition.Pending? && MatchesCutover(m.cutover, m.resolutions[i].disposition)
    {
      assert Confirms(l.writes, m.resolutions[i]);
      assert RecordOk(h, l.contract, l.cutover, m.resolutions[i].identity, l.writes[m.resolutions[i].identity]);
    }
  }

  /** A single translation is part of the bytes a list carries. */
  lemma {:induction false} TranslationCounts(rs: seq<Resolution>, i: nat)
    requires i < |rs| && rs[i].disposition.Recertified?
    ensures |rs[i].disposition.command.bytes| <= TranslatedBytes(rs)
  {
    if i < |rs| - 1 {
      TranslationCounts(rs[..|rs| - 1], i);
    }
  }

  /** What a valid manifest guarantees on its own: a cutover to a later contract, and
      in strict order resolutions that all belong to it, none pending, no translation
      beyond the byte bound, under the hash of its contents. */
  lemma {:induction false} ValidManifestMeans(h: Hashes, m: Manifest)
    requires ValidManifest(h, m)
    ensures m.version == 2 && m.spec == m.cutover.from.spec && m.hash == h.manifest(m.cutover, m.resolutions)
    ensures m.cutover.from.route >= 1 && m.cutover.from.spec >= 1
    ensures m.cutover.to.route > m.cutover.from.route && m.cutover.to.spec >= m.cutover.from.spec
    ensures |m.resolutions| <= 65_536
    ensures forall i, j :: 0 <= i < j < |m.resolutions| ==>
              Precedes(m.resolutions[i].identity, m.resolutions[j].identity)
    ensures forall i :: 0 <= i < |m.resolutions| ==>
              match m.resolutions[i].disposition
              case Pending => false
              case Recertified(from, to, c, _) =>
                from == m.cutover.from && to == m.cutover.to && |c.bytes| <= 64 * 1024 * 1024
              case Aborted(contract, _) => contract == m.cutover.from
  {
    forall i | 0 <= i < |m.resolutions| && m.resolutions[i].disposition.Recertified?
      ensures |m.resolutions[i].disposition.command.bytes| <= TranslatedBytes(m.resolutions)
    {
      TranslationCounts(m.resolutions, i);
    }
  }

  /** The engine's own manifest activates if and only if membership is still the
      one recorded when the cutover began; the outcome does not depend on it. */
  lemma {:induction false} OwnManifestActivates(h: Hashes, l: Lifecycle, m: Manifest, now: Membership)
    requires Inv(h, l) && IsManifestOf(h, l, m) && AllResolved(l.writes)
    ensures ActivateCutover(h, l, m, now)
         == if now == m.cutover.membership then Some(Lifecycle(m.cutover.to, Survivors(l.writes), None)) else None
  {
    ManifestIsValid(h, l, m);
    assert OfRoute(l.writes, m.cutover.from.route) == l.writes.Keys by {
      forall k | k in l.writes ensures l.writes[k].contract == l.contract {
        assert RecordOk(h, l.contract, l.cutover, k, l.writes[k]);
      }
    }
    if now == m.cutover.membership {
      ActivationKeepsSurvivors(h, l, m, now);
    }
  }

  /** Only the engine's own manifest is accepted: it must repeat every write's
      recorded resolution, with none pending, under the recorded membership. */
  lemma {:induction false} ActivationAcceptsExactly(h: Hashes, l: Lifecycle, m: Manifest, now: Membership)
    requires Inv(h, l)
    ensures ActivateCutover(h, l, m, now).Some?
       <==> IsManifestOf(h, l, m) && AllResolved(l.writes) && now == m.cutover.membership
  {
    hide Inv;
    if IsManifestOf(h, l, m) && AllResolved(l.writes) {
      OwnManifestActivates(h, l, m, now);
    }
    if ActivateCutover(h, l, m, now).Some? {
      ActivationKeepsSurvivors(h, l, m, now);
      ManifestCoversWrites(h, l, m, now);
      DistinctCount(m.resolutions);
      assert |l.writes.Keys| == |l.writes|;
    }
  }

  /** Two strictly ordered lists that name the same writes are the same list. */
  lemma {:induction false} ResolutionsUnique(w: Writes, a: seq<Resolution>, b: seq<Resolution>)
    requires CanonicalResolutions(a) && CanonicalResolutions(b) && ResolvedIds(a) == ResolvedIds(b)
    requires (forall i :: 0 <= i < |a| ==> Confirms(w, a[i])) && (forall i :: 0 <= i < |b| ==> Confirms(w, b[i]))
    ensures a == b
  {
    hide ResolvedIds, Confirms;
    DistinctCount(a);
    DistinctCount(b);
    if a != [] {
      var n := |a| - 1;
      SameLast(w, a, b);
      LastIsNew(a);
      LastIsNew(b);
      ResolvedIdsSplit(a);
      ResolvedIdsSplit(b);
      assert ResolvedIds(a[..n]) == ResolvedIds(a) - {a[n].identity};
      assert ResolvedIds(b[..n]) == ResolvedIds(b) - {b[n].identity};
      ResolutionsUnique(w, a[..n], b[..n]);
      assert a == a[..n] + [a[n]] && b == b[..n] + [b[n]];
    }
  }

  lemma {:induction false} SameLast(w: Writes, a: seq<Resolution>, b: seq<Resolution>)
    requires CanonicalResolutions(a) && CanonicalResolutions(b) && ResolvedIds(a) == ResolvedIds(b)
    requires a != [] && |a| == |b|
    requires Confirms(w, a[|a| - 1]) && Confirms(w, b[|b| - 1])
    ensures a[|a| - 1] == b[|b| - 1]
  {
    NotBeyondLast(a, b[|b| - 1].identity);
    NotBeyondLast(b, a[|a| - 1].identity);
  }

  lemma {:induction false} NotBeyondLast(rs: seq<Resolution>, k: CommandIdentity)
    requires CanonicalResolutions(rs) && rs != []
    ensures k in ResolvedIds(rs) ==> k == rs[|rs| - 1].identity || Precedes(k, rs[|rs| - 1].identity)
    ensures rs[|rs| - 1].identity in ResolvedIds(rs)
  {
  }

  /** A state has one manifest. */
  lemma {:induction false} ManifestUnique(h: Hashes, l: Lifecycle, a: Manifest, b: Manifest)
    requires IsManifestOf(h, l, a) && IsManifestOf(h, l, b)
    ensures a == b
  {
    forall m: Manifest | m == a || m == b ensures ResolvedIds(m.resolutions) == l.writes.Keys {
      DistinctCount(m.resolutions);
      assert ResolvedIds(m.resolutions) <= l.writes.Keys by {
        forall k | k in ResolvedIds(m.resolutions) ensures k in l.writes.Keys {
          var i :| 0 <= i < |m.resolutions| && m.resolutions[i].identity == k;
          assert Confirms(l.writes, m.resolutions[i]);
        }
      }
      SameSizeSubset(ResolvedIds(m.resolutions), l.writes.Keys);
    }
    ResolutionsUnique(l.writes, a.resolutions, b.resolutions);
  }

  /** The manifest of a state says, in strict identity order and once each, how
      every write was resolved and under which hash. */
  lemma {:induction false} ManifestMeans(h: Hashes, l: Lifecycle, m: Manifest)
    requires IsManifestOf(h, l, m)
    ensures l.cutover == Some(m.cutover) && m.version == 2 && m.spec == l.contract.spec
    ensures m.hash == h.manifest(m.cutover, m.resolutions) && |m.resolutions| == |l.writes|
    ensures forall i, j :: 0 <= i < j < |m.resolutions| ==>
              Precedes(m.resolutions[i].identity, m.resolutions[j].identity)
    ensures forall k :: k in l.writes ==>
              Resolution(k, l.writes[k].commandHash, l.writes[k].disposition) in m.resolutions
  {
    DistinctCount(m.resolutions);
    assert ResolvedIds(m.resolutions) <= l.writes.Keys by {
      forall k | k in ResolvedIds(m.resolutions) ensures k in l.writes.Keys {
        var i :| 0 <= i < |m.resolutions| && m.resolutions[i].identity == k;
        assert Confirms(l.writes, m.resolutions[i]);
      }
    }
    SameSizeSubset(ResolvedIds(m.resolutions), l.writes.Keys);
    forall k | k in l.writes ensures Resolution(k, l.writes[k].commandHash, l.writes[k].disposition) in m.resolutions {
      var i :| 0 <= i < |m.resolutions| && m.resolutions[i].identity == k;
      assert Confirms(l.writes, m.resolutions[i]);
      assert m.resolutions[i] == Resolution(k, l.writes[k].commandHash, l.writes[k].disposition);
    }
  }

  /** The manifest the engine hands out: none while a write is pending. */
  ghost function OwnManifest(h: Hashes, l: Lifecycle): Option<Manifest> {
    if AllResolved(l.writes) && exists m :: IsManifestOf(h, l, m)
    then
      var m :| IsManifestOf(h, l, m);
      Some(m)
    else None
  }

  lemma {:induction false} OwnManifestIs(h: Hashes, l: Lifecycle, m: Manifest)
    requires IsManifestOf(h, l, m) && AllResolved(l.writes)
    ensures OwnManifest(h, l) == Some(m)
  {
    hide IsManifestOf;
    ManifestUnique(h, l, m, OwnManifest(h, l).value);
  }

  /** The engine has a manifest exactly when a cutover is active and resolved. */
  lemma {:induction false} OwnManifestExists(h: Hashes, l: Lifecycle)
    requires Inv(h, l)
    ensures OwnManifest(h, l).Some? <==> l.cutover.Some? && AllResolved(l.writes)
    ensures OwnManifest(h, l).Some? ==> IsManifestOf(h, l, OwnManifest(h, l).value)
  {
    hide Inv, RecordOk;
    if l.cutover.Some? && AllResolved(l.writes) {
      InvRecords(h, l);
      var records := ListingExists(l.writes);
      var rs := seq(|records|, i requires 0 <= i < |records| => ResolutionOf(records[i]));
      var m := Manifest(MANIFEST_VERSION, l.cutover.value, l.contract.spec, rs, h.manifest(l.cutover.value, rs));
      assert IsManifestOf(h, l, m);
    }
  }

  /** Collects the resolutions in identity order; refused while a write is pending. */
  method CutoverManifest(h: Hashes, l: Lifecycle) returns (r: Option<Manifest>)
    requires Inv(h, l)
    ensures r.Some? <==> l.cutover.Some? && AllResolved(l.writes)
    ensures r.Some? ==> IsManifestOf(h, l, r.value) && ValidManifest(h, r.value)
    ensures r == OwnManifest(h, l)
  {
    hide Inv, ValidManifest, RecordOk;
    if l.cutover.None? {
      return None;
    }
    var cutover := l.cutover.value;
    InvRecords(h, l);
    var records := ListWrites(l.writes);
    var resolutions: seq<Resolution> := [];
    for i := 0 to |records|
      invariant |resolutions| == i
      invariant forall j :: 0 <= j < i ==>
        resolutions[j] == ResolutionOf(records[j]) && !records[j].disposition.Pending?
    {
      assert records[i].contract.route == cutover.from.route;
      if records[i].disposition.Pending? {
        assert l.writes[records[i].command.identity] == records[i];
        return None;
      }
      resolutions := resolutions + [ResolutionOf(records[i])];
    }
    var m := Manifest(MANIFEST_VERSION, cutover, l.contract.spec, resolutions, h.manifest(cutover, resolutions));
    AllListed(records, l.writes);
    assert IsManifestOf(h, l, m);
    ManifestIsValid(h, l, m);
    OwnManifestIs(h, l, m);
    return Some(m);
  }

  lemma {:induction false} AllListed(records: seq<WriteRecord>, w: Writes)
    requires IsListing(records, w) && forall i :: 0 <= i < |records| ==> !records[i].disposition.Pending?
    ensures AllResolved(w)
  {
    forall k | k in w ensures !w[k].disposition.Pending? {
      var i :| 0 <= i < |records| && records[i] == w[k];
    }
  }

  /** Checks a manifest in one pass that remembers only the previous identity. */
  method ValidateManifest(h: Hashes, m: Manifest) returns (ok: bool)
    ensures ok == ValidManifest(h, m)
  {
    if m.version != MANIFEST_VERSION || !ValidContract(m.cutover.from) || !ValidContract(m.cutover.to)
       || m.spec != m.cutover.from.spec || !Advances(m.cutover.from, m.cutover.to)
       || |m.resolutions| > MAX_ACCEPTED_WRITES {
      return false;
    }
    var previous: Option<CommandIdentity> := None;
    var translated := 0;
    for i := 0 to |m.resolutions|
      invariant previous == if i == 0 then None else Some(m.resolutions[i - 1].identity)
      invariant CanonicalResolutions(m.resolutions[..i])
      invariant forall j :: 0 <= j < i ==>
        !m.resolutions[j].disposition.Pending? && MatchesCutover(m.cutover, m.resolutions[j].disposition)
      invariant translated == TranslatedBytes(m.resolutions[..i])
    {
      var r := m.resolutions[i];
      assert m.resolutions[..i + 1][..i] == m.resolutions[..i];
      if r.disposition.Pending? || (previous.Some? && !Precedes(previous.value, r.identity)) {
        assert i > 0 && previous.Some? ==> m.resolutions[i - 1].identity == previous.value;
        return false;
      }
      if !MatchesCutover(m.cutover, r.disposition) {
        return false;
      }
      CanonicalExtends(m.resolutions, i);
      if r.disposition.Recertified? {
        translated := translated + |r.disposition.command.bytes|;
      }
      previous := Some(r.identity);
    }
    assert m.resolutions[..|m.resolutions|] == m.resolutions;
    return translated <= MAX_ACCEPTED_COMMAND_BYTES && h.manifest(m.cutover, m.resolutions) == m.hash;
  }

  /** Comparing neighbours is enough for the order to be strict throughout. */
  lemma {:induction false} CanonicalExtends(rs: seq<Resolution>, i: nat)
    requires i < |rs| && CanonicalResolutions(rs[..i])
    requires i > 0 ==> Precedes(rs[i - 1].identity, rs[i].identity)
    ensures CanonicalResolutions(rs[..i + 1])
  {
    forall a, b | 0 <= a < b < i + 1
      ensures Precedes(rs[a].identity, rs[b].identity)
    {
      if b == i && a < i - 1 {
        assert Precedes(rs[..i][a].identity, rs[..i][i - 1].identity);
        PrecedesTransitive(rs[a].identity, rs[i - 1].identity, rs[i].identity);
      } else if b < i {
        assert Precedes(rs[..i][a].identity, rs[..i][b].identity);
      }
    }
  }
}
