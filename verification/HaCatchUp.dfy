/**
 The recovery manifest one replica hands to another: its contract, its accepted
 writes in order and its cutover, sealed by a hash. Installing one is proved to
 copy the writes the other replica lacks, and nothing else.
 */
module HaCatchUp {
  import opened Wrappers
  import opened Digests
  import opened LogTables
  import opened HaTypes
  import opened HaLifecycle
  import opened HaReload
  import opened HaPersist
  import opened HaCutover

  const RECOVERY_VERSION: nat := 2

  /** `runtime` stands for the encoded snapshot of the protocol runtime. */
  datatype Recovery = Recovery(version: nat, contract: Contract, runtime: Bytes, writes: seq<WriteRecord>,
                               cutover: Option<Cutover>, hash: Digest)

  /** Hash of a manifest whose own hash field is zero. */
  type Seal = Recovery -> Digest

  function Unsealed(h: Hashes, m: Recovery): Recovery {
    m.(hash := h.zero)
  }

  ghost predicate ValidRecovery(h: Hashes, seal: Seal, m: Recovery) {
    && m.version == RECOVERY_VERSION && ValidContract(m.contract)
    && ValidIncoming(h, m.contract, m.cutover, m.writes)
    && seal(Unsealed(h, m)) == m.hash
  }

  /** `m` is the manifest of this state. */
  ghost predicate IsRecoveryOf(h: Hashes, seal: Seal, l: Lifecycle, m: Recovery) {
    && m.version == RECOVERY_VERSION && m.contract == l.contract && m.cutover == l.cutover
    && IsListing(m.writes, l.writes) && |m.writes| == |l.writes|
    && m.hash == seal(Unsealed(h, m))
  }

  /** What installing a manifest makes of a replica. */
  ghost function InstallRecovery(h: Hashes, seal: Seal, l: Lifecycle, m: Recovery): Option<Lifecycle> {
    if !ValidRecovery(h, seal, m) || m.contract != l.contract then None
    else InstallWrites(h, l, m.writes, m.cutover)
  }

  lemma {:induction false} ManifestLists(h: Hashes, seal: Seal, l: Lifecycle, m: Recovery)
    requires Inv(h, l) && IsRecoveryOf(h, seal, l, m)
    ensures ByIdentity(m.writes) == l.writes && ValidRecovery(h, seal, m)
  {
    InvRecords(h, l);
    ListingIsWrites(m.writes, l.writes);
    forall i | 0 <= i < |m.writes|
      ensures RecordOk(h, m.contract, m.cutover, m.writes[i].command.identity, m.writes[i])
    {
      assert l.writes[m.writes[i].command.identity] == m.writes[i];
    }
  }

  lemma {:induction false} ListedOnce(rs: seq<WriteRecord>)
    requires CanonicalRecords(rs)
    ensures |ByIdentity(rs)| == |rs|
  {
    if rs != [] {
      var n := |rs| - 1;
      ListedOnce(rs[..n]);
      if rs[n].command.identity in ByIdentity(rs[..n]) {
        ByIdentityOk(rs[..n], rs[n].command.identity);
      }
      assert rs[n].command.identity !in ByIdentity(rs[..n]);
    }
  }

  /** A manifest validates if and only if it is the manifest of some valid state. */
  lemma {:induction false} ValidIffOfSomeState(h: Hashes, seal: Seal, m: Recovery)
    ensures ValidRecovery(h, seal, m) <==> exists l :: Inv(h, l) && IsRecoveryOf(h, seal, l, m)
  {
    hide TotalBytes, RecordOk, ValidCutover;
    if ValidRecovery(h, seal, m) {
      var l := Lifecycle(m.contract, ByIdentity(m.writes), m.cutover);
      ListedOnce(m.writes);
      forall i | 0 <= i < |m.writes|
        ensures m.writes[i].command.identity in l.writes && l.writes[m.writes[i].command.identity] == m.writes[i]
      {
        ByIdentityHas(m.writes, i);
      }
      forall k | k in l.writes
        ensures l.writes[k] in m.writes && RecordOk(h, l.contract, l.cutover, k, l.writes[k])
      {
        ByIdentityOk(m.writes, k);
      }
      assert Inv(h, l) && IsRecoveryOf(h, seal, l, m);
    }
    forall l | Inv(h, l) && IsRecoveryOf(h, seal, l, m) ensures ValidRecovery(h, seal, m) {
      ManifestLists(h, seal, l, m);
    }
  }

  /** The two replicas hold the same record wherever both hold one. */
  predicate Compatible(a: Writes, b: Writes) {
    forall k :: k in a && k in b ==> a[k] == b[k]
  }

  /** Another replica's manifest is installed if and only if the contracts agree,
      an active cutover is the other's too, no write differs and the union fits;
      the replica then has the union of the writes and the other's cutover. */
  lemma {:induction false} InstallsUnion(h: Hashes, seal: Seal, l: Lifecycle, other: Lifecycle, m: Recovery)
    requires Inv(h, l) && Inv(h, other) && IsRecoveryOf(h, seal, other, m)
    ensures InstallRecovery(h, seal, l, m).Some?
       <==> && l.contract == other.contract && (l.cutover.Some? ==> l.cutover == other.cutover)
            && Compatible(l.writes, other.writes)
            && |other.writes + l.writes| <= MAX_ACCEPTED_WRITES
            && TotalBytes(other.writes + l.writes) <= MAX_ACCEPTED_COMMAND_BYTES
    ensures InstallRecovery(h, seal, l, m).Some? ==>
              InstallRecovery(h, seal, l, m).value == Lifecycle(l.contract, other.writes + l.writes, other.cutover)
  {
    hide Inv, IsRecoveryOf, ValidRecovery;
    ManifestLists(h, seal, other, m);
    RecoveryFields(h, seal, other, m);
    Validated(h, seal, m);
  }

  lemma {:induction false} RecoveryFields(h: Hashes, seal: Seal, l: Lifecycle, m: Recovery)
    requires IsRecoveryOf(h, seal, l, m)
    ensures m.contract == l.contract && m.cutover == l.cutover
  {
  }

  lemma {:induction false} Validated(h: Hashes, seal: Seal, m: Recovery)
    requires ValidRecovery(h, seal, m)
    ensures ValidIncoming(h, m.contract, m.cutover, m.writes)
  {
  }

  /** A replica that holds nothing the other lacks becomes an exact copy; a fresh
      replica of the same contract is one. */
  lemma {:induction false} CatchUpCopies(h: Hashes, seal: Seal, l: Lifecycle, other: Lifecycle, m: Recovery)
    requires Inv(h, l) && Inv(h, other) && IsRecoveryOf(h, seal, other, m)
    requires l.contract == other.contract && (l.cutover.Some? ==> l.cutover == other.cutover)
    requires l.writes.Keys <= other.writes.Keys && Compatible(l.writes, other.writes)
    ensures InstallRecovery(h, seal, l, m) == Some(other)
  {
    assert other.writes + l.writes == other.writes;
    InstallsUnion(h, seal, l, other, m);
  }

  /** Two replicas that install each other's manifests end in the same state. */
  lemma {:induction false} ExchangeConverges(h: Hashes, seal: Seal, a: Lifecycle, b: Lifecycle, ma: Recovery,
                                             mb: Recovery)
    requires Inv(h, a) && Inv(h, b) && IsRecoveryOf(h, seal, a, ma) && IsRecoveryOf(h, seal, b, mb)
    requires InstallRecovery(h, seal, a, mb).Some? && InstallRecovery(h, seal, b, ma).Some?
    ensures InstallRecovery(h, seal, a, mb) == InstallRecovery(h, seal, b, ma)
  {
    hide Inv, IsRecoveryOf, InstallRecovery, TotalBytes, Compatible;
    InstallsUnion(h, seal, a, b, mb);
    InstallsUnion(h, seal, b, a, ma);
    UnionCommutes(a.writes, b.writes);
  }

  lemma {:induction false} UnionCommutes(a: Writes, b: Writes)
    requires Compatible(a, b)
    ensures a + b == b + a
  {
  }

  /** Collects the manifest of a state. */
  method BuildRecovery(h: Hashes, seal: Seal, l: Lifecycle, runtime: Bytes) returns (m: Recovery)
    requires Inv(h, l)
    ensures IsRecoveryOf(h, seal, l, m) && ValidRecovery(h, seal, m) && m.runtime == runtime
  {
    hide Inv, ValidRecovery;
    InvRecords(h, l);
    var records := ListWrites(l.writes);
    var unsealed := Recovery(RECOVERY_VERSION, l.contract, runtime, records, l.cutover, h.zero);
    m := unsealed.(hash := seal(unsealed));
    assert Unsealed(h, m) == unsealed;
    ManifestLists(h, seal, l, m);
  }

  method ValidateRecovery(h: Hashes, seal: Seal, m: Recovery) returns (ok: bool)
    ensures ok == ValidRecovery(h, seal, m)
  {
    hide ValidIncoming;
    if m.version != RECOVERY_VERSION || !ValidContract(m.contract) {
      return false;
    }
    ok := ValidateIncoming(h, m.contract, m.cutover, m.writes);
    ok := ok && seal(Unsealed(h, m)) == m.hash;
  }
}
