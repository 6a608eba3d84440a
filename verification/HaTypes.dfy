/**
 Accepted writes of the active-active service: records, cutovers, what makes
 them valid, and the byte total and XOR commitment kept over them.
 */
module HaTypes {
  import opened Wrappers
  import opened LogTables
  import opened Digests

  const MAX_ACCEPTED_WRITES: nat := 65_536
  const MAX_ACCEPTED_COMMAND_BYTES: nat := 64 * 1024 * 1024
  const MAX_APPLICATION_COMMAND_BYTES: nat := 64 * 1024 * 1024
  const MAX_ABORT_REASON_BYTES: nat := 1024
  const MAX_SHARD_LANES: nat := 256

  type U64 = x: nat | x < 0x1_0000_0000_0000_0000
  type U128 = x: nat | x < 0x1_0000_0000_0000_0000_0000_0000_0000_0000

  /** A client of 16 bytes, read as a big-endian number, its epoch and a sequence. */
  datatype CommandIdentity = CommandIdentity(clientId: U128, clientEpoch: U64, sequence: U64)

  /** Field-by-field order of identities. */
  predicate Precedes(a: CommandIdentity, b: CommandIdentity) {
    a.clientId < b.clientId
    || (a.clientId == b.clientId && a.clientEpoch < b.clientEpoch)
    || (a.clientId == b.clientId && a.clientEpoch == b.clientEpoch && a.sequence < b.sequence)
  }

  datatype Command = Command(identity: CommandIdentity, bytes: Bytes)

  predicate ValidCommand(c: Command) {
    c.identity.sequence >= 1 && 1 <= |c.bytes| <= MAX_APPLICATION_COMMAND_BYTES
  }

  /** Route generation and command-spec version. */
  datatype Contract = Contract(route: nat, spec: nat)

  predicate ValidContract(c: Contract) {
    c.route >= 1 && c.spec >= 1
  }

  /** A cutover advances the route and does not regress the command spec. */
  predicate Advances(from: Contract, to: Contract) {
    to.route > from.route && to.spec >= from.spec
  }

  datatype Disposition =
    | Pending
    | Recertified(from: Contract, to: Contract, command: Command, commandHash: Digest)
    | Aborted(contract: Contract, reason: string)

  datatype WriteRecord = WriteRecord(command: Command, commandHash: Digest, contract: Contract,
                                     disposition: Disposition)

  datatype Membership = Membership(generation: nat, activeMask: nat)

  datatype Cutover = Cutover(from: Contract, to: Contract, membership: Membership)

  type Writes = map<CommandIdentity, WriteRecord>

  /** The default digest and those computed over commands, records and manifests. */
  datatype Hashes = Hashes(zero: ZeroDigest, command: Command -> Digest, record: WriteRecord -> Digest,
                           manifest: (Cutover, seq<Resolution>) -> Digest)

  /** How one accepted write leaves the source contract. */
  datatype Resolution = Resolution(identity: CommandIdentity, commandHash: Digest, disposition: Disposition)

  predicate ValidRecord(h: Hashes, r: WriteRecord) {
    && ValidCommand(r.command) && ValidContract(r.contract)
    && h.command(r.command) == r.commandHash
    && match r.disposition
       case Pending => true
       case Recertified(from, to, command, commandHash) =>
         && ValidContract(from) && ValidContract(to) && ValidCommand(command)
         && from == r.contract && Advances(from, to)
         && command.identity == r.command.identity
         && h.command(command) == commandHash
       case Aborted(contract, reason) =>
         && ValidContract(contract) && contract == r.contract
         && 1 <= |reason| <= MAX_ABORT_REASON_BYTES
  }

  /** The disposition was decided for this very cutover. */
  predicate MatchesCutover(c: Cutover, d: Disposition) {
    match d
    case Pending => true
    case Recertified(from, to, _, _) => from == c.from && to == c.to
    case Aborted(contract, _) => contract == c.from
  }

  predicate ValidCutover(contract: Contract, cutover: Option<Cutover>) {
    cutover.Some? ==>
      var c := cutover.value;
      ValidContract(c.from) && ValidContract(c.to) && c.from == contract && Advances(c.from, c.to)
  }

  /** Command bytes one record holds, including a translated command. */
  function RecordBytes(r: WriteRecord): nat {
    |r.command.bytes| + (if r.disposition.Recertified? then |r.disposition.command.bytes| else 0)
  }

  /** Commitment of one record; a pending one is committed by its command hash. */
  function RecordCommitment(h: Hashes, r: WriteRecord): Digest {
    if r.disposition.Pending? then r.commandHash else h.record(r)
  }

  ghost function AnyIdentity(w: Writes): (k: CommandIdentity)
    requires w != map[]
    ensures k in w
  {
    assert w.Keys != {};
    var k :| k in w;
    k
  }

  /** Byte total over all records, in no particular order. */
  ghost function TotalBytes(w: Writes): nat
    decreases |w|
  {
    if w == map[] then 0
    else
      var k := AnyIdentity(w);
      TotalBytes(w - {k}) + RecordBytes(w[k])
  }

  /** XOR of all record commitments, in no particular order. */
  ghost function Commitment(h: Hashes, w: Writes): Digest
    decreases |w|
  {
    if w == map[] then h.zero
    else
      var k := AnyIdentity(w);
      Xor(Commitment(h, w - {k}), RecordCommitment(h, w[k]))
  }

  lemma {:induction false} WithoutTwo(w: Writes, a: CommandIdentity, b: CommandIdentity)
    ensures w - {a} - {b} == w - {b} - {a}
  {
  }

  /** Any record can be taken out of the byte total first. */
  lemma {:induction false} TotalBytesSplit(w: Writes, k: CommandIdentity)
    requires k in w
    ensures TotalBytes(w) == TotalBytes(w - {k}) + RecordBytes(w[k])
    ensures RecordBytes(w[k]) == |w[k].command.bytes|
                                 + match w[k].disposition case Recertified(_, _, c, _) => |c.bytes| case _ => 0
    decreases |w|
  {
    var p := AnyIdentity(w);
    if p != k {
      assert |w - {p}| < |w| && |w - {k}| < |w|;
      TotalBytesSplit(w - {p}, k);
      TotalBytesSplit(w - {k}, p);
      WithoutTwo(w, p, k);
    }
  }

  /** Any record can be taken out of the commitment first. */
  lemma {:induction false} CommitmentSplit(h: Hashes, w: Writes, k: CommandIdentity)
    requires k in w
    ensures Commitment(h, w) == Xor(Commitment(h, w - {k}), RecordCommitment(h, w[k]))
    ensures w[k].disposition.Pending? ==> RecordCommitment(h, w[k]) == w[k].commandHash
    ensures !w[k].disposition.Pending? ==> RecordCommitment(h, w[k]) == h.record(w[k])
    decreases |w|
  {
    var p := AnyIdentity(w);
    if p != k {
      assert |w - {p}| < |w| && |w - {k}| < |w|;
      CommitmentSplit(h, w - {p}, k);
      CommitmentSplit(h, w - {k}, p);
      WithoutTwo(w, p, k);
      XorSwap(Commitment(h, w - {p} - {k}), RecordCommitment(h, w[k]), RecordCommitment(h, w[p]));
    }
  }

  /** The summaries after one record is added. */
  lemma {:induction false} SummariesInsert(h: Hashes, w: Writes, k: CommandIdentity, r: WriteRecord)
    requires k !in w
    ensures TotalBytes(w[k := r]) == TotalBytes(w) + RecordBytes(r)
    ensures Commitment(h, w[k := r]) == Xor(Commitment(h, w), RecordCommitment(h, r))
  {
    TotalBytesSplit(w[k := r], k);
    CommitmentSplit(h, w[k := r], k);
    assert w[k := r] - {k} == w;
  }

  /** The summaries after one record is removed. */
  lemma {:induction false} SummariesRemove(h: Hashes, w: Writes, k: CommandIdentity)
    requires k in w
    ensures TotalBytes(w - {k}) == TotalBytes(w) - RecordBytes(w[k])
    ensures Commitment(h, w - {k}) == Xor(Commitment(h, w), RecordCommitment(h, w[k]))
  {
    TotalBytesSplit(w, k);
    CommitmentSplit(h, w, k);
    XorUndo(Commitment(h, w - {k}), RecordCommitment(h, w[k]));
  }

  /** The summaries after one record is replaced. */
  lemma {:induction false} SummariesReplace(h: Hashes, w: Writes, k: CommandIdentity, r: WriteRecord)
    requires k in w
    ensures TotalBytes(w[k := r]) == TotalBytes(w) - RecordBytes(w[k]) + RecordBytes(r)
    ensures Commitment(h, w[k := r])
         == Xor(Xor(Commitment(h, w), RecordCommitment(h, w[k])), RecordCommitment(h, r))
  {
    SummariesRemove(h, w, k);
    SummariesInsert(h, w - {k}, k, r);
    assert (w - {k})[k := r] == w[k := r];
  }

  /** Folds the byte total over the records in some iteration order. */
  method SumCommandBytes(w: Writes) returns (total: nat)
    ensures total == TotalBytes(w)
  {
    total := 0;
    var rest := w;
    while rest != map[]
      invariant rest.Keys <= w.Keys && forall k :: k in rest ==> rest[k] == w[k]
      invariant total + TotalBytes(rest) == TotalBytes(w)
      decreases |rest|
    {
      assert rest.Keys != {};
      var k :| k in rest.Keys;
      TotalBytesSplit(rest, k);
      total := total + RecordBytes(rest[k]);
      assert |rest - {k}| < |rest|;
      rest := rest - {k};
    }
  }

  /** Folds the commitment over the records in some iteration order. */
  method FoldCommitment(h: Hashes, w: Writes) returns (commitment: Digest)
    ensures commitment == Commitment(h, w)
  {
    commitment := h.zero;
    var rest := w;
    XorZero(h.zero, Commitment(h, w));
    while rest != map[]
      invariant Xor(commitment, Commitment(h, rest)) == Commitment(h, w)
      decreases |rest|
    {
      assert rest.Keys != {};
      var k :| k in rest.Keys;
      CommitmentSplit(h, rest, k);
      XorMove(commitment, Commitment(h, rest - {k}), RecordCommitment(h, rest[k]));
      commitment := Xor(commitment, RecordCommitment(h, rest[k]));
      assert |rest - {k}| < |rest|;
      rest := rest - {k};
    }
    XorZero(h.zero, commitment);
  }}
