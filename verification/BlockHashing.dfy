/**
 Writing, measuring and hashing the canonical block body: the length is known in
 advance, and the streaming passes hash the very bytes the encoder writes.
 */
module BlockHashing {
  import opened LogTables
  import opened BigEndian
  import opened BlockBytes

  /** Length of one encounter record. */
  const ENCOUNTER_LEN: nat := 27 + 32 + 32 + 32 + 8 + 3 + 33 + 16 + 64

  function AdmissionLen(a: Admission): nat {
    25 + 32 + (4 + |a.node.protocol|) + (4 + |a.node.host|) + 2 + 1 + 1 + 32
    + (4 + |a.service.protocol|) + (4 + |a.service.host|) + 2 + 32 + 8 + 64
  }

  function Sum<T>(len: T -> nat, xs: seq<T>): nat {
    if xs == [] then 0 else Sum(len, xs[..|xs| - 1]) + len(xs[|xs| - 1])
  }

  function TransactionLen(t: Transaction): nat {
    32 + 8 + |t.payload|
  }

  function EncodedLen(b: Body): nat {
    32 + 32 + 8 + 16 + 16 + 32 + 8 + |b.state| + 8 + |b.encounters| * ENCOUNTER_LEN
    + 8 + Sum(AdmissionLen, b.admissions) + Sum(TransactionLen, b.txs)
  }

  lemma {:induction false} EntriesLen<T(!new)>(enc: T -> Bytes, len: T -> nat, xs: seq<T>)
    requires forall x :: x in xs ==> |enc(x)| == len(x)
    ensures |Entries(enc, xs)| == Sum(len, xs)
  {
    if xs != [] {
      EntriesLen(enc, len, xs[..|xs| - 1]);
    }
  }

  lemma {:induction false} EncounterLenExact(r: Encounter)
    requires ValidEncounter(r)
    ensures |EncounterBytes(r)| == ENCOUNTER_LEN
  {
    hide EncounterDomain, DefaultHash, EncodeLittle, Limit;
  }

  lemma {:induction false} UniformSum(rs: seq<Encounter>)
    requires forall r :: r in rs ==> ValidEncounter(r)
    ensures |Entries(EncounterBytes, rs)| == |rs| * ENCOUNTER_LEN
  {
    hide EncounterBytes, ValidEncounter;
    if rs != [] {
      UniformSum(rs[..|rs| - 1]);
      EncounterLenExact(rs[|rs| - 1]);
    }
  }

  lemma {:induction false} AdmissionLenExact(a: Admission)
    requires ValidAdmission(a)
    ensures |AdmissionBytes(a)| == AdmissionLen(a)
  {
    hide AdmissionDomain, EncodeLittle, Limit;
  }

  /** The precomputed length is the length of the bytes. */
  lemma {:induction false} EncodedLenExact(b: Body)
    requires ValidBody(b)
    ensures EncodedLen(b) == |BodyBytes(b)|
  {
    hide EncounterBytes, AdmissionBytes, ValidEncounter, ValidAdmission, AdmissionLen, EncodeLittle, Entries, Limit,
        Sum;
    UniformSum(b.encounters);
    forall a | a in b.admissions ensures |AdmissionBytes(a)| == AdmissionLen(a) {
      AdmissionLenExact(a);
    }
    EntriesLen(AdmissionBytes, AdmissionLen, b.admissions);
    EntriesLen(TransactionBytes, TransactionLen, b.txs);
  }

  /** A hasher that takes its input in pieces. */
  class Hasher {
    var absorbed: Bytes

    constructor ()
      ensures absorbed == []
    {
      absorbed := [];
    }

    method Update(bytes: Bytes)
      modifies this
      ensures absorbed == old(absorbed) + bytes
    {
      absorbed := absorbed + bytes;
    }

    method Finalize(digest: Bytes -> Bytes) returns (d: Bytes)
      ensures d == digest(absorbed)
    {
      return digest(absorbed);
    }

    /** Feeds one encounter record, field by field. */
    method UpdateEncounter(r: Encounter)
      modifies this
      ensures absorbed == old(absorbed) + EncounterBytes(r)
    {
      hide EncounterDomain, DefaultHash, EncodeLittle, PhaseByte, OutcomeByte;
      Update(EncounterDomain());
      Update(r.observer);
      Update(r.subject);
      Update(r.lastEpoch);
      Update(EncodeLittle(r.nonce, 8));
      Update([r.round]);
      Update([PhaseByte(r.phase)]);
      Update([OutcomeByte(r.outcome)]);
      match r.evidence {
        case Some(hash) =>
          Update([1]);
          Update(hash);
        case None =>
          Update([0]);
          Update(DefaultHash());
      }
      Update(EncodeLittle(r.observedAt, 16));
      Update(r.signature);
      FieldsOfEncounter(old(absorbed), r);
    }

    /** Feeds the part of a body before its transactions. */
    method UpdateHeader(b: Body)
      modifies this
      ensures absorbed == old(absorbed) + HeaderBytes(b)
    {
      hide EncodeLittle, EncounterBytes, AdmissionBytes;
      Update(b.validator);
      Update(b.lastEpoch);
      Update(EncodeLittle(b.nonce, 8));
      Update(EncodeLittle(b.created, 16));
      Update(EncodeLittle(b.dispatched, 16));
      Update(b.merkleRoot);
      Update(EncodeLittle(|b.state|, 8));
      Update(b.state);
      Update(EncodeLittle(|b.encounters|, 8));
      ghost var before := absorbed;
      for i := 0 to |b.encounters|
        invariant absorbed == before + Entries(EncounterBytes, b.encounters[..i])
      {
        OneMoreEntry(EncounterBytes, before, b.encounters, i);
        UpdateEncounter(b.encounters[i]);
      }
      assert b.encounters[..|b.encounters|] == b.encounters;
      Update(EncodeLittle(|b.admissions|, 8));
      ghost var listed := absorbed;
      for i := 0 to |b.admissions|
        invariant absorbed == listed + Entries(AdmissionBytes, b.admissions[..i])
      {
        OneMoreEntry(AdmissionBytes, listed, b.admissions, i);
        var a := b.admissions[i];
        var signed := SigningBytes(a);
        ghost var earlier := absorbed;
        Update(signed);
        Update(a.signature);
        Regroup(earlier, signed, a.signature);
      }
      assert b.admissions[..|b.admissions|] == b.admissions;
      FieldsOfHeader(old(absorbed), b);
    }
  }

  lemma {:induction false} OneMoreEntry<T>(enc: T -> Bytes, before: Bytes, xs: seq<T>, i: nat)
    requires i < |xs|
    ensures before + Entries(enc, xs[..i + 1]) == (before + Entries(enc, xs[..i])) + enc(xs[i])
  {
    assert xs[..i + 1][..i] == xs[..i];
  }

  lemma {:induction false} FieldsOfEncounter(start: Bytes, r: Encounter)
    ensures start + EncounterBytes(r)
         == start + EncounterDomain() + r.observer + r.subject + r.lastEpoch + EncodeLittle(r.nonce, 8) + [r.round]
            + [PhaseByte(r.phase)] + [OutcomeByte(r.outcome)]
            + (if r.evidence.Some? then [1] else [0]) + (if r.evidence.Some? then r.evidence.value else DefaultHash())
            + EncodeLittle(r.observedAt, 16) + r.signature
  {
    hide EncounterDomain, DefaultHash, EncodeLittle, PhaseByte, OutcomeByte;
  }

  lemma {:induction false} FieldsOfHeader(start: Bytes, b: Body)
    ensures start + HeaderBytes(b)
         == start + b.validator + b.lastEpoch + EncodeLittle(b.nonce, 8) + EncodeLittle(b.created, 16)
            + EncodeLittle(b.dispatched, 16) + b.merkleRoot + EncodeLittle(|b.state|, 8) + b.state
            + EncodeLittle(|b.encounters|, 8) + Entries(EncounterBytes, b.encounters)
            + EncodeLittle(|b.admissions|, 8) + Entries(AdmissionBytes, b.admissions)
  {
    hide EncodeLittle, Entries;
  }

  /** The signed part of an admission, as one byte string. */
  method SigningBytes(a: Admission) returns (bytes: Bytes)
    ensures bytes + a.signature == AdmissionBytes(a)
  {
    hide AdmissionDomain, EncodeLittle, FlagByte, KindByte;
    bytes := AdmissionDomain();
    bytes := bytes + a.node.key;
    bytes := bytes + TextBytes(a.node.protocol);
    bytes := bytes + TextBytes(a.node.host);
    bytes := bytes + EncodeLittle(a.node.port, 2);
    bytes := bytes + [FlagByte(a.shuffle)];
    bytes := bytes + [KindByte(a.kind)];
    bytes := bytes + a.service.key;
    bytes := bytes + TextBytes(a.service.protocol);
    bytes := bytes + TextBytes(a.service.host);
    bytes := bytes + EncodeLittle(a.service.port, 2);
    bytes := bytes + a.lastEpoch;
    bytes := bytes + EncodeLittle(a.nonce, 8);
  }

  /** Appends one encounter record to a buffer. */
  method AppendEncounter(r: Encounter, buffer: Bytes) returns (bytes: Bytes)
    ensures bytes == buffer + EncounterBytes(r)
  {
    hide EncounterDomain, DefaultHash, EncodeLittle, PhaseByte, OutcomeByte;
    bytes := buffer + EncounterDomain();
    bytes := bytes + r.observer;
    bytes := bytes + r.subject;
    bytes := bytes + r.lastEpoch;
    bytes := bytes + EncodeLittle(r.nonce, 8);
    bytes := bytes + [r.round];
    bytes := bytes + [PhaseByte(r.phase)];
    bytes := bytes + [OutcomeByte(r.outcome)];
    match r.evidence {
      case Some(hash) =>
        bytes := bytes + [1];
        bytes := bytes + hash;
      case None =>
        bytes := bytes + [0];
        bytes := bytes + DefaultHash();
    }
    bytes := bytes + EncodeLittle(r.observedAt, 16);
    bytes := bytes + r.signature;
    FieldsOfEncounter(buffer, r);
  }

  /** Appends the body to a buffer. */
  method AppendBody(b: Body, buffer: Bytes) returns (bytes: Bytes)
    ensures bytes == buffer + BodyBytes(b)
  {
    hide EncodeLittle, EncounterBytes, AdmissionBytes;
    bytes := buffer + b.validator;
    bytes := bytes + b.lastEpoch;
    bytes := bytes + EncodeLittle(b.nonce, 8);
    bytes := bytes + EncodeLittle(b.created, 16);
    bytes := bytes + EncodeLittle(b.dispatched, 16);
    bytes := bytes + b.merkleRoot;
    bytes := bytes + EncodeLittle(|b.state|, 8);
    bytes := bytes + b.state;
    bytes := bytes + EncodeLittle(|b.encounters|, 8);
    ghost var before := bytes;
    for i := 0 to |b.encounters|
      invariant bytes == before + Entries(EncounterBytes, b.encounters[..i])
    {
      OneMoreEntry(EncounterBytes, before, b.encounters, i);
      bytes := AppendEncounter(b.encounters[i], bytes);
    }
    assert b.encounters[..|b.encounters|] == b.encounters;
    bytes := bytes + EncodeLittle(|b.admissions|, 8);
    ghost var listed := bytes;
    for i := 0 to |b.admissions|
      invariant bytes == listed + Entries(AdmissionBytes, b.admissions[..i])
    {
      OneMoreEntry(AdmissionBytes, listed, b.admissions, i);
      var signed := SigningBytes(b.admissions[i]);
      Regroup(bytes, signed, b.admissions[i].signature);
      bytes := bytes + signed;
      bytes := bytes + b.admissions[i].signature;
    }
    assert b.admissions[..|b.admissions|] == b.admissions;
    FieldsOfHeader(buffer, b);
    bytes := AppendTransactions(b.txs, bytes);
    Regroup(buffer, HeaderBytes(b), Entries(TransactionBytes, b.txs));
  }

  method AppendTransactions(txs: seq<Transaction>, buffer: Bytes) returns (bytes: Bytes)
    ensures bytes == buffer + Entries(TransactionBytes, txs)
  {
    hide EncodeLittle;
    bytes := buffer;
    for i := 0 to |txs|
      invariant bytes == buffer + Entries(TransactionBytes, txs[..i])
    {
      OneMoreEntry(TransactionBytes, buffer, txs, i);
      TransactionFields(bytes, txs[i]);
      bytes := bytes + txs[i].hash;
      bytes := bytes + EncodeLittle(|txs[i].payload|, 8);
      bytes := bytes + txs[i].payload;
    }
    assert txs[..|txs|] == txs;
  }

  lemma {:induction false} TransactionFields(start: Bytes, t: Transaction)
    ensures start + TransactionBytes(t) == start + t.hash + EncodeLittle(|t.payload|, 8) + t.payload
  {
    hide EncodeLittle;
  }

  function TxHash(t: Transaction): Bytes {
    t.hash
  }

  /** The Merkle commitment hashes the transaction hashes in order. */
  function MerkleRoot(b: Body, digest: Bytes -> Bytes): Bytes {
    digest(Entries(TxHash, b.txs))
  }

  /** The fused pass: the body hash and the Merkle root together. */
  method HashAndMerkleRoot(b: Body, digest: Bytes -> Bytes) returns (hash: Bytes, merkle: Bytes)
    ensures hash == digest(BodyBytes(b)) && merkle == MerkleRoot(b, digest)
  {
    hide EncodeLittle, HeaderBytes;
    var bodyHasher := new Hasher();
    var merkleHasher := new Hasher();
    bodyHasher.UpdateHeader(b);
    ghost var header := bodyHasher.absorbed;
    for i := 0 to |b.txs|
      invariant fresh(bodyHasher) && fresh(merkleHasher) && bodyHasher != merkleHasher
      invariant bodyHasher.absorbed == header + Entries(TransactionBytes, b.txs[..i])
      invariant merkleHasher.absorbed == Entries(TxHash, b.txs[..i])
    {
      OneMoreEntry(TransactionBytes, header, b.txs, i);
      assert b.txs[..i + 1][..i] == b.txs[..i];
      TransactionFields(bodyHasher.absorbed, b.txs[i]);
      bodyHasher.Update(b.txs[i].hash);
      bodyHasher.Update(EncodeLittle(|b.txs[i].payload|, 8));
      bodyHasher.Update(b.txs[i].payload);
      merkleHasher.Update(b.txs[i].hash);
    }
    assert b.txs[..|b.txs|] == b.txs;
    assert [] + HeaderBytes(b) == HeaderBytes(b);
    hash := bodyHasher.Finalize(digest);
    merkle := merkleHasher.Finalize(digest);
  }

  /** The streaming body hash. */
  method HashBody(b: Body, digest: Bytes -> Bytes) returns (hash: Bytes)
    ensures hash == digest(BodyBytes(b))
  {
    hide EncodeLittle, HeaderBytes;
    var hasher := new Hasher();
    hasher.UpdateHeader(b);
    ghost var header := hasher.absorbed;
    for i := 0 to |b.txs|
      invariant fresh(hasher)
      invariant hasher.absorbed == header + Entries(TransactionBytes, b.txs[..i])
    {
      OneMoreEntry(TransactionBytes, header, b.txs, i);
      TransactionFields(hasher.absorbed, b.txs[i]);
      hasher.Update(b.txs[i].hash);
      hasher.Update(EncodeLittle(|b.txs[i].payload|, 8));
      hasher.Update(b.txs[i].payload);
    }
    assert b.txs[..|b.txs|] == b.txs;
    assert [] + HeaderBytes(b) == HeaderBytes(b);
    hash := hasher.Finalize(digest);
  }
}
