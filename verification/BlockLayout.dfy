/**
 Where every field of a block body stands in its canonical bytes, and with which
 value: the layout another implementation has to agree on.
 */
module BlockLayout {
  import opened LogTables
  import opened BigEndian
  import opened BlockBytes
  import opened BlockHashing

  /** `part` stands at this offset. */
  ghost predicate At(bytes: Bytes, offset: nat, part: Bytes) {
    offset + |part| <= |bytes| && bytes[offset..offset + |part|] == part
  }

  /** The number stands at this offset, least significant byte first. */
  ghost predicate NumberAt(bytes: Bytes, offset: nat, n: nat, width: nat) {
    offset + width <= |bytes| && DecodeLittle(bytes[offset..offset + width]) == n
  }

  lemma {:induction false} Front(x: Bytes, rest: Bytes)
    ensures At(x + rest, 0, x)
  {
  }

  lemma {:induction false} FrontNumber(n: nat, width: nat, rest: Bytes)
    requires n < Limit(width)
    ensures NumberAt(EncodeLittle(n, width) + rest, 0, n, width)
  {
    LittleRoundTrip(n, width);
    assert (EncodeLittle(n, width) + rest)[0..width] == EncodeLittle(n, width);
  }

  lemma {:induction false} Behind(x: Bytes, rest: Bytes, offset: nat, part: Bytes)
    requires At(rest, offset, part)
    ensures At(x + rest, |x| + offset, part)
  {
    assert (x + rest)[|x| + offset..|x| + offset + |part|] == rest[offset..offset + |part|];
  }

  lemma {:induction false} BehindNumber(x: Bytes, rest: Bytes, offset: nat, n: nat, width: nat)
    requires NumberAt(rest, offset, n, width)
    ensures NumberAt(x + rest, |x| + offset, n, width)
  {
    assert (x + rest)[|x| + offset..|x| + offset + width] == rest[offset..offset + width];
  }

  /** Whatever stands at an offset stands there in a longer string too. */
  lemma {:induction false} Longer(x: Bytes, rest: Bytes, offset: nat, part: Bytes)
    requires At(x, offset, part)
    ensures At(x + rest, offset, part)
  {
    assert (x + rest)[offset..offset + |part|] == x[offset..offset + |part|];
  }

  /** The fields of an encounter record from its nonce on. */
  lemma {:induction false} EncounterEndLayout(r: Encounter)
    requires ValidEncounter(r)
    ensures var bytes := EncounterEnd(r, []);
            && |bytes| == 124 && NumberAt(bytes, 0, r.nonce, 8) && bytes[8] == r.round
            && bytes[9] == PhaseByte(r.phase) && bytes[10] == OutcomeByte(r.outcome)
            && bytes[11] == (if r.evidence.Some? then 1 else 0)
            && At(bytes, 12, if r.evidence.Some? then r.evidence.value else DefaultHash())
            && NumberAt(bytes, 44, r.observedAt, 16) && At(bytes, 60, r.signature)
  {
    hide EncodeLittle, Limit, PhaseByte, OutcomeByte, DefaultHash, At, NumberAt;
    assert |EncodeLittle(r.nonce, 8)| == 8 && |EncodeLittle(r.observedAt, 16)| == 16 && |DefaultHash()| == 32;
    var tags := [r.round, PhaseByte(r.phase), OutcomeByte(r.outcome)];
    var hash := if r.evidence.Some? then r.evidence.value else DefaultHash();
    var flag: Bytes := if r.evidence.Some? then [1] else [0];
    var signed := r.signature + [];
    var timed := EncodeLittle(r.observedAt, 16) + signed;
    var proved := EvidenceBytes(r.evidence) + timed;
    assert proved == flag + (hash + timed) && |flag| == 1 && |hash| == 32;
    Front(r.signature, []);
    FrontNumber(r.observedAt, 16, signed);
    Behind(EncodeLittle(r.observedAt, 16), signed, 0, r.signature);
    Front(hash, timed);
    BehindNumber(hash, timed, 0, r.observedAt, 16);
    Behind(hash, timed, 16, r.signature);
    Behind(flag, hash + timed, 0, hash);
    BehindNumber(flag, hash + timed, 32, r.observedAt, 16);
    Behind(flag, hash + timed, 48, r.signature);
    Behind(tags, proved, 1, hash);
    BehindNumber(tags, proved, 33, r.observedAt, 16);
    Behind(tags, proved, 49, r.signature);
    FrontNumber(r.nonce, 8, tags + proved);
    Behind(EncodeLittle(r.nonce, 8), tags + proved, 4, hash);
    BehindNumber(EncodeLittle(r.nonce, 8), tags + proved, 36, r.observedAt, 16);
    Behind(EncodeLittle(r.nonce, 8), tags + proved, 52, r.signature);
  }

  lemma {:induction false} TagNumbers(p: Phase, o: Outcome)
    ensures PhaseByte(p) == if p.Dispatch? then 1 else if p.Verification? then 2 else if p.Proposal? then 3
                            else if p.Commit? then 4 else if p.EpochStarted? then 5 else 6
    ensures OutcomeByte(o) == if o.MissingSignature? then 1 else 2
  {
  }

  /** Every field of an encounter record, at its offset. */
  lemma {:induction false} EncounterLayout(r: Encounter)
    requires ValidEncounter(r)
    ensures var bytes := EncounterBytes(r);
            && |bytes| == 247 && At(bytes, 0, EncounterDomain())
            && At(bytes, 27, r.observer) && At(bytes, 59, r.subject) && At(bytes, 91, r.lastEpoch)
            && NumberAt(bytes, 123, r.nonce, 8) && bytes[131] == r.round
            && bytes[132] == (if r.phase.Dispatch? then 1 else if r.phase.Verification? then 2
                              else if r.phase.Proposal? then 3 else if r.phase.Commit? then 4
                              else if r.phase.EpochStarted? then 5 else 6)
            && bytes[133] == (if r.outcome.MissingSignature? then 1 else 2)
            && bytes[134] == (if r.evidence.Some? then 1 else 0)
            && At(bytes, 135, if r.evidence.Some? then r.evidence.value else DefaultHash())
            && NumberAt(bytes, 167, r.observedAt, 16) && At(bytes, 183, r.signature)
  {
    hide EncodeLittle, Limit, PhaseByte, OutcomeByte, DefaultHash, EncounterDomain, EncounterEnd, EncounterBytes,
         At, NumberAt;
    EncounterEndLayout(r);
    EncounterTail(r, []);
    TagNumbers(r.phase, r.outcome);
    var end := EncounterEnd(r, []);
    var hash := if r.evidence.Some? then r.evidence.value else DefaultHash();
    var x := EncounterDomain() + r.observer + r.subject + r.lastEpoch;
    assert |x| == 123;
    assert EncounterBytes(r) + [] == EncounterBytes(r);
    assert EncounterBytes(r) == x + end;
    Heads(EncounterDomain(), r.observer, r.subject, r.lastEpoch, end);
    BehindNumber(x, end, 0, r.nonce, 8);
    Behind(x, end, 12, hash);
    BehindNumber(x, end, 44, r.observedAt, 16);
    Behind(x, end, 60, r.signature);
  }

  /** Four parts in a row, each after the ones before. */
  lemma {:induction false} Heads(a: Bytes, b: Bytes, c: Bytes, d: Bytes, rest: Bytes)
    ensures var bytes := a + b + c + d + rest;
            && At(bytes, 0, a) && At(bytes, |a|, b) && At(bytes, |a| + |b|, c) && At(bytes, |a| + |b| + |c|, d)
  {
    hide At;
    Regroup(a + b + c, d, rest);
    Regroup(a + b, c, d + rest);
    Regroup(a, b, c + (d + rest));
    Front(a, b + (c + (d + rest)));
    Front(b, c + (d + rest));
    Front(c, d + rest);
    Front(d, rest);
    Behind(a, b + (c + (d + rest)), 0, b);
    Behind(b, c + (d + rest), 0, c);
    Behind(a, b + (c + (d + rest)), |b|, c);
    Behind(c, d + rest, 0, d);
    Behind(b, c + (d + rest), |c|, d);
    Behind(a, b + (c + (d + rest)), |b| + |c|, d);
  }

  /** The `i`-th entry of a list stands after the entries before it. */
  lemma {:induction false} EntryAt<T(!new)>(enc: T -> Bytes, len: T -> nat, xs: seq<T>, i: nat)
    requires i < |xs| && forall x :: x in xs ==> |enc(x)| == len(x)
    ensures At(Entries(enc, xs), Sum(len, xs[..i]), enc(xs[i]))
  {
    hide At;
    var n := |xs| - 1;
    if i < n {
      assert xs[..n][..i] == xs[..i];
      EntryAt(enc, len, xs[..n], i);
      Longer(Entries(enc, xs[..n]), enc(xs[n]), Sum(len, xs[..i]), enc(xs[i]));
    } else {
      EntriesLen(enc, len, xs[..n]);
      assert enc(xs[n]) + [] == enc(xs[n]);
      Front(enc(xs[n]), []);
      Behind(Entries(enc, xs[..n]), enc(xs[n]), 0, enc(xs[n]));
    }
  }

  /** The Merkle root digests the transaction hashes, 32 bytes each, in order. */
  lemma {:induction false} MerkleInput(b: Body, digest: Bytes -> Bytes, input: Bytes)
    requires ValidBody(b) && |input| == 32 * |b.txs|
    requires forall i :: 0 <= i < |b.txs| ==> input[32 * i..32 * (i + 1)] == b.txs[i].hash
    ensures MerkleRoot(b, digest) == digest(input)
  {
    forall t | t in b.txs ensures |TxHash(t)| == 32 {
      assert ValidTransaction(t);
    }
    HashesInOrder(b.txs, input);
  }

  lemma {:induction false} HashesInOrder(txs: seq<Transaction>, input: Bytes)
    requires (forall t :: t in txs ==> |t.hash| == 32) && |input| == 32 * |txs|
    requires forall i :: 0 <= i < |txs| ==> input[32 * i..32 * (i + 1)] == txs[i].hash
    ensures Entries(TxHash, txs) == input
  {
    if txs != [] {
      var n := |txs| - 1;
      var init := input[..32 * n];
      forall i | 0 <= i < n ensures init[32 * i..32 * (i + 1)] == txs[..n][i].hash {
        assert init[32 * i..32 * (i + 1)] == input[32 * i..32 * (i + 1)];
      }
      HashesInOrder(txs[..n], init);
      assert input == init + input[32 * n..32 * (n + 1)];
    }
  }

  /** A transaction is its hash, the length of its payload and the payload. */
  lemma {:induction false} TransactionLayout(t: Transaction)
    requires ValidTransaction(t)
    ensures var bytes := TransactionBytes(t);
            && |bytes| == 40 + |t.payload| && At(bytes, 0, t.hash)
            && NumberAt(bytes, 32, |t.payload|, 8) && At(bytes, 40, t.payload)
  {
    hide EncodeLittle, Limit, At, NumberAt;
    var sized := EncodeLittle(|t.payload|, 8) + t.payload;
    assert t.payload + [] == t.payload && |EncodeLittle(|t.payload|, 8)| == 8;
    Front(t.payload, []);
    FrontNumber(|t.payload|, 8, t.payload);
    Behind(EncodeLittle(|t.payload|, 8), t.payload, 0, t.payload);
    Front(t.hash, sized);
    BehindNumber(t.hash, sized, 0, |t.payload|, 8);
    Behind(t.hash, sized, 8, t.payload);
  }

  /** The fixed part of a body: identities, counters and commitments. */
  lemma {:induction false} HeadLayout(b: Body, rest: Bytes)
    requires ValidBody(b)
    ensures var bytes := HeadBytes(b, b.merkleRoot + rest);
            && At(bytes, 0, b.validator) && At(bytes, 32, b.lastEpoch) && NumberAt(bytes, 64, b.nonce, 8)
            && NumberAt(bytes, 72, b.created, 16) && NumberAt(bytes, 88, b.dispatched, 16)
            && At(bytes, 104, b.merkleRoot) && |bytes| == 136 + |rest| && bytes[136..] == rest
  {
    hide EncodeLittle, Limit, At, NumberAt, ValidEncounter, ValidAdmission, ValidTransaction;
    var n, c, d := EncodeLittle(b.nonce, 8), EncodeLittle(b.created, 16), EncodeLittle(b.dispatched, 16);
    assert |n| == 8 && |c| == 16 && |d| == 16;
    var x, numbers := b.validator + b.lastEpoch, n + (c + (d + (b.merkleRoot + rest)));
    CountersLayout(b, rest);
    HeadFront(b.validator, b.lastEpoch, numbers);
    BehindNumber(x, numbers, 0, b.nonce, 8);
    BehindNumber(x, numbers, 8, b.created, 16);
    BehindNumber(x, numbers, 24, b.dispatched, 16);
    Behind(x, numbers, 40, b.merkleRoot);
    Regroup(b.validator, b.lastEpoch, numbers);
    assert HeadBytes(b, b.merkleRoot + rest) == x + numbers;
    Ends(x, numbers, 72, rest);
  }

  lemma {:induction false} Ends(x: Bytes, y: Bytes, k: nat, rest: Bytes)
    requires k <= |y| && y[k..] == rest
    ensures |x + y| == |x| + k + |rest| && (x + y)[|x| + k..] == rest
  {
  }

  lemma {:induction false} CountersLayout(b: Body, rest: Bytes)
    requires ValidBody(b)
    ensures var bytes := EncodeLittle(b.nonce, 8) + (EncodeLittle(b.created, 16)
                         + (EncodeLittle(b.dispatched, 16) + (b.merkleRoot + rest)));
            && NumberAt(bytes, 0, b.nonce, 8) && NumberAt(bytes, 8, b.created, 16)
            && NumberAt(bytes, 24, b.dispatched, 16) && At(bytes, 40, b.merkleRoot)
            && |bytes| == 72 + |rest| && bytes[72..] == rest
  {
    hide EncodeLittle, Limit, At, NumberAt, ValidEncounter, ValidAdmission, ValidTransaction;
    var n, c, d := EncodeLittle(b.nonce, 8), EncodeLittle(b.created, 16), EncodeLittle(b.dispatched, 16);
    assert |n| == 8 && |c| == 16 && |d| == 16;
    var r := b.merkleRoot + rest;
    Front(b.merkleRoot, rest);
    FrontNumber(b.dispatched, 16, r);
    Behind(d, r, 0, b.merkleRoot);
    Ends(d, r, 32, rest);
    FrontNumber(b.created, 16, d + r);
    BehindNumber(c, d + r, 0, b.dispatched, 16);
    Behind(c, d + r, 16, b.merkleRoot);
    Ends(c, d + r, 48, rest);
    FrontNumber(b.nonce, 8, c + (d + r));
    BehindNumber(n, c + (d + r), 0, b.created, 16);
    BehindNumber(n, c + (d + r), 16, b.dispatched, 16);
    Behind(n, c + (d + r), 32, b.merkleRoot);
    Ends(n, c + (d + r), 64, rest);
  }

  lemma {:induction false} HeadFront(a: Bytes, b: Bytes, rest: Bytes)
    ensures At(a + (b + rest), 0, a) && At(a + (b + rest), |a|, b)
  {
    hide At;
    Front(a, b + rest);
    Front(b, rest);
    Behind(a, b + rest, 0, b);
  }

  /** The variable part: the state with its length, the encounter records with
      their count, the admissions with theirs, and the transactions to the end. */
  lemma {:induction false} ListsLayout(b: Body)
    requires ValidBody(b)
    ensures var txs := Entries(TransactionBytes, b.txs);
            var bytes := EncodeLittle(|b.state|, 8) + (b.state + ListsAndEnd(b, txs));
            var s := 8 + |b.state|;
            var a := s + 8 + 247 * |b.encounters|;
            var t := a + 8 + |Entries(AdmissionBytes, b.admissions)|;
            && NumberAt(bytes, 0, |b.state|, 8) && At(bytes, 8, b.state)
            && NumberAt(bytes, s, |b.encounters|, 8) && At(bytes, s + 8, Entries(EncounterBytes, b.encounters))
            && NumberAt(bytes, a, |b.admissions|, 8) && At(bytes, a + 8, Entries(AdmissionBytes, b.admissions))
            && At(bytes, t, txs) && |bytes| == t + |txs|
  {
    hide EncodeLittle, Limit, At, NumberAt, ValidEncounter, ValidAdmission, ValidTransaction, Entries;
    var txs, es, listed := Entries(TransactionBytes, b.txs), Entries(EncounterBytes, b.encounters),
                           Entries(AdmissionBytes, b.admissions);
    UniformSum(b.encounters);
    var en, an, sn := EncodeLittle(|b.encounters|, 8), EncodeLittle(|b.admissions|, 8), EncodeLittle(|b.state|, 8);
    assert |en| == 8 && |an| == 8 && |sn| == 8 && |es| == 247 * |b.encounters|;
    assert txs + [] == txs;
    Counted(|b.admissions|, listed, txs);
    Front(txs, []);
    Behind(listed, txs, 0, txs);
    Behind(an, listed + txs, |listed|, txs);
    var u := an + (listed + txs);
    Counted(|b.encounters|, es, u);
    Through(en, es, u, |b.admissions|, listed, 8 + |listed|, txs);
    var w := en + (es + u);
    Counted(|b.state|, b.state, w);
    Through(sn, b.state, w, |b.encounters|, es, 16 + |es| + |listed|, txs);
    Behind(es, u, 8, listed);
    Behind(en, es + u, |es| + 8, listed);
    BehindNumber(es, u, 0, |b.admissions|, 8);
    BehindNumber(en, es + u, |es|, |b.admissions|, 8);
    Through(sn, b.state, w, |b.encounters|, es, 16 + |es|, listed);
    BehindNumber(b.state, w, 8 + |es|, |b.admissions|, 8);
    BehindNumber(sn, b.state + w, |b.state| + 8 + |es|, |b.admissions|, 8);
  }

  /** A counted part: its number, then its bytes. */
  lemma {:induction false} Counted(n: nat, part: Bytes, rest: Bytes)
    requires n < Limit(8)
    ensures NumberAt(EncodeLittle(n, 8) + (part + rest), 0, n, 8) && At(EncodeLittle(n, 8) + (part + rest), 8, part)
  {
    hide EncodeLittle, Limit, At, NumberAt;
    FrontNumber(n, 8, part + rest);
    Front(part, rest);
    Behind(EncodeLittle(n, 8), part + rest, 0, part);
  }

  /** What stands in the rest stands behind a counted part. */
  lemma {:induction false} Through(number: Bytes, part: Bytes, rest: Bytes, n: nat, first: Bytes, offset: nat,
                                   last: Bytes)
    requires NumberAt(rest, 0, n, 8) && At(rest, 8, first) && At(rest, offset, last)
    ensures var bytes := number + (part + rest);
            var k := |number| + |part|;
            NumberAt(bytes, k, n, 8) && At(bytes, k + 8, first) && At(bytes, k + offset, last)
  {
    hide Limit, At, NumberAt;
    Regroup(number, part, rest);
    assert |number + part| == |number| + |part|;
    BehindNumber(number + part, rest, 0, n, 8);
    Behind(number + part, rest, 8, first);
    Behind(number + part, rest, offset, last);
  }

  lemma {:induction false} Nested(bytes: Bytes, offset: nat, x: Bytes, inner: nat, part: Bytes)
    requires At(bytes, offset, x) && At(x, inner, part)
    ensures At(bytes, offset + inner, part)
  {
    var here := offset + inner;
    forall i | 0 <= i < |part| ensures bytes[here..here + |part|][i] == part[i] {
      assert bytes[offset..offset + |x|][inner + i] == x[inner..inner + |part|][i];
    }
  }

  function EncounterLen(r: Encounter): nat {
    247
  }

  lemma {:induction false} UniformStart(rs: seq<Encounter>, i: nat)
    requires i <= |rs|
    ensures Sum(EncounterLen, rs[..i]) == 247 * i
  {
    if i > 0 {
      UniformStart(rs, i - 1);
      assert rs[..i][..i - 1] == rs[..i - 1];
    }
  }

  /** Each entry of a list, wherever the list stands. */
  lemma {:induction false} EntriesWithin<T(!new)>(enc: T -> Bytes, len: T -> nat, xs: seq<T>, bytes: Bytes, offset: nat)
    requires At(bytes, offset, Entries(enc, xs)) && forall x :: x in xs ==> |enc(x)| == len(x)
    ensures forall i :: 0 <= i < |xs| ==> At(bytes, offset + Sum(len, xs[..i]), enc(xs[i]))
  {
    hide At;
    forall i | 0 <= i < |xs| ensures At(bytes, offset + Sum(len, xs[..i]), enc(xs[i])) {
      EntryAt(enc, len, xs, i);
      Nested(bytes, offset, Entries(enc, xs), Sum(len, xs[..i]), enc(xs[i]));
    }
  }

  /** Everything a body holds, at its offset: the fixed fields, the state, and each
      encounter record, admission and transaction in order. */
  lemma {:induction false} BodyLayout(b: Body)
    requires ValidBody(b)
    ensures var bytes := BodyBytes(b);
            var s := 144 + |b.state|;
            var a := s + 8 + 247 * |b.encounters|;
            var t := a + 8 + Sum(AdmissionLen, b.admissions);
            && At(bytes, 0, b.validator) && At(bytes, 32, b.lastEpoch) && NumberAt(bytes, 64, b.nonce, 8)
            && NumberAt(bytes, 72, b.created, 16) && NumberAt(bytes, 88, b.dispatched, 16)
            && At(bytes, 104, b.merkleRoot) && NumberAt(bytes, 136, |b.state|, 8) && At(bytes, 144, b.state)
            && NumberAt(bytes, s, |b.encounters|, 8) && NumberAt(bytes, a, |b.admissions|, 8)
            && (forall i :: 0 <= i < |b.encounters| ==> At(bytes, s + 8 + 247 * i, EncounterBytes(b.encounters[i])))
            && (forall i :: 0 <= i < |b.admissions| ==>
                  At(bytes, a + 8 + Sum(AdmissionLen, b.admissions[..i]), AdmissionBytes(b.admissions[i])))
            && (forall i :: 0 <= i < |b.txs| ==>
                  At(bytes, t + Sum(TransactionLen, b.txs[..i]), TransactionBytes(b.txs[i])))
            && |bytes| == t + Sum(TransactionLen, b.txs)
  {
    hide EncodeLittle, Limit, At, NumberAt, ValidEncounter, ValidAdmission, ValidTransaction, Entries, EncounterBytes,
         AdmissionBytes, TransactionBytes, HeadBytes, BodyBytes, AdmissionLen, TransactionLen, ListsAndEnd, ValidBody,
         Sum;
    PartsLayout(b);
    var s := 144 + |b.state|;
    var a := s + 8 + 247 * |b.encounters|;
    ListEntries(b, BodyBytes(b), s + 8, a + 8, a + 8 + |Entries(AdmissionBytes, b.admissions)|);
  }

  /** The parts of a body, the three lists as wholes. */
  lemma {:induction false} PartsLayout(b: Body)
    requires ValidBody(b)
    ensures var bytes := BodyBytes(b);
            var s := 144 + |b.state|;
            var a := s + 8 + 247 * |b.encounters|;
            var t := a + 8 + |Entries(AdmissionBytes, b.admissions)|;
            && At(bytes, 0, b.validator) && At(bytes, 32, b.lastEpoch) && NumberAt(bytes, 64, b.nonce, 8)
            && NumberAt(bytes, 72, b.created, 16) && NumberAt(bytes, 88, b.dispatched, 16)
            && At(bytes, 104, b.merkleRoot) && NumberAt(bytes, 136, |b.state|, 8) && At(bytes, 144, b.state)
            && NumberAt(bytes, s, |b.encounters|, 8) && At(bytes, s + 8, Entries(EncounterBytes, b.encounters))
            && NumberAt(bytes, a, |b.admissions|, 8) && At(bytes, a + 8, Entries(AdmissionBytes, b.admissions))
            && At(bytes, t, Entries(TransactionBytes, b.txs)) && |bytes| == t + |Entries(TransactionBytes, b.txs)|
  {
    hide EncodeLittle, Limit, At, NumberAt, Entries, EncounterBytes, AdmissionBytes, TransactionBytes, HeadBytes,
         BodyBytes, ListsAndEnd, ValidBody;
    var txs := Entries(TransactionBytes, b.txs);
    var rest := EncodeLittle(|b.state|, 8) + (b.state + ListsAndEnd(b, txs));
    BodyTail(b);
    HeadLayout(b, rest);
    ListsLayout(b);
    var bytes, s := BodyBytes(b), 8 + |b.state|;
    var x := bytes[..136];
    assert bytes == x + rest && |x| == 136;
    BehindNumber(x, rest, 0, |b.state|, 8);
    Behind(x, rest, 8, b.state);
    BehindNumber(x, rest, s, |b.encounters|, 8);
    Behind(x, rest, s + 8, Entries(EncounterBytes, b.encounters));
    var a := s + 8 + 247 * |b.encounters|;
    BehindNumber(x, rest, a, |b.admissions|, 8);
    Behind(x, rest, a + 8, Entries(AdmissionBytes, b.admissions));
    Behind(x, rest, a + 8 + |Entries(AdmissionBytes, b.admissions)|, txs);
  }

  lemma {:induction false} ListEntries(b: Body, bytes: Bytes, s: nat, a: nat, t: nat)
    requires ValidBody(b) && At(bytes, s, Entries(EncounterBytes, b.encounters))
    requires At(bytes, a, Entries(AdmissionBytes, b.admissions)) && At(bytes, t, Entries(TransactionBytes, b.txs))
    ensures forall i :: 0 <= i < |b.encounters| ==> At(bytes, s + 247 * i, EncounterBytes(b.encounters[i]))
    ensures forall i :: 0 <= i < |b.admissions| ==>
              At(bytes, a + Sum(AdmissionLen, b.admissions[..i]), AdmissionBytes(b.admissions[i]))
    ensures forall i :: 0 <= i < |b.txs| ==>
              At(bytes, t + Sum(TransactionLen, b.txs[..i]), TransactionBytes(b.txs[i]))
    ensures |Entries(AdmissionBytes, b.admissions)| == Sum(AdmissionLen, b.admissions)
    ensures |Entries(TransactionBytes, b.txs)| == Sum(TransactionLen, b.txs)
  {
    hide At, Entries, EncounterBytes, AdmissionBytes, TransactionBytes, AdmissionLen, TransactionLen, Limit,
         ValidEncounter, ValidAdmission, ValidTransaction, Sum;
    forall r | r in b.encounters ensures |EncounterBytes(r)| == EncounterLen(r) {
      EncounterLenExact(r);
    }
    forall x | x in b.admissions ensures |AdmissionBytes(x)| == AdmissionLen(x) {
      AdmissionLenExact(x);
    }
    forall x | x in b.txs ensures |TransactionBytes(x)| == TransactionLen(x) {
      TransactionSize(x);
    }
    EntriesWithin(EncounterBytes, EncounterLen, b.encounters, bytes, s);
    EntriesWithin(AdmissionBytes, AdmissionLen, b.admissions, bytes, a);
    EntriesWithin(TransactionBytes, TransactionLen, b.txs, bytes, t);
    EntriesLen(AdmissionBytes, AdmissionLen, b.admissions);
    EntriesLen(TransactionBytes, TransactionLen, b.txs);
    forall i | 0 <= i < |b.encounters| ensures At(bytes, s + 247 * i, EncounterBytes(b.encounters[i])) {
      UniformStart(b.encounters, i);
    }
  }

  lemma {:induction false} TransactionSize(t: Transaction)
    requires ValidTransaction(t)
    ensures |TransactionBytes(t)| == TransactionLen(t)
  {
    hide EncodeLittle, Limit;
  }

  /** The fields of an endpoint: its key, its texts with their lengths, its port. */
  ghost predicate EndpointAt(bytes: Bytes, k: nat, n: Endpoint) {
    var p, h := |n.protocol|, |n.host|;
    && At(bytes, k, n.key)
    && NumberAt(bytes, k + 32, p, 4) && At(bytes, k + 36, n.protocol)
    && NumberAt(bytes, k + 36 + p, h, 4) && At(bytes, k + 40 + p, n.host)
    && NumberAt(bytes, k + 40 + p + h, n.port, 2)
  }

  function EndpointSize(n: Endpoint): nat {
    42 + |n.protocol| + |n.host|
  }

  lemma {:induction false} EndpointBehind(x: Bytes, rest: Bytes, k: nat, n: Endpoint)
    requires EndpointAt(rest, k, n)
    ensures EndpointAt(x + rest, |x| + k, n)
  {
    hide At, NumberAt;
    var p, h := |n.protocol|, |n.host|;
    Behind(x, rest, k, n.key);
    BehindNumber(x, rest, k + 32, p, 4);
    Behind(x, rest, k + 36, n.protocol);
    BehindNumber(x, rest, k + 36 + p, h, 4);
    Behind(x, rest, k + 40 + p, n.host);
    BehindNumber(x, rest, k + 40 + p + h, n.port, 2);
  }

  lemma {:induction false} TextLayout(text: Bytes, rest: Bytes)
    requires |text| < Limit(4)
    ensures var bytes := TextBytes(text) + rest;
            && NumberAt(bytes, 0, |text|, 4) && At(bytes, 4, text)
            && |bytes| == 4 + |text| + |rest| && bytes[4 + |text|..] == rest
  {
    hide EncodeLittle, Limit, At, NumberAt;
    Regroup(EncodeLittle(|text|, 4), text, rest);
    FrontNumber(|text|, 4, text + rest);
    Front(text, rest);
    Behind(EncodeLittle(|text|, 4), text + rest, 0, text);
  }

  lemma {:induction false} EndpointLayout(n: Endpoint, rest: Bytes)
    requires ValidEndpoint(n)
    ensures var bytes := EndpointTail(n, rest);
            EndpointAt(bytes, 0, n) && |bytes| == EndpointSize(n) + |rest| && bytes[EndpointSize(n)..] == rest
  {
    hide EncodeLittle, Limit, At, NumberAt, TextBytes;
    var p, h := |n.protocol|, |n.host|;
    var ported := EncodeLittle(n.port, 2) + rest;
    var hosted := TextBytes(n.host) + ported;
    var named := TextBytes(n.protocol) + hosted;
    FrontNumber(n.port, 2, rest);
    TextLayout(n.host, ported);
    TextLayout(n.protocol, hosted);
    assert hosted == hosted[..4 + h] + ported;
    BehindNumber(hosted[..4 + h], ported, 0, n.port, 2);
    assert named == named[..4 + p] + hosted;
    BehindNumber(named[..4 + p], hosted, 0, h, 4);
    Behind(named[..4 + p], hosted, 4, n.host);
    BehindNumber(named[..4 + p], hosted, 4 + h, n.port, 2);
    KeyedLayout(n, named, rest);
  }

  lemma {:induction false} KeyedLayout(n: Endpoint, named: Bytes, rest: Bytes)
    requires |n.key| == 32
    requires var p, h := |n.protocol|, |n.host|;
             && NumberAt(named, 0, p, 4) && At(named, 4, n.protocol)
             && NumberAt(named, 4 + p, h, 4) && At(named, 8 + p, n.host)
             && NumberAt(named, 8 + p + h, n.port, 2)
    ensures EndpointAt(n.key + named, 0, n)
  {
    hide At, NumberAt;
    var p, h := |n.protocol|, |n.host|;
    Front(n.key, named);
    BehindNumber(n.key, named, 0, p, 4);
    Behind(n.key, named, 4, n.protocol);
    BehindNumber(n.key, named, 4 + p, h, 4);
    Behind(n.key, named, 8 + p, n.host);
    BehindNumber(n.key, named, 8 + p + h, n.port, 2);
  }

  lemma {:induction false} KindNumbers(k: ServiceKind)
    ensures KindByte(k) == if k.Relay? then 1 else if k.BlockService? then 2 else if k.Consensus? then 3
                           else if k.Engine? then 4 else 5
  {
  }

  lemma {:induction false} AdmissionEndLayout(a: Admission)
    requires ValidAdmission(a)
    ensures var bytes := AdmissionEnd(a, []);
            && |bytes| == 104 && At(bytes, 0, a.lastEpoch) && NumberAt(bytes, 32, a.nonce, 8)
            && At(bytes, 40, a.signature)
  {
    hide EncodeLittle, Limit, At, NumberAt, ValidEndpoint;
    var n := EncodeLittle(a.nonce, 8);
    var signed := a.signature + [];
    assert |n| == 8;
    Front(a.signature, []);
    FrontNumber(a.nonce, 8, signed);
    Behind(n, signed, 0, a.signature);
    Front(a.lastEpoch, n + signed);
    BehindNumber(a.lastEpoch, n + signed, 0, a.nonce, 8);
    Behind(a.lastEpoch, n + signed, 8, a.signature);
  }

  /** Every field of an admission, at its offset. */
  lemma {:induction false} AdmissionLayout(a: Admission)
    requires ValidAdmission(a)
    ensures var bytes := AdmissionBytes(a);
            var k := 25 + EndpointSize(a.node);
            var end := k + 2 + EndpointSize(a.service);
            && |bytes| == end + 104 && At(bytes, 0, AdmissionDomain()) && EndpointAt(bytes, 25, a.node)
            && bytes[k] == (if a.shuffle then 1 else 0)
            && bytes[k + 1] == (if a.kind.Relay? then 1 else if a.kind.BlockService? then 2
                                else if a.kind.Consensus? then 3 else if a.kind.Engine? then 4 else 5)
            && EndpointAt(bytes, k + 2, a.service)
            && At(bytes, end, a.lastEpoch) && NumberAt(bytes, end + 32, a.nonce, 8) && At(bytes, end + 40, a.signature)
  {
    hide EncodeLittle, Limit, At, NumberAt, EndpointAt, EndpointTail, AdmissionEnd, AdmissionBytes, AdmissionDomain,
         KindByte, ValidEndpoint, EndpointSize, AdmissionRest;
    AdmissionTail(a, []);
    assert AdmissionBytes(a) + [] == AdmissionBytes(a);
    KindNumbers(a.kind);
    AdmissionRestLayout(a);
    var rest := AdmissionRest(a, []);
    var k := EndpointSize(a.node);
    var end := k + 2 + EndpointSize(a.service);
    Front(AdmissionDomain(), rest);
    EndpointBehind(AdmissionDomain(), rest, 0, a.node);
    EndpointBehind(AdmissionDomain(), rest, k + 2, a.service);
    Behind(AdmissionDomain(), rest, end, a.lastEpoch);
    BehindNumber(AdmissionDomain(), rest, end + 32, a.nonce, 8);
    Behind(AdmissionDomain(), rest, end + 40, a.signature);
  }

  /** The fields of an admission after its domain. */
  lemma {:induction false} AdmissionRestLayout(a: Admission)
    requires ValidAdmission(a)
    ensures var bytes := AdmissionRest(a, []);
            var k := EndpointSize(a.node);
            var end := k + 2 + EndpointSize(a.service);
            && |bytes| == end + 104 && EndpointAt(bytes, 0, a.node)
            && bytes[k] == FlagByte(a.shuffle) && bytes[k + 1] == KindByte(a.kind)
            && EndpointAt(bytes, k + 2, a.service)
            && At(bytes, end, a.lastEpoch) && NumberAt(bytes, end + 32, a.nonce, 8) && At(bytes, end + 40, a.signature)
  {
    hide EncodeLittle, Limit, At, NumberAt, EndpointAt, EndpointTail, AdmissionEnd, KindByte, FlagByte, ValidEndpoint,
         EndpointSize;
    var end := AdmissionEnd(a, []);
    var tags := [FlagByte(a.shuffle), KindByte(a.kind)];
    var served := EndpointTail(a.service, end);
    var bytes := EndpointTail(a.node, tags + served);
    var k, m := EndpointSize(a.node), EndpointSize(a.service);
    EndpointLayout(a.node, tags + served);
    EndpointLayout(a.service, end);
    AdmissionEndLayout(a);
    assert bytes[k] == (tags + served)[0] && bytes[k + 1] == (tags + served)[1];
    Skip(bytes, k, tags + served);
    Skip(served, m, end);
    Regroup(bytes[..k], tags, served);
    var x := bytes[..k] + tags;
    EndpointBehind(x, served, 0, a.service);
    Regroup(x, served[..m], end);
    Behind(x + served[..m], end, 0, a.lastEpoch);
    BehindNumber(x + served[..m], end, 32, a.nonce, 8);
    Behind(x + served[..m], end, 40, a.signature);
  }

  lemma {:induction false} Skip(bytes: Bytes, k: nat, rest: Bytes)
    requires k <= |bytes| && bytes[k..] == rest
    ensures bytes == bytes[..k] + rest
  {
  }
}
