/**
 The canonical bytes of a block body. Every part is self-delimiting, except the
 transactions, which run to the end; together the bytes determine the body.
 */
module BlockBytes {
  import opened Wrappers
  import opened LogTables
  import opened BigEndian

  datatype Phase = Dispatch | Verification | Proposal | Commit | EpochStarted | CatchUp
  datatype Outcome = MissingSignature | InvalidSignature
  datatype ServiceKind = Relay | BlockService | Consensus | Engine | AddressBook

  datatype Encounter = Encounter(observer: Bytes, subject: Bytes, lastEpoch: Bytes, nonce: nat, round: Byte,
                                 phase: Phase, outcome: Outcome, evidence: Option<Bytes>, observedAt: nat,
                                 signature: Bytes)

  datatype Endpoint = Endpoint(key: Bytes, protocol: Bytes, host: Bytes, port: nat)

  datatype Admission = Admission(node: Endpoint, shuffle: bool, kind: ServiceKind, service: Endpoint,
                                 lastEpoch: Bytes, nonce: nat, signature: Bytes)

  datatype Transaction = Transaction(hash: Bytes, payload: Bytes)

  datatype Body = Body(validator: Bytes, lastEpoch: Bytes, nonce: nat, created: nat, dispatched: nat,
                       merkleRoot: Bytes, state: Bytes, encounters: seq<Encounter>, admissions: seq<Admission>,
                       txs: seq<Transaction>)

  function PhaseByte(p: Phase): Byte {
    match p
    case Dispatch => 1
    case Verification => 2
    case Proposal => 3
    case Commit => 4
    case EpochStarted => 5
    case CatchUp => 6
  }

  function OutcomeByte(o: Outcome): Byte {
    match o
    case MissingSignature => 1
    case InvalidSignature => 2
  }

  function KindByte(k: ServiceKind): Byte {
    match k
    case Relay => 1
    case BlockService => 2
    case Consensus => 3
    case Engine => 4
    case AddressBook => 5
  }

  /** "blossom-encounter-record:v1" */
  function EncounterDomain(): (d: Bytes)
    ensures |d| == 27
  {
    [98, 108, 111, 115, 115, 111, 109, 45, 101, 110, 99, 111, 117, 110, 116, 101, 114, 45, 114, 101, 99, 111, 114,
     100, 58, 118, 49]
  }

  /** "blossom-node-admission:v1" */
  function AdmissionDomain(): (d: Bytes)
    ensures |d| == 25
  {
    [98, 108, 111, 115, 115, 111, 109, 45, 110, 111, 100, 101, 45, 97, 100, 109, 105, 115, 115, 105, 111, 110, 58,
     118, 49]
  }

  function DefaultHash(): (z: Bytes)
    ensures |z| == 32
  {
    EncodeLittle(0, 32)
  }

  /** Widths the field types fix, and lengths their prefixes can hold. */
  predicate ValidEncounter(r: Encounter) {
    && |r.observer| == 32 && |r.subject| == 32 && |r.lastEpoch| == 32 && |r.signature| == 64
    && r.nonce < Limit(8) && r.observedAt < Limit(16) && (r.evidence.Some? ==> |r.evidence.value| == 32)
  }

  predicate ValidEndpoint(n: Endpoint) {
    |n.key| == 32 && |n.protocol| < Limit(4) && |n.host| < Limit(4) && n.port < Limit(2)
  }

  predicate ValidAdmission(a: Admission) {
    && ValidEndpoint(a.node) && ValidEndpoint(a.service)
    && |a.lastEpoch| == 32 && a.nonce < Limit(8) && |a.signature| == 64
  }

  predicate ValidTransaction(t: Transaction) {
    |t.hash| == 32 && |t.payload| < Limit(8)
  }

  predicate ValidBody(b: Body) {
    && |b.validator| == 32 && |b.lastEpoch| == 32 && |b.merkleRoot| == 32
    && b.nonce < Limit(8) && b.created < Limit(16) && b.dispatched < Limit(16) && |b.state| < Limit(8)
    && |b.encounters| < Limit(8) && |b.admissions| < Limit(8)
    && (forall r :: r in b.encounters ==> ValidEncounter(r))
    && (forall a :: a in b.admissions ==> ValidAdmission(a))
    && (forall t :: t in b.txs ==> ValidTransaction(t))
  }

  function EvidenceBytes(e: Option<Bytes>): Bytes {
    if e.Some? then [1] + e.value else [0] + DefaultHash()
  }

  function EncounterBytes(r: Encounter): Bytes {
    EncounterDomain() + (r.observer + (r.subject + (r.lastEpoch + (EncodeLittle(r.nonce, 8)
    + ([r.round, PhaseByte(r.phase), OutcomeByte(r.outcome)]
    + (EvidenceBytes(r.evidence) + (EncodeLittle(r.observedAt, 16) + r.signature)))))))
  }

  /** Length-prefixed text. */
  function TextBytes(s: Bytes): Bytes {
    EncodeLittle(|s|, 4) + s
  }

  function FlagByte(b: bool): Byte {
    if b then 1 else 0
  }

  function AdmissionBytes(a: Admission): Bytes {
    AdmissionDomain() + (a.node.key + (TextBytes(a.node.protocol) + (TextBytes(a.node.host)
    + (EncodeLittle(a.node.port, 2) + ([FlagByte(a.shuffle), KindByte(a.kind)]
    + (a.service.key + (TextBytes(a.service.protocol) + (TextBytes(a.service.host)
    + (EncodeLittle(a.service.port, 2) + (a.lastEpoch + (EncodeLittle(a.nonce, 8) + a.signature)))))))))))
  }

  function TransactionBytes(t: Transaction): Bytes {
    t.hash + (EncodeLittle(|t.payload|, 8) + t.payload)
  }

  /** Entries one after the other. */
  function Entries<T>(enc: T -> Bytes, xs: seq<T>): Bytes {
    if xs == [] then [] else Entries(enc, xs[..|xs| - 1]) + enc(xs[|xs| - 1])
  }

  /** The part of a body before its transactions. */
  function HeaderBytes(b: Body): Bytes {
    b.validator + (b.lastEpoch + (EncodeLittle(b.nonce, 8) + (EncodeLittle(b.created, 16)
    + (EncodeLittle(b.dispatched, 16) + (b.merkleRoot + (EncodeLittle(|b.state|, 8) + (b.state
    + (EncodeLittle(|b.encounters|, 8) + (Entries(EncounterBytes, b.encounters)
    + (EncodeLittle(|b.admissions|, 8) + Entries(AdmissionBytes, b.admissions)))))))))))
  }

  function BodyBytes(b: Body): Bytes {
    HeaderBytes(b) + Entries(TransactionBytes, b.txs)
  }

  /** Equal concatenations of equally long parts have equal parts. */
  lemma {:induction false} Peel(x: Bytes, r: Bytes, y: Bytes, s: Bytes)
    requires x + r == y + s && |x| == |y|
    ensures x == y && r == s
  {
    assert x == (x + r)[..|x|] && y == (y + s)[..|y|];
    assert r == (x + r)[|x|..] && s == (y + s)[|y|..];
  }

  lemma {:induction false} PeelLittle(n: nat, m: nat, width: nat, r: Bytes, s: Bytes)
    requires n < Limit(width) && m < Limit(width) && EncodeLittle(n, width) + r == EncodeLittle(m, width) + s
    ensures n == m && r == s
  {
    Peel(EncodeLittle(n, width), r, EncodeLittle(m, width), s);
    LittleInjective(n, m, width);
  }

  lemma {:induction false} Regroup(x: Bytes, y: Bytes, r: Bytes)
    ensures (x + y) + r == x + (y + r)
  {
  }

  lemma {:induction false} PeelText(x: Bytes, r: Bytes, y: Bytes, s: Bytes)
    requires |x| < Limit(4) && |y| < Limit(4) && TextBytes(x) + r == TextBytes(y) + s
    ensures x == y && r == s
  {
    hide EncodeLittle, Limit;
    Regroup(EncodeLittle(|x|, 4), x, r);
    Regroup(EncodeLittle(|y|, 4), y, s);
    PeelLittle(|x|, |y|, 4, x + r, y + s);
    Peel(x, r, y, s);
  }

  /** The four-byte prefix is what bounds a text: one of exactly `Limit(4)` bytes
      gets the prefix of the empty text, and its own bytes read as what follows. */
  lemma {:induction false} LongTextLosesItsLength(x: Bytes, r: Bytes)
    requires |x| == Limit(4)
    ensures TextBytes(x) + r == TextBytes([]) + (x + r) && x != []
  {
    hide Limit;
    LittleWraps(|x|, 4);
    Regroup(EncodeLittle(|x|, 4), x, r);
    assert TextBytes([]) == EncodeLittle(0, 4);
    LimitPositive(4);
  }

  lemma {:induction false} LittleWraps(n: nat, width: nat)
    requires n == Limit(width)
    ensures EncodeLittle(n, width) == EncodeLittle(0, width)
  {
    if width > 0 {
      LittleWraps(n / 256, width - 1);
    }
  }

  lemma {:induction false} LimitPositive(width: nat)
    ensures Limit(width) > 0
  {
    if width > 0 {
      LimitPositive(width - 1);
    }
  }

  lemma {:induction false} PeelEvidence(x: Option<Bytes>, r: Bytes, y: Option<Bytes>, s: Bytes)
    requires (x.Some? ==> |x.value| == 32) && (y.Some? ==> |y.value| == 32)
    requires EvidenceBytes(x) + r == EvidenceBytes(y) + s
    ensures x == y && r == s
  {
    hide DefaultHash;
    Peel(EvidenceBytes(x), r, EvidenceBytes(y), s);
    assert EvidenceBytes(x)[0] == EvidenceBytes(y)[0];
    assert x.Some? ==> x.value == EvidenceBytes(x)[1..];
    assert y.Some? ==> y.value == EvidenceBytes(y)[1..];
  }

  lemma {:induction false} PeelTags(a: Encounter, r: Bytes, b: Encounter, s: Bytes)
    requires [a.round, PhaseByte(a.phase), OutcomeByte(a.outcome)] + r
        == [b.round, PhaseByte(b.phase), OutcomeByte(b.outcome)] + s
    ensures a.round == b.round && a.phase == b.phase && a.outcome == b.outcome && r == s
  {
    var x := [a.round, PhaseByte(a.phase), OutcomeByte(a.outcome)];
    var y := [b.round, PhaseByte(b.phase), OutcomeByte(b.outcome)];
    Peel(x, r, y, s);
    assert x[0] == y[0] && x[1] == y[1] && x[2] == y[2];
  }

  /** An encounter's bytes end where they end: whatever follows, they name it. */
  lemma {:induction false} EncounterSelfDelimiting(a: Encounter, r: Bytes, b: Encounter, s: Bytes)
    requires ValidEncounter(a) && ValidEncounter(b) && EncounterBytes(a) + r == EncounterBytes(b) + s
    ensures a == b && r == s
  {
    hide EncounterDomain, EncodeLittle, EvidenceBytes, PhaseByte, OutcomeByte, Limit;
    EncounterTail(a, r);
    EncounterTail(b, s);
    Peel(EncounterDomain(), EncounterRest(a, r), EncounterDomain(), EncounterRest(b, s));
    Peel(a.observer, a.subject + (a.lastEpoch + EncounterEnd(a, r)),
         b.observer, b.subject + (b.lastEpoch + EncounterEnd(b, s)));
    Peel(a.subject, a.lastEpoch + EncounterEnd(a, r), b.subject, b.lastEpoch + EncounterEnd(b, s));
    Peel(a.lastEpoch, EncounterEnd(a, r), b.lastEpoch, EncounterEnd(b, s));
    EncounterEndPeels(a, r, b, s);
  }

  function EncounterEnd(r: Encounter, rest: Bytes): Bytes {
    EncodeLittle(r.nonce, 8) + ([r.round, PhaseByte(r.phase), OutcomeByte(r.outcome)]
    + (EvidenceBytes(r.evidence) + (EncodeLittle(r.observedAt, 16) + (r.signature + rest))))
  }

  function EncounterRest(r: Encounter, rest: Bytes): Bytes {
    r.observer + (r.subject + (r.lastEpoch + EncounterEnd(r, rest)))
  }

  lemma {:induction false} EncounterTail(r: Encounter, rest: Bytes)
    ensures EncounterBytes(r) + rest == EncounterDomain() + EncounterRest(r, rest)
  {
    hide EncounterDomain, EncodeLittle, EvidenceBytes, PhaseByte, OutcomeByte;
  }

  lemma {:induction false} EncounterEndPeels(a: Encounter, r: Bytes, b: Encounter, s: Bytes)
    requires ValidEncounter(a) && ValidEncounter(b) && EncounterEnd(a, r) == EncounterEnd(b, s)
    ensures a.nonce == b.nonce && a.round == b.round && a.phase == b.phase && a.outcome == b.outcome
    ensures a.evidence == b.evidence && a.observedAt == b.observedAt && a.signature == b.signature && r == s
  {
    hide EncodeLittle, EvidenceBytes, PhaseByte, OutcomeByte, Limit;
    var x, y := EncodeLittle(a.observedAt, 16) + (a.signature + r), EncodeLittle(b.observedAt, 16) + (b.signature + s);
    var u, w := EvidenceBytes(a.evidence) + x, EvidenceBytes(b.evidence) + y;
    PeelLittle(a.nonce, b.nonce, 8, [a.round, PhaseByte(a.phase), OutcomeByte(a.outcome)] + u,
               [b.round, PhaseByte(b.phase), OutcomeByte(b.outcome)] + w);
    PeelTags(a, u, b, w);
    PeelEvidence(a.evidence, x, b.evidence, y);
    PeelLittle(a.observedAt, b.observedAt, 16, a.signature + r, b.signature + s);
    Peel(a.signature, r, b.signature, s);
  }

  function EndpointTail(n: Endpoint, rest: Bytes): Bytes {
    n.key + (TextBytes(n.protocol) + (TextBytes(n.host) + (EncodeLittle(n.port, 2) + rest)))
  }

  lemma {:induction false} EndpointPeels(a: Endpoint, r: Bytes, b: Endpoint, s: Bytes)
    requires ValidEndpoint(a) && ValidEndpoint(b) && EndpointTail(a, r) == EndpointTail(b, s)
    ensures a == b && r == s
  {
    hide TextBytes, EncodeLittle, Limit;
    var x, y := EncodeLittle(a.port, 2) + r, EncodeLittle(b.port, 2) + s;
    Peel(a.key, TextBytes(a.protocol) + (TextBytes(a.host) + x), b.key,
         TextBytes(b.protocol) + (TextBytes(b.host) + y));
    PeelText(a.protocol, TextBytes(a.host) + x, b.protocol, TextBytes(b.host) + y);
    PeelText(a.host, x, b.host, y);
    PeelLittle(a.port, b.port, 2, r, s);
  }

  function AdmissionEnd(a: Admission, rest: Bytes): Bytes {
    a.lastEpoch + (EncodeLittle(a.nonce, 8) + (a.signature + rest))
  }

  function AdmissionRest(a: Admission, rest: Bytes): Bytes {
    EndpointTail(a.node, [FlagByte(a.shuffle), KindByte(a.kind)] + EndpointTail(a.service, AdmissionEnd(a, rest)))
  }

  lemma {:induction false} AdmissionTail(a: Admission, rest: Bytes)
    ensures AdmissionBytes(a) + rest == AdmissionDomain() + AdmissionRest(a, rest)
  {
    hide AdmissionDomain, TextBytes, EncodeLittle, FlagByte, KindByte;
  }

  lemma {:induction false} PeelKind(a: Admission, r: Bytes, b: Admission, s: Bytes)
    requires [FlagByte(a.shuffle), KindByte(a.kind)] + r == [FlagByte(b.shuffle), KindByte(b.kind)] + s
    ensures a.shuffle == b.shuffle && a.kind == b.kind && r == s
  {
    var x, y := [FlagByte(a.shuffle), KindByte(a.kind)], [FlagByte(b.shuffle), KindByte(b.kind)];
    Peel(x, r, y, s);
    assert x[0] == y[0] && x[1] == y[1];
  }

  lemma {:induction false} AdmissionEndPeels(a: Admission, r: Bytes, b: Admission, s: Bytes)
    requires ValidAdmission(a) && ValidAdmission(b) && AdmissionEnd(a, r) == AdmissionEnd(b, s)
    ensures a.lastEpoch == b.lastEpoch && a.nonce == b.nonce && a.signature == b.signature && r == s
  {
    hide EncodeLittle, Limit, ValidEndpoint;
    Peel(a.lastEpoch, EncodeLittle(a.nonce, 8) + (a.signature + r),
         b.lastEpoch, EncodeLittle(b.nonce, 8) + (b.signature + s));
    PeelLittle(a.nonce, b.nonce, 8, a.signature + r, b.signature + s);
    Peel(a.signature, r, b.signature, s);
  }

  /** An admission's bytes end where they end. */
  lemma {:induction false} AdmissionSelfDelimiting(a: Admission, r: Bytes, b: Admission, s: Bytes)
    requires ValidAdmission(a) && ValidAdmission(b) && AdmissionBytes(a) + r == AdmissionBytes(b) + s
    ensures a == b && r == s
  {
    hide AdmissionDomain, EndpointTail, AdmissionEnd, AdmissionBytes, FlagByte, KindByte, ValidEndpoint, Limit;
    AdmissionTail(a, r);
    AdmissionTail(b, s);
    Peel(AdmissionDomain(), AdmissionRest(a, r), AdmissionDomain(), AdmissionRest(b, s));
    var x, y := EndpointTail(a.service, AdmissionEnd(a, r)), EndpointTail(b.service, AdmissionEnd(b, s));
    EndpointPeels(a.node, [FlagByte(a.shuffle), KindByte(a.kind)] + x,
                  b.node, [FlagByte(b.shuffle), KindByte(b.kind)] + y);
    PeelKind(a, x, b, y);
    EndpointPeels(a.service, AdmissionEnd(a, r), b.service, AdmissionEnd(b, s));
    AdmissionEndPeels(a, r, b, s);
  }

  /** A transaction's bytes end where they end. */
  lemma {:induction false} TransactionSelfDelimiting(a: Transaction, r: Bytes, b: Transaction, s: Bytes)
    requires ValidTransaction(a) && ValidTransaction(b) && TransactionBytes(a) + r == TransactionBytes(b) + s
    ensures a == b && r == s
  {
    hide EncodeLittle, Limit;
    var x, y := EncodeLittle(|a.payload|, 8) + (a.payload + r), EncodeLittle(|b.payload|, 8) + (b.payload + s);
    assert TransactionBytes(a) + r == a.hash + x;
    assert TransactionBytes(b) + s == b.hash + y;
    Peel(a.hash, x, b.hash, y);
    PeelLittle(|a.payload|, |b.payload|, 8, a.payload + r, b.payload + s);
    Peel(a.payload, r, b.payload, s);
  }

  /** The entries of a list, the first one in front. */
  lemma {:induction false} EntriesFront<T>(enc: T -> Bytes, xs: seq<T>)
    requires xs != []
    ensures Entries(enc, xs) == enc(xs[0]) + Entries(enc, xs[1..])
  {
    if |xs| == 1 {
      assert xs[..0] == [] && xs[1..] == [];
    } else {
      var n := |xs| - 1;
      EntriesFront(enc, xs[..n]);
      assert xs[..n][1..] == xs[1..][..n - 1];
      Regroup(enc(xs[0]), Entries(enc, xs[1..n]), enc(xs[n]));
    }
  }

  /** The bytes of one entry followed by anything determine the entry and the rest. */
  ghost predicate SelfDelimiting<T(!new)>(enc: T -> Bytes, valid: T -> bool) {
    forall a, b, r, s :: valid(a) && valid(b) && Follows(enc, a, r, b, s) ==> a == b && r == s
  }

  predicate Follows<T>(enc: T -> Bytes, a: T, r: Bytes, b: T, s: Bytes) {
    enc(a) + r == enc(b) + s
  }

  /** A counted list of self-delimiting entries is self-delimiting. */
  lemma {:induction false} EntriesCounted<T(!new)>(enc: T -> Bytes, valid: T -> bool, xs: seq<T>, r: Bytes,
                                                   ys: seq<T>, s: Bytes)
    requires SelfDelimiting(enc, valid) && (forall x :: x in xs ==> valid(x)) && (forall y :: y in ys ==> valid(y))
    requires |xs| == |ys| && Entries(enc, xs) + r == Entries(enc, ys) + s
    ensures xs == ys && r == s
  {
    if xs == [] {
      assert Entries(enc, xs) + r == r && Entries(enc, ys) + s == s;
    } else {
      var x, y := Entries(enc, xs[1..]), Entries(enc, ys[1..]);
      EntriesFront(enc, xs);
      EntriesFront(enc, ys);
      Regroup(enc(xs[0]), x, r);
      Regroup(enc(ys[0]), y, s);
      assert Follows(enc, xs[0], x + r, ys[0], y + s);
      EntriesCounted(enc, valid, xs[1..], r, ys[1..], s);
      assert xs == [xs[0]] + xs[1..] && ys == [ys[0]] + ys[1..];
    }
  }

  /** Non-empty self-delimiting entries up to the end need no count. */
  lemma {:induction false} EntriesToEnd<T(!new)>(enc: T -> Bytes, valid: T -> bool, xs: seq<T>, ys: seq<T>)
    requires SelfDelimiting(enc, valid) && (forall x :: valid(x) ==> enc(x) != [])
    requires (forall x :: x in xs ==> valid(x)) && (forall y :: y in ys ==> valid(y))
    requires Entries(enc, xs) == Entries(enc, ys)
    ensures xs == ys
    decreases |xs|
  {
    if xs != [] && ys != [] {
      EntriesFront(enc, xs);
      EntriesFront(enc, ys);
      assert Follows(enc, xs[0], Entries(enc, xs[1..]), ys[0], Entries(enc, ys[1..]));
      EntriesToEnd(enc, valid, xs[1..], ys[1..]);
      assert xs == [xs[0]] + xs[1..] && ys == [ys[0]] + ys[1..];
    } else {
      EntriesNotEmpty(enc, valid, xs);
      EntriesNotEmpty(enc, valid, ys);
    }
  }

  lemma {:induction false} EntriesNotEmpty<T(!new)>(enc: T -> Bytes, valid: T -> bool, xs: seq<T>)
    requires (forall x :: valid(x) ==> enc(x) != []) && forall x :: x in xs ==> valid(x)
    ensures xs != [] ==> Entries(enc, xs) != []
  {
    if xs != [] {
      assert valid(xs[|xs| - 1]);
    }
  }

  lemma {:induction false} EncountersDelimit()
    ensures SelfDelimiting(EncounterBytes, ValidEncounter)
  {
    hide EncounterBytes, ValidEncounter;
    forall a, b, r, s | ValidEncounter(a) && ValidEncounter(b) && Follows(EncounterBytes, a, r, b, s)
      ensures a == b && r == s
    {
      EncounterSelfDelimiting(a, r, b, s);
    }
  }

  lemma {:induction false} AdmissionsDelimit()
    ensures SelfDelimiting(AdmissionBytes, ValidAdmission)
  {
    hide AdmissionBytes, ValidAdmission;
    forall a, b, r, s | ValidAdmission(a) && ValidAdmission(b) && Follows(AdmissionBytes, a, r, b, s)
      ensures a == b && r == s
    {
      AdmissionSelfDelimiting(a, r, b, s);
    }
  }

  lemma {:induction false} TransactionsDelimit()
    ensures SelfDelimiting(TransactionBytes, ValidTransaction)
    ensures forall t :: ValidTransaction(t) ==> TransactionBytes(t) != []
  {
    forall a, b, r, s | ValidTransaction(a) && ValidTransaction(b) && Follows(TransactionBytes, a, r, b, s)
      ensures a == b && r == s
    {
      TransactionSelfDelimiting(a, r, b, s);
    }
  }

  function ListsAndEnd(b: Body, rest: Bytes): Bytes {
    EncodeLittle(|b.encounters|, 8) + (Entries(EncounterBytes, b.encounters)
    + (EncodeLittle(|b.admissions|, 8) + (Entries(AdmissionBytes, b.admissions) + rest)))
  }

  function StateAndLists(b: Body, rest: Bytes): Bytes {
    b.merkleRoot + (EncodeLittle(|b.state|, 8) + (b.state + ListsAndEnd(b, rest)))
  }

  function HeadBytes(b: Body, rest: Bytes): Bytes {
    b.validator + (b.lastEpoch + (EncodeLittle(b.nonce, 8) + (EncodeLittle(b.created, 16)
    + (EncodeLittle(b.dispatched, 16) + rest))))
  }

  lemma {:induction false} BodyTail(b: Body)
    ensures BodyBytes(b) == HeadBytes(b, StateAndLists(b, Entries(TransactionBytes, b.txs)))
  {
    hide EncodeLittle, Entries;
  }

  lemma {:induction false} ListsPeel(a: Body, r: Bytes, b: Body, s: Bytes)
    requires ValidBody(a) && ValidBody(b) && ListsAndEnd(a, r) == ListsAndEnd(b, s)
    ensures a.encounters == b.encounters && a.admissions == b.admissions && r == s
  {
    hide EncodeLittle, Limit, Entries, ValidEncounter, ValidAdmission, ValidTransaction, SelfDelimiting;
    EncountersDelimit();
    AdmissionsDelimit();
    var x, y := Entries(AdmissionBytes, a.admissions) + r, Entries(AdmissionBytes, b.admissions) + s;
    var u, w := EncodeLittle(|a.admissions|, 8) + x, EncodeLittle(|b.admissions|, 8) + y;
    PeelLittle(|a.encounters|, |b.encounters|, 8,
               Entries(EncounterBytes, a.encounters) + u, Entries(EncounterBytes, b.encounters) + w);
    EntriesCounted(EncounterBytes, ValidEncounter, a.encounters, u, b.encounters, w);
    PeelLittle(|a.admissions|, |b.admissions|, 8, x, y);
    EntriesCounted(AdmissionBytes, ValidAdmission, a.admissions, r, b.admissions, s);
  }

  lemma {:induction false} StatePeels(a: Body, r: Bytes, b: Body, s: Bytes)
    requires ValidBody(a) && ValidBody(b) && StateAndLists(a, r) == StateAndLists(b, s)
    ensures a.merkleRoot == b.merkleRoot && a.state == b.state && ListsAndEnd(a, r) == ListsAndEnd(b, s)
  {
    hide EncodeLittle, Limit, ListsAndEnd, ValidEncounter, ValidAdmission, ValidTransaction;
    Peel(a.merkleRoot, EncodeLittle(|a.state|, 8) + (a.state + ListsAndEnd(a, r)),
         b.merkleRoot, EncodeLittle(|b.state|, 8) + (b.state + ListsAndEnd(b, s)));
    PeelLittle(|a.state|, |b.state|, 8, a.state + ListsAndEnd(a, r), b.state + ListsAndEnd(b, s));
    Peel(a.state, ListsAndEnd(a, r), b.state, ListsAndEnd(b, s));
  }

  lemma {:induction false} HeadPeels(a: Body, r: Bytes, b: Body, s: Bytes)
    requires ValidBody(a) && ValidBody(b)
    requires HeadBytes(a, r) == HeadBytes(b, s)
    ensures a.validator == b.validator && a.lastEpoch == b.lastEpoch && a.nonce == b.nonce
    ensures a.created == b.created && a.dispatched == b.dispatched && r == s
  {
    hide EncodeLittle, Limit, ValidEncounter, ValidAdmission, ValidTransaction;
    var d, e := EncodeLittle(a.dispatched, 16) + r, EncodeLittle(b.dispatched, 16) + s;
    var x, y := EncodeLittle(a.created, 16) + d, EncodeLittle(b.created, 16) + e;
    var u, w := EncodeLittle(a.nonce, 8) + x, EncodeLittle(b.nonce, 8) + y;
    Peel(a.validator, a.lastEpoch + u, b.validator, b.lastEpoch + w);
    Peel(a.lastEpoch, u, b.lastEpoch, w);
    PeelLittle(a.nonce, b.nonce, 8, x, y);
    PeelLittle(a.created, b.created, 16, d, e);
    PeelLittle(a.dispatched, b.dispatched, 16, r, s);
  }

  /** Different bodies have different bytes. */
  lemma {:induction false} BodyBytesDetermineBody(a: Body, b: Body)
    requires ValidBody(a) && ValidBody(b) && BodyBytes(a) == BodyBytes(b)
    ensures a == b
  {
    hide BodyBytes, HeadBytes, StateAndLists, ListsAndEnd, Entries, EncodeLittle, ValidEncounter, ValidAdmission,
         ValidTransaction, TransactionBytes, SelfDelimiting, Limit;
    var r, s := Entries(TransactionBytes, a.txs), Entries(TransactionBytes, b.txs);
    BodyTail(a);
    BodyTail(b);
    HeadPeels(a, StateAndLists(a, r), b, StateAndLists(b, s));
    StatePeels(a, r, b, s);
    ListsPeel(a, r, b, s);
    TransactionsDelimit();
    EntriesToEnd(TransactionBytes, ValidTransaction, a.txs, b.txs);
  }

  /** An admission whose texts have at most `n` bytes each. */
  predicate AdmissionWithin(a: Admission, n: nat) {
    && |a.node.key| == 32 && a.node.port < Limit(2) && |a.service.key| == 32 && a.service.port < Limit(2)
    && |a.lastEpoch| == 32 && a.nonce < Limit(8) && |a.signature| == 64
    && |a.node.protocol| <= n && |a.node.host| <= n && |a.service.protocol| <= n && |a.service.host| <= n
  }

  /** A body whose admissions are such. */
  predicate BodyWithin(b: Body, n: nat) {
    && |b.validator| == 32 && |b.lastEpoch| == 32 && |b.merkleRoot| == 32
    && b.nonce < Limit(8) && b.created < Limit(16) && b.dispatched < Limit(16) && |b.state| < Limit(8)
    && |b.encounters| < Limit(8) && |b.admissions| < Limit(8)
    && (forall r :: r in b.encounters ==> ValidEncounter(r))
    && (forall a :: a in b.admissions ==> AdmissionWithin(a, n))
    && (forall t :: t in b.txs ==> ValidTransaction(t))
  }

  predicate SameBytes(a: Body, b: Body) {
    BodyBytes(a) == BodyBytes(b)
  }

  ghost predicate InjectiveWithin(n: nat) {
    forall a, b :: BodyWithin(a, n) && BodyWithin(b, n) && SameBytes(a, b) ==> a == b
  }

  lemma {:induction false} ShortTextsAreValid(b: Body, n: nat)
    requires BodyWithin(b, n) && n < Limit(4)
    ensures ValidBody(b)
  {
    hide Limit, ValidEncounter, ValidTransaction;
  }

  function ZeroBytes(n: nat): (z: Bytes)
    ensures |z| == n
  {
    Repeat(0, n)
  }

  lemma {:induction false} LittleZero(width: nat)
    ensures EncodeLittle(0, width) == ZeroBytes(width)
  {
    if width > 0 {
      LittleZero(width - 1);
    }
  }

  lemma {:induction false} ZerosCommute(m: nat, n: nat)
    ensures ZeroBytes(m) + ZeroBytes(n) == ZeroBytes(n) + ZeroBytes(m)
  {
  }

  /** A text of `Limit(4)` zero bytes and an empty one can change places. */
  lemma {:induction false} LongTextsSwap(r: Bytes)
    ensures var z := ZeroBytes(Limit(4));
            TextBytes(z) + (TextBytes([]) + r) == TextBytes([]) + (TextBytes(z) + r)
  {
    hide Limit, EncodeLittle, ZeroBytes;
    var z, e := ZeroBytes(Limit(4)), TextBytes([]);
    LittleZero(4);
    assert e == ZeroBytes(4);
    LongTextLosesItsLength(z, e + r);
    LongTextLosesItsLength(z, r);
    ZerosCommute(Limit(4), 4);
    Regroup(z, e, r);
    Regroup(e, z, r);
  }

  /** An endpoint with one text of `Limit(4)` zero bytes, in either place. */
  function LongEndpoint(inHost: bool): Endpoint {
    var z := ZeroBytes(Limit(4));
    if inHost then Endpoint(DefaultHash(), [], z, 0) else Endpoint(DefaultHash(), z, [], 0)
  }

  function LongAdmission(inHost: bool): Admission {
    Admission(LongEndpoint(inHost), true, Consensus, LongEndpoint(inHost), DefaultHash(), 0, ZeroBytes(64))
  }

  function LongBody(inHost: bool): Body {
    Body(DefaultHash(), DefaultHash(), 0, 0, 0, DefaultHash(), [], [], [LongAdmission(inHost)], [])
  }

  lemma {:induction false} EndpointsCollide(r: Bytes)
    ensures EndpointTail(LongEndpoint(false), r) == EndpointTail(LongEndpoint(true), r)
  {
    hide Limit, EncodeLittle, ZeroBytes, TextBytes, DefaultHash;
    LongTextsSwap(EncodeLittle(0, 2) + r);
  }

  lemma {:induction false} AdmissionsCollide()
    ensures AdmissionBytes(LongAdmission(false)) == AdmissionBytes(LongAdmission(true))
  {
    hide Limit, EncodeLittle, ZeroBytes, TextBytes, DefaultHash, EndpointTail, LongEndpoint, AdmissionBytes,
         AdmissionDomain, FlagByte, KindByte;
    var a, b := LongAdmission(false), LongAdmission(true);
    var end := AdmissionEnd(a, []);
    assert end == AdmissionEnd(b, []);
    AdmissionTail(a, []);
    AdmissionTail(b, []);
    EndpointsCollide(end);
    EndpointsCollide([FlagByte(true), KindByte(Consensus)] + EndpointTail(LongEndpoint(false), end));
    assert AdmissionBytes(a) + [] == AdmissionBytes(a) && AdmissionBytes(b) + [] == AdmissionBytes(b);
  }

  /** Two bodies that differ only in where one long text of an admission stands
      have the same bytes. */
  lemma {:induction false} BodiesCollide()
    ensures LongBody(false) != LongBody(true) && SameBytes(LongBody(false), LongBody(true))
    ensures BodyWithin(LongBody(false), Limit(4)) && BodyWithin(LongBody(true), Limit(4))
  {
    hide EncodeLittle, ZeroBytes, TextBytes, DefaultHash, AdmissionBytes, Limit;
    AdmissionsCollide();
    LimitPositive(4);
    LimitPositive(2);
    LimitPositive(8);
    LimitPositive(16);
    OneFits();
    var a, b := LongBody(false), LongBody(true);
    OneEntry(LongAdmission(false));
    OneEntry(LongAdmission(true));
    assert |a.admissions[0].node.protocol| != |b.admissions[0].node.protocol|;
  }

  lemma {:induction false} OneFits()
    ensures 1 < Limit(8)
  {
    LimitPositive(7);
  }

  lemma {:induction false} OneEntry(a: Admission)
    ensures Entries(AdmissionBytes, [a]) == AdmissionBytes(a)
  {
    hide AdmissionBytes;
    assert [a][..0] == [] && Entries(AdmissionBytes, []) == [];
  }

  /** The canonical bytes determine the body for all texts of up to `n` bytes if
      and only if `n` is below 2^32, where the length prefix wraps. */
  lemma {:induction false} InjectiveExactlyBelowLimit(n: nat)
    ensures InjectiveWithin(n) <==> n < Limit(4)
  {
    hide Limit, BodyBytes, LongBody;
    if n < Limit(4) {
      forall a, b | BodyWithin(a, n) && BodyWithin(b, n) && SameBytes(a, b) ensures a == b {
        ShortTextsAreValid(a, n);
        ShortTextsAreValid(b, n);
        BodyBytesDetermineBody(a, b);
      }
    } else {
      BodiesCollide();
      LongerTextsToo(LongBody(false), Limit(4), n);
      LongerTextsToo(LongBody(true), Limit(4), n);
    }
  }

  lemma {:induction false} LongerTextsToo(b: Body, n: nat, m: nat)
    requires BodyWithin(b, n) && n <= m
    ensures BodyWithin(b, m)
  {
    hide Limit;
  }
}
