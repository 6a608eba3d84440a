/**
 Round-skip evidence: the data a skip carries forward survives as many withheld
 sources as the replica threshold allows for, and two valid skip certificates of
 one epoch share more voters than can be Byzantine.
 */
module RoundSkip {
  import opened QuorumSelection
  import opened Supermajority
  import opened FiniteSets

  type Hash = nat

  datatype Manifest = Manifest(carried: set<Hash>, dropped: set<Hash>, sources: set<PubKey>,
                               holders: map<Hash, set<PubKey>>)

  function HoldersOf(m: Manifest, block: Hash): set<PubKey> {
    if block in m.holders then m.holders[block] else {}
  }

  function AtLeastOne(n: nat): nat {
    if n == 0 then 1 else n
  }

  predicate ReplicatedAtLeast(m: Manifest, replicas: nat) {
    forall b :: b in m.carried ==> |HoldersOf(m, b)| >= AtLeastOne(replicas)
  }

  function KeySet(validators: seq<PubKey>): set<PubKey> {
    set k | k in validators
  }

  /** The manifest is accepted for this validator list and replica threshold. */
  predicate Available(m: Manifest, validators: seq<PubKey>, replicas: nat) {
    && (forall k :: k in m.sources ==> k in validators)
    && m.carried !! m.dropped
    && (forall b :: b in m.holders ==> b in m.carried)
    && (forall b, k :: b in m.holders && k in m.holders[b] ==> k in m.sources && k in validators)
    && ReplicatedAtLeast(m, replicas)
  }

  /** Holders are listed for exactly the carried blocks, none of them dropped; each
      has some holder, enough for the threshold, and all are sources that validate. */
  ghost predicate Covered(m: Manifest, validators: seq<PubKey>, replicas: nat) {
    && m.holders.Keys == m.carried && m.sources <= KeySet(validators)
    && forall b :: b in m.carried ==>
         b !in m.dropped && m.holders[b] != {} && m.holders[b] <= m.sources && |m.holders[b]| >= replicas
  }

  lemma {:induction false} AcceptedExactly(m: Manifest, validators: seq<PubKey>, replicas: nat)
    ensures Available(m, validators, replicas) <==> Covered(m, validators, replicas)
  {
    if Available(m, validators, replicas) {
      forall b | b in m.carried
        ensures b in m.holders && m.holders[b] != {} && m.holders[b] <= m.sources && |m.holders[b]| >= replicas
      {
        assert |HoldersOf(m, b)| >= AtLeastOne(replicas);
      }
      assert m.holders.Keys == m.carried;
    }
    if Covered(m, validators, replicas) {
      forall b | b in m.carried ensures |HoldersOf(m, b)| >= AtLeastOne(replicas) {
        assert m.holders[b] != {} && |m.holders[b]| >= replicas;
      }
    }
  }

  /** Every carried block has this many of its holders among the sources asked. */
  predicate ReconstructsFrom(m: Manifest, asked: set<PubKey>, perBlock: nat) {
    forall b :: b in m.carried ==> b in m.holders && |m.holders[b] * asked| >= AtLeastOne(perBlock)
  }

  lemma {:induction false} IntersectionSurvives(holders: set<PubKey>, sources: set<PubKey>, withheld: set<PubKey>)
    requires holders <= sources
    ensures |holders * (sources - withheld)| >= |holders| - |withheld|
  {
    assert holders * (sources - withheld) == holders - withheld;
    assert holders == (holders - withheld) + (holders * withheld);
    assert |holders| == |holders - withheld| + |holders * withheld|;
    SubsetSize(holders * withheld, withheld);
  }

  /** Accepted with `f` replicas to spare, a manifest keeps `perBlock` sources
      for every block whichever `f` of its sources withhold. */
  lemma {:induction false} SurvivesWithholding(m: Manifest, validators: seq<PubKey>, f: nat, perBlock: nat,
                                               withheld: set<PubKey>)
    requires perBlock >= 1 && Available(m, validators, f + perBlock) && |withheld| <= f
    ensures ReconstructsFrom(m, m.sources - withheld, perBlock)
  {
    forall b | b in m.carried
      ensures b in m.holders && |m.holders[b] * (m.sources - withheld)| >= perBlock
    {
      assert |HoldersOf(m, b)| >= AtLeastOne(f + perBlock);
      IntersectionSurvives(m.holders[b], m.sources, withheld);
    }
  }

  /** Surviving every `f` withholders takes the Byzantine-safe threshold: nothing
      less would do. */
  lemma {:induction false} WithholdingNeedsThreshold(m: Manifest, validators: seq<PubKey>, f: nat)
    requires Available(m, validators, 1)
    ensures (forall w: set<PubKey> :: |w| <= f ==> ReconstructsFrom(m, m.sources - w, 1))
       <==> ReplicatedAtLeast(m, f + 1)
  {
    if ReplicatedAtLeast(m, f + 1) {
      forall w: set<PubKey> | |w| <= f ensures ReconstructsFrom(m, m.sources - w, 1) {
        SurvivesWithholding(m, validators, f, 1, w);
      }
    }
    if b :| b in m.carried && |HoldersOf(m, b)| < f + 1 {
      var w := HoldersOf(m, b);
      assert b in m.holders ==> m.holders[b] * (m.sources - w) == {};
      assert !ReconstructsFrom(m, m.sources - w, 1);
    }
  }

  /** Sources that hold every carried block. */
  function FullHolders(m: Manifest): set<PubKey> {
    if m.carried == {} then m.sources
    else set k | k in m.sources && forall b :: b in m.carried ==> b in m.holders && k in m.holders[b]
  }

  /** A full holder is a source that can serve the whole epoch alone. */
  lemma {:induction false} FullHoldersServeAlone(m: Manifest, k: PubKey)
    ensures k in FullHolders(m) <==> k in m.sources && ReconstructsFrom(m, {k}, 1)
  {
    forall b | b in m.holders
      ensures |m.holders[b] * {k}| >= 1 <==> k in m.holders[b]
    {
      if k in m.holders[b] {
        assert m.holders[b] * {k} == {k};
      } else {
        assert m.holders[b] * {k} == {};
      }
    }
  }

  datatype Vote = Vote(voter: PubKey, lastEpoch: Hash, nonce: nat, fromRound: nat, toRound: nat, manifest: Hash)

  datatype Certificate = Certificate(lastEpoch: Hash, nonce: nat, fromRound: nat, toRound: nat, manifest: Hash,
                                     votes: seq<Vote>)

  predicate Matches(v: Vote, c: Certificate) {
    && v.lastEpoch == c.lastEpoch && v.nonce == c.nonce
    && v.fromRound == c.fromRound && v.toRound == c.toRound && v.manifest == c.manifest
  }

  /** Distinct current validators with a matching, correctly signed vote. */
  function ValidVoters(c: Certificate, validators: seq<PubKey>, verifies: Vote -> bool): set<PubKey> {
    set v | v in c.votes && Matches(v, c) && v.voter in validators && verifies(v) :: v.voter
  }

  predicate ValidFor(c: Certificate, validators: seq<PubKey>, verifies: Vote -> bool, lastEpoch: Hash, nonce: nat) {
    && c.toRound > c.fromRound && c.lastEpoch == lastEpoch && c.nonce == nonce
    && HasSupermajority(|validators|, |ValidVoters(c, validators, verifies)|)
  }

  lemma {:induction false} KeySetCount(validators: seq<PubKey>)
    ensures |KeySet(validators)| <= |validators|
  {
    if validators == [] {
      assert KeySet(validators) == {};
    } else {
      var init, last := validators[..|validators| - 1], validators[|validators| - 1];
      KeySetCount(init);
      assert KeySet(validators) == KeySet(init) + {last};
    }
  }

  /** Two certificates valid for one epoch and validator list share more voters
      than can be Byzantine, however the list is composed. */
  lemma {:induction false} CertificatesOverlap(a: Certificate, b: Certificate, validators: seq<PubKey>,
                                               verifies: Vote -> bool,
                                               lastEpoch: Hash, nonce: nat)
    requires ValidFor(a, validators, verifies, lastEpoch, nonce) && ValidFor(b, validators, verifies, lastEpoch, nonce)
    ensures |ValidVoters(a, validators, verifies) * ValidVoters(b, validators, verifies)|
            > ByzantineFaultBound(|validators|)
  {
    var va, vb := ValidVoters(a, validators, verifies), ValidVoters(b, validators, verifies);
    assert va <= KeySet(validators) && vb <= KeySet(validators);
    OverlapSize(va, vb, KeySet(validators));
    KeySetCount(validators);
    OverlapExceedsFaults(|validators|);
  }

  /** This validator voted for what the certificate certifies, and the vote verifies. */
  ghost predicate Signs(c: Certificate, verifies: Vote -> bool, k: PubKey) {
    exists v :: v in c.votes && verifies(v) && v == Vote(k, c.lastEpoch, c.nonce, c.fromRound, c.toRound, c.manifest)
  }

  /** A certificate is valid for an epoch exactly when it names that epoch and a later
      round, and some of its validators sign it, all but at most a third. */
  lemma {:induction false} CertifiesExactly(c: Certificate, validators: seq<PubKey>, verifies: Vote -> bool,
                                            lastEpoch: Hash, nonce: nat)
    ensures ValidFor(c, validators, verifies, lastEpoch, nonce) <==>
              && c.lastEpoch == lastEpoch && c.nonce == nonce && c.fromRound < c.toRound && validators != []
              && exists signers: set<PubKey> ::
                   && signers <= KeySet(validators) && |signers| + |validators| / 3 >= |validators|
                   && forall k :: k in signers ==> Signs(c, verifies, k)
  {
    var voters := ValidVoters(c, validators, verifies);
    SubsetSize(voters, KeySet(validators));
    KeySetCount(validators);
    forall k | k in voters ensures k in validators && Signs(c, verifies, k) {
      var v :| v in c.votes && Matches(v, c) && verifies(v) && v.voter == k;
      assert v == Vote(k, c.lastEpoch, c.nonce, c.fromRound, c.toRound, c.manifest);
    }
    forall signers: set<PubKey> |
      && signers <= KeySet(validators) && |signers| + |validators| / 3 >= |validators|
      && forall k :: k in signers ==> Signs(c, verifies, k)
      ensures |voters| + |validators| / 3 >= |validators|
    {
      forall k | k in signers ensures k in voters {
        var v :| v in c.votes && verifies(v) && v == Vote(k, c.lastEpoch, c.nonce, c.fromRound, c.toRound, c.manifest);
        assert Matches(v, c);
      }
      SubsetSize(signers, voters);
    }
  }

  predicate SameRound(v: Vote, w: Vote) {
    v.voter == w.voter && v.lastEpoch == w.lastEpoch && v.nonce == w.nonce && v.fromRound == w.fromRound
  }

  /** Every validator outside `faulty` signs at most one skip out of a round. */
  ghost predicate HonestVoteOnce(faulty: set<PubKey>, verifies: Vote -> bool) {
    forall v, w :: verifies(v) && verifies(w) && SameRound(v, w) && v.voter !in faulty ==> v == w
  }

  /** With no more faulty validators than the bound, valid certificates out of
      one round of an epoch skip to the same round with the same manifest. */
  lemma {:induction false} CertificatesAgree(a: Certificate, b: Certificate, validators: seq<PubKey>,
                                             verifies: Vote -> bool,
                                             lastEpoch: Hash, nonce: nat, faulty: set<PubKey>)
    requires ValidFor(a, validators, verifies, lastEpoch, nonce) && ValidFor(b, validators, verifies, lastEpoch, nonce)
    requires |faulty| <= ByzantineFaultBound(|validators|) && HonestVoteOnce(faulty, verifies)
    requires a.fromRound == b.fromRound
    ensures a.toRound == b.toRound && a.manifest == b.manifest
  {
    CertificatesOverlap(a, b, validators, verifies, lastEpoch, nonce);
    var shared := ValidVoters(a, validators, verifies) * ValidVoters(b, validators, verifies);
    if shared <= faulty {
      SubsetSize(shared, faulty);
    }
    var k :| k in shared && k !in faulty;
    var v :| v in a.votes && Matches(v, a) && verifies(v) && v.voter == k;
    var w :| w in b.votes && Matches(w, b) && verifies(w) && w.voter == k;
    assert SameRound(v, w);
  }
}
