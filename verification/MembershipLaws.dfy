/**
 What the epoch membership plans mean, stated over blocks and records: who accused
 or sponsored whom with a record that counts, and what that makes of each verifier.
 */
module MembershipLaws {
  import opened Wrappers
  import opened QuorumSelection
  import opened Supermajority
  import opened NodeRemoval
  import opened NodeAdmission

  /** Verifier `o` put a record of this epoch against verifier `s` into its own
      block, correctly signed. */
  ghost predicate Against(e: Epoch, v: Verifiers, b: Block, r: Encounter, o: PubKey, s: PubKey) {
    && r in b.encounters && b.validator == o && r.observer == o && r.subject == s && o != s && o in v && s in v
    && r.lastEpoch == e.lastEpoch && r.nonce == e.nonce && e.encounterVerifies(r)
  }

  ghost predicate Accuses(e: Epoch, v: Verifiers, blocks: seq<Block>, o: PubKey, s: PubKey) {
    exists b, r :: b in blocks && Against(e, v, b, r, o, s)
  }

  /** One of those records reports an invalid signature. */
  ghost predicate AccusesInvalid(e: Epoch, v: Verifiers, blocks: seq<Block>, o: PubKey, s: PubKey) {
    exists b, r :: b in blocks && Against(e, v, b, r, o, s) && r.outcome == InvalidSignature
  }

  lemma {:induction false} AccuserMeans(e: Epoch, v: Verifiers, blocks: seq<Block>, o: PubKey, s: PubKey)
    ensures o in Accusers(Accusations(e, v, blocks), s) <==> Accuses(e, v, blocks, o, s)
    ensures o in InvalidAccusers(Accusations(e, v, blocks), s) <==> AccusesInvalid(e, v, blocks, o, s)
  {
    var acc := Accusations(e, v, blocks);
    if b, r :| b in blocks && Against(e, v, b, r, o, s) {
      assert Admissible(e, v, b, r) && AccusationOf(r) in acc;
    }
    if b, r :| b in blocks && Against(e, v, b, r, o, s) && r.outcome == InvalidSignature {
      assert Admissible(e, v, b, r) && AccusationOf(r) in acc;
    }
    if o in Accusers(acc, s) {
      var a :| a in acc && a.subject == s && a.observer == o;
      var b, r :| b in blocks && r in b.encounters && Admissible(e, v, b, r) && AccusationOf(r) == a;
      assert Against(e, v, b, r, o, s);
    }
    if o in InvalidAccusers(acc, s) {
      var a :| a in acc && a.subject == s && a.outcome.InvalidSignature? && a.observer == o;
      var b, r :| b in blocks && r in b.encounters && Admissible(e, v, b, r) && AccusationOf(r) == a;
      assert Against(e, v, b, r, o, s);
    }
  }

  /** All accusers of `s`, and those that report an invalid signature. */
  ghost function AccusersOf(e: Epoch, v: Verifiers, blocks: seq<Block>, s: PubKey): set<PubKey> {
    set o | o in v && Accuses(e, v, blocks, o, s)
  }

  ghost function InvalidAccusersOf(e: Epoch, v: Verifiers, blocks: seq<Block>, s: PubKey): set<PubKey> {
    set o | o in v && AccusesInvalid(e, v, blocks, o, s)
  }

  lemma {:induction false} AccusersMean(e: Epoch, v: Verifiers, blocks: seq<Block>, s: PubKey)
    ensures Accusers(Accusations(e, v, blocks), s) == AccusersOf(e, v, blocks, s)
    ensures InvalidAccusers(Accusations(e, v, blocks), s) == InvalidAccusersOf(e, v, blocks, s)
  {
    hide Accusers, InvalidAccusers, Accusations, Accuses, AccusesInvalid;
    AccusersAreVerifiers(e, v, blocks, s);
    InvalidAmongAccusers(Accusations(e, v, blocks), s);
    forall o: PubKey
      ensures o in Accusers(Accusations(e, v, blocks), s) <==> Accuses(e, v, blocks, o, s)
      ensures o in InvalidAccusers(Accusations(e, v, blocks), s) <==> AccusesInvalid(e, v, blocks, o, s)
    {
      AccuserMeans(e, v, blocks, o, s);
    }
  }

  /** How many observers a removal takes: never fewer than leave at most a third of
      the verifiers out. */
  ghost predicate Enough(p: Policy, verifiers: nat, observers: nat) {
    && observers + verifiers / 3 >= verifiers
    && (p.requiredObservers.Some? ==> observers >= p.requiredObservers.value)
  }

  lemma {:induction false} EnoughExactly(p: Policy, verifiers: nat, observers: nat)
    ensures observers >= RequiredObservers(p, verifiers) <==> Enough(p, verifiers, observers)
  {
  }

  /** Whom a removal plan names, with which counts, in which order, and who is left
      out: by number of accusers, then of invalid signatures, then by key, as many as
      the policy allows and no more than leave the minimum. */
  lemma {:induction false} RemovalPlanMeans(e: Epoch, v: Verifiers, blocks: seq<Block>, p: Policy, ds: seq<Decision>)
    requires IsRemovalPlan(Accusations(e, v, blocks), RequiredObservers(p, |v|), Budget(v, p), ds)
    ensures forall i :: 0 <= i < |ds| ==>
              var accusers := AccusersOf(e, v, blocks, ds[i].subject);
              && Enough(p, |v|, |accusers|) && ds[i].observers == |accusers|
              && ds[i].invalid == |InvalidAccusersOf(e, v, blocks, ds[i].subject)|
              && ds[i].missing == |accusers| - ds[i].invalid
              && forall n: nat :: n >= ds[i].required <==> Enough(p, |v|, n)
    ensures forall i, j :: 0 <= i < j < |ds| ==>
              || ds[i].observers > ds[j].observers
              || (ds[i].observers == ds[j].observers && ds[i].invalid > ds[j].invalid)
              || (ds[i].observers == ds[j].observers && ds[i].invalid == ds[j].invalid
                  && ds[i].subject < ds[j].subject)
    ensures |ds| <= p.maxRemovals && (ds != [] ==> |v| - |ds| >= p.minRemaining)
    ensures forall s :: s in v && Enough(p, |v|, |AccusersOf(e, v, blocks, s)|)
                        && (forall i :: 0 <= i < |ds| ==> ds[i].subject != s) ==>
              && (|ds| == p.maxRemovals || |v| - |ds| <= p.minRemaining)
              && forall i :: 0 <= i < |ds| ==>
                   || ds[i].observers > |AccusersOf(e, v, blocks, s)|
                   || (ds[i].observers == |AccusersOf(e, v, blocks, s)|
                       && (|| ds[i].invalid > |InvalidAccusersOf(e, v, blocks, s)|
                           || (ds[i].invalid == |InvalidAccusersOf(e, v, blocks, s)| && ds[i].subject < s)))
  {
    hide Accusers, InvalidAccusers, Accusations, RequiredObservers;
    var acc := Accusations(e, v, blocks);
    forall i | 0 <= i < |ds|
      ensures var accusers := AccusersOf(e, v, blocks, ds[i].subject);
              && Enough(p, |v|, |accusers|) && ds[i].observers == |accusers|
              && ds[i].invalid == |InvalidAccusersOf(e, v, blocks, ds[i].subject)|
              && ds[i].missing == |accusers| - ds[i].invalid
              && forall n: nat :: n >= ds[i].required <==> Enough(p, |v|, n)
    {
      assert Accused(acc, RequiredObservers(p, |v|), ds[i].subject);
      AccusersMean(e, v, blocks, ds[i].subject);
      forall n: nat ensures n >= ds[i].required <==> Enough(p, |v|, n) {
        EnoughExactly(p, |v|, n);
      }
    }
    forall i, j | 0 <= i < j < |ds| ensures Ranks(ds[i], ds[j]) {
    }
    forall s | s in v && Enough(p, |v|, |AccusersOf(e, v, blocks, s)|)
               && (forall i :: 0 <= i < |ds| ==> ds[i].subject != s)
      ensures |ds| == Budget(v, p)
      ensures forall i :: 0 <= i < |ds| ==>
                || ds[i].observers > |AccusersOf(e, v, blocks, s)|
                || (ds[i].observers == |AccusersOf(e, v, blocks, s)|
                    && (|| ds[i].invalid > |InvalidAccusersOf(e, v, blocks, s)|
                        || (ds[i].invalid == |InvalidAccusersOf(e, v, blocks, s)| && ds[i].subject < s)))
    {
      AccusersMean(e, v, blocks, s);
      EnoughExactly(p, |v|, |AccusersOf(e, v, blocks, s)|);
      assert Accused(acc, RequiredObservers(p, |v|), s) && !Chosen(ds, s);
      assert forall i :: 0 <= i < |ds| ==> Ranks(ds[i], DecisionFor(acc, RequiredObservers(p, |v|), s));
    }
  }

  /** The admission at this place of the block is valid for the epoch, has the hash,
      and is the first such. */
  ghost predicate FirstAt(e: Epoch, adms: seq<Admission>, h: Hash, j: nat) {
    && j < |adms| && Genuine(e, adms[j], h) && forall i :: 0 <= i < j ==> !Genuine(e, adms[i], h)
  }

  predicate Genuine(e: Epoch, a: Admission, h: Hash) {
    && a.body.lastEpoch == e.lastEpoch && a.body.nonce == e.nonce && e.admissionVerifies(a)
    && e.admissionHash(a.body) == h
  }

  lemma {:induction false} FirstValidMeans(e: Epoch, adms: seq<Admission>, h: Hash)
    ensures FirstValid(e, adms, h).None? <==> forall i :: 0 <= i < |adms| ==> !Genuine(e, adms[i], h)
    ensures forall j: nat :: FirstAt(e, adms, h, j) ==> FirstValid(e, adms, h) == Some(adms[j])
    ensures FirstValid(e, adms, h).Some? ==>
              exists j: nat :: FirstAt(e, adms, h, j) && FirstValid(e, adms, h) == Some(adms[j])
  {
    if adms != [] {
      var n := |adms| - 1;
      var init := adms[..n];
      FirstValidMeans(e, init, h);
      assert forall i :: 0 <= i < n ==> init[i] == adms[i];
      if FirstValid(e, init, h).Some? {
        var j: nat :| FirstAt(e, init, h, j) && FirstValid(e, init, h) == Some(init[j]);
        assert FirstAt(e, adms, h, j);
        forall i: nat | FirstAt(e, adms, h, i) ensures i == j {
          assert Genuine(e, adms[j], h);
        }
      } else {
        if Genuine(e, adms[n], h) {
          assert FirstAt(e, adms, h, n);
        }
        assert forall i :: 0 <= i < n ==> adms[i] == init[i] && !Genuine(e, adms[i], h);
      }
    }
  }

  /** The block of a current verifier whose first genuine admission of this hash is
      for a key that is not a verifier yet, and the node it names. */
  ghost predicate SponsorsNode(e: Epoch, v: Verifiers, b: Block, h: Hash, node: Node) {
    && b.validator in v && node.key !in v
    && exists j: nat :: FirstAt(e, b.admissions, h, j) && b.admissions[j].body.node == node
  }

  lemma {:induction false} SponsorsMeans(e: Epoch, v: Verifiers, b: Block, h: Hash)
    ensures Sponsors(e, v, b, h) <==> exists node :: SponsorsNode(e, v, b, h, node)
    ensures forall node :: SponsorsNode(e, v, b, h, node) ==>
              Sponsors(e, v, b, h) && FirstValid(e, b.admissions, h).value.body.node == node
  {
    FirstValidMeans(e, b.admissions, h);
    if Sponsors(e, v, b, h) {
      var j: nat :| FirstAt(e, b.admissions, h, j) && FirstValid(e, b.admissions, h) == Some(b.admissions[j]);
      assert SponsorsNode(e, v, b, h, b.admissions[j].body.node);
    }
  }

  /** The sponsors of an admission are the validators of the blocks that sponsor it. */
  lemma {:induction false} SponsorSetMeans(e: Epoch, v: Verifiers, blocks: seq<Block>, h: Hash, o: PubKey)
    ensures o in SponsorSet(e, v, blocks, h) <==>
              exists b, node :: b in blocks && b.validator == o && SponsorsNode(e, v, b, h, node)
  {
    if blocks != [] {
      var n := |blocks| - 1;
      var init, last := blocks[..n], blocks[n];
      SponsorSetMeans(e, v, init, h, o);
      SponsorsMeans(e, v, last, h);
      if o in SponsorSet(e, v, init, h) {
        var b, node :| b in init && b.validator == o && SponsorsNode(e, v, b, h, node);
        assert b in blocks;
      } else if o in SponsorSet(e, v, blocks, h) {
        var node :| SponsorsNode(e, v, last, h, node);
        assert last in blocks && last.validator == o;
      }
      if b, node :| b in blocks && b.validator == o && SponsorsNode(e, v, b, h, node) {
        if b != last {
          assert b in init;
        }
      }
    }
  }

  /** The node an admission stands for is the one its first sponsoring block names. */
  lemma {:induction false} NodeOfMeans(e: Epoch, v: Verifiers, blocks: seq<Block>, h: Hash, i: nat, node: Node)
    requires i < |blocks| && SponsorsNode(e, v, blocks[i], h, node)
    requires forall j, other :: 0 <= j < i ==> !SponsorsNode(e, v, blocks[j], h, other)
    ensures NodeOf(e, v, blocks, h) == Some(node)
  {
    var n := |blocks| - 1;
    if i == n {
      NoneBefore(e, v, blocks[..n], h);
      SponsorsMeans(e, v, blocks[n], h);
    } else {
      NodeOfMeans(e, v, blocks[..n], h, i, node);
    }
  }

  lemma {:induction false} NoneBefore(e: Epoch, v: Verifiers, blocks: seq<Block>, h: Hash)
    requires forall j, other :: 0 <= j < |blocks| ==> !SponsorsNode(e, v, blocks[j], h, other)
    ensures NodeOf(e, v, blocks, h).None?
  {
    if blocks != [] {
      var n := |blocks| - 1;
      NoneBefore(e, v, blocks[..n], h);
      SponsorsMeans(e, v, blocks[n], h);
    }
  }

  /** At most a third of the verifiers does not sponsor the admission. */
  ghost predicate WidelySponsored(e: Epoch, v: Verifiers, blocks: seq<Block>, h: Hash) {
    NodeOf(e, v, blocks, h).Some? && |SponsorSet(e, v, blocks, h)| + |v| / 3 >= |v|
  }

  /** An admission plan admits exactly the keys of widely sponsored admissions, each
      with the node, hash and count of one of them, and no other widely sponsored
      admission of the key has more sponsors, or as many and a smaller hash. */
  lemma {:induction false} AdmissionPlanMeans(e: Epoch, v: Verifiers, blocks: seq<Block>,
                                              byKey: map<PubKey, AdmissionDecision>)
    requires IsAdmissionPlan(e, v, blocks, byKey)
    ensures forall k :: k in byKey ==>
              && WidelySponsored(e, v, blocks, byKey[k].hash)
              && NodeOf(e, v, blocks, byKey[k].hash) == Some(byKey[k].node) && byKey[k].node.key == k
              && byKey[k].observers == |SponsorSet(e, v, blocks, byKey[k].hash)|
              && byKey[k].required + |v| / 3 == |v|
    ensures forall h :: WidelySponsored(e, v, blocks, h) ==>
              var k := NodeOf(e, v, blocks, h).value.key;
              && k in byKey
              && (byKey[k].hash == h || byKey[k].observers > |SponsorSet(e, v, blocks, h)|
                  || (byKey[k].observers == |SponsorSet(e, v, blocks, h)| && byKey[k].hash < h))
  {
    hide NodeOf, SponsorSet;
    var required := SupermajorityCount(|v|);
    var all :| AllEligible(e, v, blocks, required, all) && IsBestOf(byKey, all);
    forall k | k in byKey
      ensures WidelySponsored(e, v, blocks, byKey[k].hash) && byKey[k].node.key == k
      ensures NodeOf(e, v, blocks, byKey[k].hash) == Some(byKey[k].node)
      ensures byKey[k].observers == |SponsorSet(e, v, blocks, byKey[k].hash)|
      ensures byKey[k].required + |v| / 3 == |v|
    {
      assert byKey[k] in all;
    }
    forall h | WidelySponsored(e, v, blocks, h)
      ensures var k := NodeOf(e, v, blocks, h).value.key;
              && k in byKey
              && (byKey[k].hash == h || byKey[k].observers > |SponsorSet(e, v, blocks, h)|
                  || (byKey[k].observers == |SponsorSet(e, v, blocks, h)| && byKey[k].hash < h))
    {
      assert Eligible(e, v, blocks, required, h);
      assert AdmissionFor(e, v, blocks, required, h) in all;
    }
  }
}
