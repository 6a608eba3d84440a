/**
 Verifier admission at an epoch boundary, and the whole membership transition:
 removals and admissions derived from the same committed blocks.
 */
module NodeAdmission {
  import opened Wrappers
  import opened QuorumSelection
  import opened Supermajority
  import opened NodeRemoval

  predicate ValidAdmission(e: Epoch, a: Admission) {
    a.body.lastEpoch == e.lastEpoch && a.body.nonce == e.nonce && e.admissionVerifies(a)
  }

  /** The first valid admission with this hash; a block counts a hash once. */
  function FirstValid(e: Epoch, adms: seq<Admission>, h: Hash): Option<Admission> {
    if adms == [] then None
    else
      var a := adms[|adms| - 1];
      match FirstValid(e, adms[..|adms| - 1], h)
      case Some(first) => Some(first)
      case None => if ValidAdmission(e, a) && e.admissionHash(a.body) == h then Some(a) else None
  }

  /** A current verifier's block sponsors this admission of a new key. */
  predicate Sponsors(e: Epoch, v: Verifiers, b: Block, h: Hash) {
    && b.validator in v
    && FirstValid(e, b.admissions, h).Some?
    && FirstValid(e, b.admissions, h).value.body.node.key !in v
  }

  /** Distinct current verifiers that sponsor the admission. */
  function SponsorSet(e: Epoch, v: Verifiers, blocks: seq<Block>, h: Hash): (s: set<PubKey>)
    ensures s <= v.Keys
  {
    if blocks == [] then {}
    else
      var b := blocks[|blocks| - 1];
      SponsorSet(e, v, blocks[..|blocks| - 1], h) + (if Sponsors(e, v, b, h) then {b.validator} else {})
  }

  /** The node the first sponsoring block names under this hash. */
  function NodeOf(e: Epoch, v: Verifiers, blocks: seq<Block>, h: Hash): (n: Option<Node>)
    ensures n.Some? <==> SponsorSet(e, v, blocks, h) != {}
    ensures n.Some? ==> n.value.key !in v
  {
    if blocks == [] then None
    else
      var b := blocks[|blocks| - 1];
      match NodeOf(e, v, blocks[..|blocks| - 1], h)
      case Some(node) => Some(node)
      case None => if Sponsors(e, v, b, h) then Some(FirstValid(e, b.admissions, h).value.body.node) else None
  }

  datatype Pending = Pending(node: Node, observers: set<PubKey>)

  ghost predicate PendingAt(pending: map<Hash, Pending>, e: Epoch, v: Verifiers, blocks: seq<Block>, h: Hash) {
    var node := NodeOf(e, v, blocks, h);
    if node.None? then h !in pending else h in pending && pending[h] == Pending(node.value, SponsorSet(e, v, blocks, h))
  }

  ghost predicate PendingOf(pending: map<Hash, Pending>, e: Epoch, v: Verifiers, blocks: seq<Block>) {
    forall h :: PendingAt(pending, e, v, blocks, h)
  }

  function AddSponsor(pending: map<Hash, Pending>, h: Hash, node: Node, observer: PubKey): map<Hash, Pending> {
    pending[h := if h in pending then pending[h].(observers := pending[h].observers + {observer})
                 else Pending(node, {observer})]
  }

  /** The block as far as its first `j` admissions. */
  function Partly(b: Block, j: nat): Block
    requires j <= |b.admissions|
  {
    b.(admissions := b.admissions[..j])
  }

  lemma {:induction false} FirstValidStep(e: Epoch, adms: seq<Admission>, j: nat, h: Hash)
    requires j < |adms|
    ensures FirstValid(e, adms[..j + 1], h)
         == if FirstValid(e, adms[..j], h).Some? then FirstValid(e, adms[..j], h)
            else if ValidAdmission(e, adms[j]) && e.admissionHash(adms[j].body) == h then Some(adms[j]) else None
  {
    assert adms[..j + 1][..j] == adms[..j];
  }

  lemma {:induction false} LastBlock(e: Epoch, v: Verifiers, before: seq<Block>, b: Block, h: Hash)
    ensures SponsorSet(e, v, before + [b], h)
         == SponsorSet(e, v, before, h) + (if Sponsors(e, v, b, h) then {b.validator} else {})
    ensures NodeOf(e, v, before + [b], h)
         == if NodeOf(e, v, before, h).Some? then NodeOf(e, v, before, h)
            else if Sponsors(e, v, b, h) then Some(FirstValid(e, b.admissions, h).value.body.node) else None
  {
    assert (before + [b])[..|before|] == before;
  }

  /** A block whose standing on a hash did not change leaves that hash as it was. */
  lemma {:induction false} Unmoved(pending: map<Hash, Pending>, e: Epoch, v: Verifiers, before: seq<Block>, b: Block,
                                   c: Block, h: Hash)
    requires PendingAt(pending, e, v, before + [b], h) && b.validator == c.validator
    requires Sponsors(e, v, b, h) == Sponsors(e, v, c, h)
    requires Sponsors(e, v, b, h) ==> FirstValid(e, b.admissions, h) == FirstValid(e, c.admissions, h)
    ensures PendingAt(pending, e, v, before + [c], h)
  {
    LastBlock(e, v, before, b, h);
    LastBlock(e, v, before, c, h);
  }

  /** A block that newly sponsors a hash adds its validator there and nowhere else. */
  lemma {:induction false} Sponsored(pending: map<Hash, Pending>, e: Epoch, v: Verifiers, before: seq<Block>,
                                     b: Block, c: Block, h: Hash,
                                     node: Node)
    requires PendingAt(pending, e, v, before + [b], h) && b.validator == c.validator
    requires !Sponsors(e, v, b, h) && Sponsors(e, v, c, h) && FirstValid(e, c.admissions, h).value.body.node == node
    ensures PendingAt(AddSponsor(pending, h, node, c.validator), e, v, before + [c], h)
  {
    LastBlock(e, v, before, b, h);
    LastBlock(e, v, before, c, h);
  }

  /** What one more admission of a block does to the pending ones. */
  lemma {:induction false} OneMoreAdmission(pending: map<Hash, Pending>, next: map<Hash, Pending>, e: Epoch,
                                            v: Verifiers,
                                            before: seq<Block>, b: Block, j: nat)
    requires b.validator in v && j < |b.admissions| && PendingOf(pending, e, v, before + [Partly(b, j)])
    requires var a := b.admissions[j];
             next == if ValidAdmission(e, a) && FirstValid(e, b.admissions[..j], e.admissionHash(a.body)).None?
                        && a.body.node.key !in v
                     then AddSponsor(pending, e.admissionHash(a.body), a.body.node, b.validator) else pending
    ensures PendingOf(next, e, v, before + [Partly(b, j + 1)])
  {
    hide FirstValid, PendingAt, ValidAdmission;
    var a, after := b.admissions[j], before + [Partly(b, j + 1)];
    forall h: Hash ensures PendingAt(next, e, v, after, h) {
      FirstValidStep(e, b.admissions, j, h);
      assert PendingAt(pending, e, v, before + [Partly(b, j)], h);
      if Sponsors(e, v, Partly(b, j), h) == Sponsors(e, v, Partly(b, j + 1), h) {
        Unmoved(pending, e, v, before, Partly(b, j), Partly(b, j + 1), h);
        SameAt(pending, next, e, v, after, h);
      } else {
        Sponsored(pending, e, v, before, Partly(b, j), Partly(b, j + 1), h, a.body.node);
      }
    }
  }

  lemma {:induction false} SameAt(pending: map<Hash, Pending>, next: map<Hash, Pending>, e: Epoch, v: Verifiers,
                                  blocks: seq<Block>, h: Hash)
    requires PendingAt(pending, e, v, blocks, h)
    requires (h in pending <==> h in next) && (h in pending ==> pending[h] == next[h])
    ensures PendingAt(next, e, v, blocks, h)
  {
  }

  lemma {:induction false} NoneYet(pending: map<Hash, Pending>, e: Epoch, v: Verifiers, before: seq<Block>, b: Block)
    requires PendingOf(pending, e, v, before)
    ensures PendingOf(pending, e, v, before + [Partly(b, 0)])
    ensures b.validator !in v ==> PendingOf(pending, e, v, before + [b])
  {
    forall h: Hash
      ensures PendingAt(pending, e, v, before + [Partly(b, 0)], h)
      ensures b.validator !in v ==> PendingAt(pending, e, v, before + [b], h)
    {
      assert PendingAt(pending, e, v, before, h);
      LastBlock(e, v, before, Partly(b, 0), h);
      LastBlock(e, v, before, b, h);
    }
  }

  /** Walks the committed blocks and collects the sponsors of each admission. */
  method CollectAdmissions(e: Epoch, v: Verifiers, blocks: seq<Block>) returns (pending: map<Hash, Pending>)
    ensures PendingOf(pending, e, v, blocks)
  {
    hide PendingOf, FirstValid, ValidAdmission, AddSponsor;
    pending := map[];
    NothingPending(e, v);
    for i := 0 to |blocks|
      invariant PendingOf(pending, e, v, blocks[..i])
    {
      var b := blocks[i];
      assert blocks[..i + 1] == blocks[..i] + [b];
      NoneYet(pending, e, v, blocks[..i], b);
      if b.validator !in v {
        continue;
      }
      var observed: set<Hash> := {};
      NothingObserved(e, b.admissions);
      for j := 0 to |b.admissions|
        invariant PendingOf(pending, e, v, blocks[..i] + [Partly(b, j)])
        invariant forall h: Hash :: h in observed <==> FirstValid(e, b.admissions[..j], h).Some?
      {
        var a := b.admissions[j];
        var h := e.admissionHash(a.body);
        ObservedStep(e, b.admissions, j);
        ghost var before := pending;
        if ValidAdmission(e, a) {
          if h !in observed && a.body.node.key !in v {
            pending := AddSponsor(pending, h, a.body.node, b.validator);
          }
          observed := observed + {h};
        }
        OneMoreAdmission(before, pending, e, v, blocks[..i], b, j);
      }
      assert Partly(b, |b.admissions|) == b;
    }
    assert blocks[..|blocks|] == blocks;
  }

  lemma {:induction false} NothingPending(e: Epoch, v: Verifiers)
    ensures PendingOf(map[], e, v, [])
  {
  }

  lemma {:induction false} NothingObserved(e: Epoch, adms: seq<Admission>)
    ensures forall h: Hash :: FirstValid(e, adms[..0], h).None?
  {
  }

  lemma {:induction false} ObservedStep(e: Epoch, adms: seq<Admission>, j: nat)
    requires j < |adms|
    ensures forall h: Hash :: FirstValid(e, adms[..j + 1], h).Some? <==>
              FirstValid(e, adms[..j], h).Some? || (ValidAdmission(e, adms[j]) && e.admissionHash(adms[j].body) == h)
  {
    forall h: Hash
      ensures FirstValid(e, adms[..j + 1], h).Some? <==>
                FirstValid(e, adms[..j], h).Some? || (ValidAdmission(e, adms[j]) && e.admissionHash(adms[j].body) == h)
    {
      FirstValidStep(e, adms, j, h);
    }
  }

  datatype AdmissionDecision = AdmissionDecision(node: Node, hash: Hash, observers: nat, required: nat)

  /** More sponsors first, then the smaller admission hash. */
  predicate Prefers(a: AdmissionDecision, b: AdmissionDecision) {
    a.observers > b.observers || (a.observers == b.observers && a.hash < b.hash)
  }

  ghost predicate Eligible(e: Epoch, v: Verifiers, blocks: seq<Block>, required: nat, h: Hash) {
    NodeOf(e, v, blocks, h).Some? && |SponsorSet(e, v, blocks, h)| >= required
  }

  ghost function AdmissionFor(e: Epoch, v: Verifiers, blocks: seq<Block>, required: nat, h: Hash): AdmissionDecision
    requires Eligible(e, v, blocks, required, h)
  {
    AdmissionDecision(NodeOf(e, v, blocks, h).value, h, |SponsorSet(e, v, blocks, h)|, required)
  }

  /** Per key the best of these decisions. */
  ghost predicate IsBestOf(byKey: map<PubKey, AdmissionDecision>, all: set<AdmissionDecision>) {
    && (forall k :: k in byKey ==> byKey[k] in all && byKey[k].node.key == k)
    && (forall d :: d in all ==> d.node.key in byKey && (byKey[d.node.key] == d || Prefers(byKey[d.node.key], d)))
  }

  function KeepBest(byKey: map<PubKey, AdmissionDecision>, d: AdmissionDecision): map<PubKey, AdmissionDecision> {
    if d.node.key in byKey && !Prefers(d, byKey[d.node.key]) then byKey else byKey[d.node.key := d]
  }

  /** Hashes are distinct, so of two decisions one is preferred. */
  lemma {:induction false} KeepBestKeepsBest(byKey: map<PubKey, AdmissionDecision>, all: set<AdmissionDecision>,
                                             d: AdmissionDecision)
    requires IsBestOf(byKey, all) && forall x :: x in all ==> x.hash != d.hash
    ensures IsBestOf(KeepBest(byKey, d), all + {d})
  {
  }

  /** The decisions of every eligible admission. */
  ghost predicate AllEligible(e: Epoch, v: Verifiers, blocks: seq<Block>, required: nat, all: set<AdmissionDecision>) {
    && (forall d :: d in all ==>
          && Eligible(e, v, blocks, required, d.hash)
          && d == AdmissionFor(e, v, blocks, required, d.hash))
    && (forall h :: Eligible(e, v, blocks, required, h) ==> AdmissionFor(e, v, blocks, required, h) in all)
  }

  /** Per new key the best supermajority-sponsored admission. */
  ghost predicate IsAdmissionPlan(e: Epoch, v: Verifiers, blocks: seq<Block>, byKey: map<PubKey, AdmissionDecision>) {
    exists all :: AllEligible(e, v, blocks, SupermajorityCount(|v|), all) && IsBestOf(byKey, all)
  }

  /** Reduces the committed blocks to the admissions of the next epoch. */
  method DeriveAdmissionPlan(e: Epoch, v: Verifiers, blocks: seq<Block>) returns (byKey: map<PubKey, AdmissionDecision>)
    ensures v == map[] ==> byKey == map[]
    ensures v != map[] ==> IsAdmissionPlan(e, v, blocks, byKey)
  {
    hide PendingOf, NodeOf, SponsorSet, PendingAt;
    byKey := map[];
    if v == map[] {
      return;
    }
    var required := SupermajorityCount(|v|);
    var pending := CollectAdmissions(e, v, blocks);
    var rest := pending.Keys;
    ghost var all: set<AdmissionDecision> := {};
    PendingMeans(pending, e, v, blocks);
    while rest != {}
      invariant rest <= pending.Keys && IsBestOf(byKey, all)
      invariant forall d :: d in all ==>
        d.hash !in rest && Eligible(e, v, blocks, required, d.hash) && d == AdmissionFor(e, v, blocks, required, d.hash)
      invariant forall h: Hash :: Eligible(e, v, blocks, required, h) ==>
        h in rest || AdmissionFor(e, v, blocks, required, h) in all
      decreases rest
    {
      var h: Hash :| h in rest;
      if |pending[h].observers| >= required {
        var d := AdmissionDecision(pending[h].node, h, |pending[h].observers|, required);
        KeepBestKeepsBest(byKey, all, d);
        byKey := KeepBest(byKey, d);
        all := all + {d};
      }
      rest := rest - {h};
    }
    assert AllEligible(e, v, blocks, required, all);
  }

  lemma {:induction false} PendingMeans(pending: map<Hash, Pending>, e: Epoch, v: Verifiers, blocks: seq<Block>)
    requires PendingOf(pending, e, v, blocks)
    ensures forall h: Hash :: h in pending <==> NodeOf(e, v, blocks, h).Some?
    ensures forall h: Hash :: h in pending ==>
              pending[h].node == NodeOf(e, v, blocks, h).value && pending[h].observers == SponsorSet(e, v, blocks, h)
  {
    forall h: Hash
      ensures h in pending <==> NodeOf(e, v, blocks, h).Some?
      ensures h in pending ==>
                pending[h].node == NodeOf(e, v, blocks, h).value && pending[h].observers == SponsorSet(e, v, blocks, h)
    {
      assert PendingAt(pending, e, v, blocks, h);
    }
  }

  /** Every admitted key is new, sponsored by a supermajority of distinct current
      verifiers, and no eligible admission of the key is preferred to the chosen one. */
  lemma {:induction false} AdmissionIsBest(e: Epoch, v: Verifiers, blocks: seq<Block>, byKey: map<PubKey,
                                           AdmissionDecision>)
    requires v != map[] && IsAdmissionPlan(e, v, blocks, byKey)
    ensures forall k :: k in byKey ==>
              && k !in v && byKey[k].node.key == k
              && SponsorSet(e, v, blocks, byKey[k].hash) <= v.Keys
              && |SponsorSet(e, v, blocks, byKey[k].hash)| >= SupermajorityCount(|v|)
    ensures forall h :: Eligible(e, v, blocks, SupermajorityCount(|v|), h) ==>
              var d := AdmissionFor(e, v, blocks, SupermajorityCount(|v|), h);
              d.node.key in byKey && (byKey[d.node.key] == d || Prefers(byKey[d.node.key], d))
  {
    var all :| AllEligible(e, v, blocks, SupermajorityCount(|v|), all) && IsBestOf(byKey, all);
    forall k | k in byKey
      ensures k !in v && |SponsorSet(e, v, blocks, byKey[k].hash)| >= SupermajorityCount(|v|)
    {
      assert byKey[k] in all;
      assert Eligible(e, v, blocks, SupermajorityCount(|v|), byKey[k].hash);
    }
  }

  lemma {:induction false} EligibleUnique(e: Epoch, v: Verifiers, blocks: seq<Block>, required: nat,
                                          a: set<AdmissionDecision>, b: set<AdmissionDecision>)
    requires AllEligible(e, v, blocks, required, a) && AllEligible(e, v, blocks, required, b)
    ensures a == b
  {
    hide Eligible;
    forall d | d in a ensures d in b {
    }
    forall d | d in b ensures d in a {
    }
  }

  lemma {:induction false} BestUnique(p: map<PubKey, AdmissionDecision>, q: map<PubKey, AdmissionDecision>,
                                      all: set<AdmissionDecision>)
    requires IsBestOf(p, all) && IsBestOf(q, all)
    ensures p == q
  {
    forall k: PubKey
      ensures k in p <==> k in q
      ensures k in p ==> p[k] == q[k]
    {
      if k in p {
        assert p[k] in all;
      }
      if k in q {
        assert q[k] in all;
      }
    }
  }

  /** The blocks determine which admissions are chosen. */
  lemma {:induction false} AdmissionPlanUnique(e: Epoch, v: Verifiers, blocks: seq<Block>,
                                               p: map<PubKey, AdmissionDecision>, q: map<PubKey, AdmissionDecision>)
    requires IsAdmissionPlan(e, v, blocks, p) && IsAdmissionPlan(e, v, blocks, q)
    ensures p == q
  {
    hide AllEligible, IsBestOf;
    var required := SupermajorityCount(|v|);
    var a :| AllEligible(e, v, blocks, required, a) && IsBestOf(p, a);
    var b :| AllEligible(e, v, blocks, required, b) && IsBestOf(q, b);
    EligibleUnique(e, v, blocks, required, a, b);
    BestUnique(p, q, a);
  }

  function RemovedKeys(ds: seq<Decision>): set<PubKey> {
    set i | 0 <= i < |ds| :: ds[i].subject
  }

  /** Takes the removed verifiers out one by one. */
  method ApplyRemovals(v: Verifiers, ds: seq<Decision>) returns (next: Verifiers)
    ensures next == v - RemovedKeys(ds)
  {
    next := v;
    for i := 0 to |ds|
      invariant next == v - RemovedKeys(ds[..i])
    {
      RemovedKeysAppend(ds, i);
      next := next - {ds[i].subject};
    }
    assert ds[..|ds|] == ds;
  }

  lemma {:induction false} RemovedKeysAppend(ds: seq<Decision>, i: nat)
    requires i < |ds|
    ensures RemovedKeys(ds[..i + 1]) == RemovedKeys(ds[..i]) + {ds[i].subject}
  {
    assert ds[..i + 1] == ds[..i] + [ds[i]];
    forall k | k in RemovedKeys(ds[..i]) ensures k in RemovedKeys(ds[..i + 1]) {
      var j :| 0 <= j < i && ds[..i][j].subject == k;
      assert ds[..i + 1][j].subject == k;
    }
    assert ds[..i + 1][i].subject == ds[i].subject;
    forall k | k in RemovedKeys(ds[..i + 1]) ensures k in RemovedKeys(ds[..i]) + {ds[i].subject} {
      var j :| 0 <= j < i + 1 && ds[..i + 1][j].subject == k;
      if j < i {
        assert ds[..i][j].subject == k;
      }
    }
  }

  /** Adds the admitted nodes one by one. */
  method ApplyAdmissions(v: Verifiers, admitted: map<PubKey, AdmissionDecision>) returns (next: Verifiers)
    ensures next.Keys == v.Keys + admitted.Keys
    ensures forall k :: k in next ==> next[k] == if k in admitted then admitted[k].node else v[k]
  {
    next := v;
    var rest := admitted.Keys;
    while rest != {}
      invariant rest <= admitted.Keys
      invariant next.Keys == v.Keys + (admitted.Keys - rest)
      invariant forall k: PubKey :: k in next ==>
        next[k] == if k in admitted && k !in rest then admitted[k].node else v[k]
      decreases rest
    {
      var k: PubKey :| k in rest;
      next := next[k := admitted[k].node];
      rest := rest - {k};
    }
  }

  lemma {:induction false} RemovedWereVerifiers(v: Verifiers, ds: seq<Decision>)
    requires forall i :: 0 <= i < |ds| ==> ds[i].subject in v
    ensures RemovedKeys(ds) <= v.Keys
  {
  }

  /** The verifier set of the next epoch. */
  method EpochTransition(e: Epoch, v: Verifiers, blocks: seq<Block>, p: Policy)
    returns (next: Verifiers, plan: RemovalPlan, admitted: map<PubKey, AdmissionDecision>)
    ensures !p.enabled || |v| == 0 || p.maxRemovals == 0 ==> plan.decisions == []
    ensures p.enabled && |v| > 0 && p.maxRemovals > 0 ==>
              IsRemovalPlan(Accusations(e, v, blocks), RequiredObservers(p, |v|), Budget(v, p), plan.decisions)
    ensures if v == map[] then admitted == map[] else IsAdmissionPlan(e, v, blocks, admitted)
    ensures next.Keys == v.Keys - RemovedKeys(plan.decisions) + admitted.Keys
    ensures RemovedKeys(plan.decisions) !! next.Keys
    ensures forall k :: k in next ==> next[k] == if k in admitted then admitted[k].node else v[k]
    ensures |v| - |plan.decisions| >= Min(|v|, p.minRemaining)
  {
    hide IsRemovalPlan, IsAdmissionPlan, Accusations, RemovedKeys, Eligible, SponsorSet;
    plan := DeriveRemovalPlan(e, v, blocks, p);
    var kept := ApplyRemovals(v, plan.decisions);
    admitted := DeriveAdmissionPlan(e, v, blocks);
    if p.enabled && |v| > 0 && p.maxRemovals > 0 {
      RemovalIsSafe(e, v, blocks, p, plan.decisions);
    }
    RemovedWereVerifiers(v, plan.decisions);
    if v != map[] {
      AdmissionIsBest(e, v, blocks, admitted);
    }
    next := ApplyAdmissions(kept, admitted);
  }
}
