/**
 Verifier removal at an epoch boundary: committed encounter records are reduced
 to a plan that depends only on the set of accusations, not on the order of
 blocks or records.
 */
module NodeRemoval {
  import opened Wrappers
  import opened QuorumSelection
  import opened Supermajority

  type Hash = nat

  datatype Outcome = MissingSignature | InvalidSignature

  datatype Node = Node(key: PubKey, contact: nat)

  datatype Encounter = Encounter(lastEpoch: Hash, nonce: nat, observer: PubKey, subject: PubKey, outcome: Outcome,
                                 signature: nat)

  datatype AdmissionBody = AdmissionBody(lastEpoch: Hash, nonce: nat, node: Node)

  datatype Admission = Admission(body: AdmissionBody, signature: nat)

  datatype Block = Block(validator: PubKey, encounters: seq<Encounter>, admissions: seq<Admission>)

  type Verifiers = map<PubKey, Node>

  /** Signature checks, the admission hash, and the epoch being finalized. */
  datatype Epoch = Epoch(lastEpoch: Hash, nonce: nat, encounterVerifies: Encounter -> bool,
                         admissionVerifies: Admission -> bool, admissionHash: AdmissionBody -> Hash)

  datatype Policy = Policy(enabled: bool, minRemaining: nat, maxRemovals: nat, requiredObservers: Option<nat>)

  function Max(a: nat, b: nat): nat {
    if a >= b then a else b
  }

  function Min(a: nat, b: nat): nat {
    if a <= b then a else b
  }

  /** A policy can only be stricter than the supermajority. */
  function RequiredObservers(p: Policy, verifierCount: nat): nat {
    var supermajority := SupermajorityCount(verifierCount);
    Max(if p.requiredObservers.Some? then p.requiredObservers.value else supermajority, supermajority)
  }

  datatype Accusation = Accusation(observer: PubKey, subject: PubKey, outcome: Outcome)

  function AccusationOf(r: Encounter): Accusation {
    Accusation(r.observer, r.subject, r.outcome)
  }

  /** The record counts: made by the block's own validator, between two different
      current verifiers, for this epoch, correctly signed. */
  predicate Admissible(e: Epoch, v: Verifiers, b: Block, r: Encounter) {
    && b.validator in v
    && r.lastEpoch == e.lastEpoch && r.nonce == e.nonce
    && r.observer == b.validator && r.observer != r.subject
    && r.observer in v && r.subject in v && e.encounterVerifies(r)
  }

  /** All accusations of a block list, as a set. */
  function Accusations(e: Epoch, v: Verifiers, blocks: seq<Block>): set<Accusation> {
    set b, r | b in blocks && r in b.encounters && Admissible(e, v, b, r) :: AccusationOf(r)
  }

  function Accusers(acc: set<Accusation>, s: PubKey): set<PubKey> {
    set a | a in acc && a.subject == s :: a.observer
  }

  /** Accusers with at least one invalid-signature record: invalid dominates missing. */
  function InvalidAccusers(acc: set<Accusation>, s: PubKey): set<PubKey> {
    set a | a in acc && a.subject == s && a.outcome.InvalidSignature? :: a.observer
  }

  datatype Decision = Decision(subject: PubKey, observers: nat, required: nat, missing: nat, invalid: nat)

  lemma {:induction false} InvalidAmongAccusers(acc: set<Accusation>, s: PubKey)
    ensures InvalidAccusers(acc, s) <= Accusers(acc, s)
    ensures |InvalidAccusers(acc, s)| <= |Accusers(acc, s)|
  {
    assert Accusers(acc, s) == InvalidAccusers(acc, s) + (Accusers(acc, s) - InvalidAccusers(acc, s));
  }

  ghost function DecisionFor(acc: set<Accusation>, required: nat, s: PubKey): Decision {
    InvalidAmongAccusers(acc, s);
    Decision(s, |Accusers(acc, s)|, required, |Accusers(acc, s)| - |InvalidAccusers(acc, s)|, |InvalidAccusers(acc, s)|)
  }

  /** More accusers first, then more invalid signatures, then the smaller key. */
  predicate Ranks(a: Decision, b: Decision) {
    || a.observers > b.observers
    || (a.observers == b.observers && a.invalid > b.invalid)
    || (a.observers == b.observers && a.invalid == b.invalid && a.subject < b.subject)
  }

  predicate Ranked(ds: seq<Decision>) {
    forall i, j :: 0 <= i < j < |ds| ==> Ranks(ds[i], ds[j])
  }

  function Budget(v: Verifiers, p: Policy): nat {
    Min(if |v| > p.minRemaining then |v| - p.minRemaining else 0, p.maxRemovals)
  }

  predicate Chosen(ds: seq<Decision>, s: PubKey) {
    exists i :: 0 <= i < |ds| && ds[i].subject == s
  }

  ghost predicate Accused(acc: set<Accusation>, required: nat, s: PubKey) {
    |Accusers(acc, s)| >= required
  }

  /** `ds` holds the best-ranked accused verifiers, as many as the budget allows. */
  ghost predicate IsRemovalPlan(acc: set<Accusation>, required: nat, budget: nat, ds: seq<Decision>) {
    && Ranked(ds) && |ds| <= budget
    && (forall i :: 0 <= i < |ds| ==>
          Accused(acc, required, ds[i].subject) && ds[i] == DecisionFor(acc, required, ds[i].subject))
    && (forall s :: Accused(acc, required, s) && !Chosen(ds, s) ==>
          |ds| == budget && forall i :: 0 <= i < |ds| ==> Ranks(ds[i], DecisionFor(acc, required, s)))
  }

  /** At any position the two plans hold the same decision. */
  lemma {:induction false} SamePlanAt(acc: set<Accusation>, required: nat, budget: nat, p: seq<Decision>,
                                      q: seq<Decision>, i: nat)
    requires IsRemovalPlan(acc, required, budget, p) && IsRemovalPlan(acc, required, budget, q)
    requires i < |p| && i <= |q| && p[..i] == q[..i]
    ensures i < |q| && p[i] == q[i]
  {
    assert Accused(acc, required, p[i].subject);
    SamePrefix(p, q, i);
    if Chosen(q, p[i].subject) {
      var j :| 0 <= j < |q| && q[j].subject == p[i].subject;
      if j > i {
        NotRankedBelow(acc, required, budget, p, q, i);
      }
    } else {
      NotRankedBelow(acc, required, budget, p, q, i);
    }
  }

  lemma {:induction false} SamePrefix(p: seq<Decision>, q: seq<Decision>, i: nat)
    requires i <= |p| && i <= |q| && p[..i] == q[..i]
    ensures forall k :: 0 <= k < i ==> p[k] == q[k]
  {
    forall k | 0 <= k < i ensures p[k] == q[k] {
      assert p[..i][k] == q[..i][k];
    }
  }

  /** With equal prefixes, the next decision of `q` cannot rank before that of `p`. */
  lemma {:induction false} NotRankedBelow(acc: set<Accusation>, required: nat, budget: nat, p: seq<Decision>,
                                          q: seq<Decision>, i: nat)
    requires IsRemovalPlan(acc, required, budget, p) && IsRemovalPlan(acc, required, budget, q)
    requires i < |p| && i < |q| && p[..i] == q[..i]
    ensures !Ranks(q[i], p[i])
  {
    SamePrefix(p, q, i);
    if Chosen(p, q[i].subject) {
      var k :| 0 <= k < |p| && p[k].subject == q[i].subject;
    } else {
      assert Accused(acc, required, q[i].subject);
      assert Ranks(p[i], q[i]);
    }
  }

  /** The accusations determine the plan. */
  lemma {:induction false} PlanPrefixUnique(acc: set<Accusation>, required: nat, budget: nat,
                                            p: seq<Decision>, q: seq<Decision>, n: nat)
    requires IsRemovalPlan(acc, required, budget, p) && IsRemovalPlan(acc, required, budget, q) && n <= |p|
    ensures n <= |q| && p[..n] == q[..n]
  {
    if n > 0 {
      PlanPrefixUnique(acc, required, budget, p, q, n - 1);
      SamePlanAt(acc, required, budget, p, q, n - 1);
      assert p[..n] == p[..n - 1] + [p[n - 1]] && q[..n] == q[..n - 1] + [q[n - 1]];
    }
  }

  lemma {:induction false} RemovalPlanUnique(acc: set<Accusation>, required: nat, budget: nat, p: seq<Decision>,
                                             q: seq<Decision>)
    requires IsRemovalPlan(acc, required, budget, p) && IsRemovalPlan(acc, required, budget, q)
    ensures p == q
  {
    PlanPrefixUnique(acc, required, budget, p, q, |p|);
    PlanPrefixUnique(acc, required, budget, q, p, |q|);
    assert p[..|p|] == p && q[..|q|] == q;
  }

  /** Accusers of a verifier are other current verifiers. */
  lemma {:induction false} AccusersAreVerifiers(e: Epoch, v: Verifiers, blocks: seq<Block>, s: PubKey)
    ensures Accusers(Accusations(e, v, blocks), s) <= v.Keys - {s}
    ensures Accusers(Accusations(e, v, blocks), s) != {} ==> s in v
  {
  }

  /** Whoever is removed is a verifier accused by a supermajority of distinct
      other verifiers, and enough verifiers are kept. */
  lemma {:induction false} RemovalIsSafe(e: Epoch, v: Verifiers, blocks: seq<Block>, p: Policy, ds: seq<Decision>)
    requires |v| > 0
    requires IsRemovalPlan(Accusations(e, v, blocks), RequiredObservers(p, |v|), Budget(v, p), ds)
    ensures forall i :: 0 <= i < |ds| ==>
              && ds[i].subject in v
              && Accusers(Accusations(e, v, blocks), ds[i].subject) <= v.Keys - {ds[i].subject}
              && |Accusers(Accusations(e, v, blocks), ds[i].subject)| >= SupermajorityCount(|v|)
              && ds[i].observers == ds[i].missing + ds[i].invalid
    ensures |ds| <= p.maxRemovals && |v| - |ds| >= Min(|v|, p.minRemaining)
  {
    var acc := Accusations(e, v, blocks);
    forall i | 0 <= i < |ds|
      ensures ds[i].subject in v && Accusers(acc, ds[i].subject) <= v.Keys - {ds[i].subject}
      ensures |Accusers(acc, ds[i].subject)| >= SupermajorityCount(|v|)
    {
      assert Accused(acc, RequiredObservers(p, |v|), ds[i].subject);
      AccusersAreVerifiers(e, v, blocks, ds[i].subject);
    }
  }

  /** Evidence by subject and observer, the strongest outcome winning. */
  type Evidence = map<PubKey, map<PubKey, Outcome>>

  ghost predicate EvidenceAt(evidence: Evidence, acc: set<Accusation>, s: PubKey) {
    && (s in evidence <==> Accusers(acc, s) != {})
    && (s in evidence ==> OutcomesMatch(evidence[s], Accusers(acc, s), InvalidAccusers(acc, s)))
  }

  ghost predicate EvidenceOf(evidence: Evidence, acc: set<Accusation>) {
    forall s :: EvidenceAt(evidence, acc, s)
  }

  /** One subject's evidence with one more accusation. */
  function Merge(known: map<PubKey, Outcome>, a: Accusation): map<PubKey, Outcome> {
    known[a.observer :=
      if a.observer in known && !(known[a.observer].MissingSignature? && a.outcome.InvalidSignature?)
      then known[a.observer] else a.outcome]
  }

  /** Files one accusation. */
  function File(evidence: Evidence, a: Accusation): Evidence {
    evidence[a.subject := Merge(if a.subject in evidence then evidence[a.subject] else map[], a)]
  }

  predicate OutcomesMatch(known: map<PubKey, Outcome>, accusers: set<PubKey>, invalid: set<PubKey>) {
    known.Keys == accusers && forall o :: o in known ==> (known[o].InvalidSignature? <==> o in invalid)
  }

  lemma {:induction false} MergeMatches(known: map<PubKey, Outcome>, accusers: set<PubKey>, invalid: set<PubKey>,
                                        a: Accusation)
    requires OutcomesMatch(known, accusers, invalid) && invalid <= accusers
    ensures OutcomesMatch(Merge(known, a), accusers + {a.observer},
                          if a.outcome.InvalidSignature? then invalid + {a.observer} else invalid)
  {
  }

  lemma {:induction false} AccusersGrow(acc: set<Accusation>, a: Accusation, s: PubKey)
    ensures Accusers(acc + {a}, s) == if a.subject == s then Accusers(acc, s) + {a.observer} else Accusers(acc, s)
    ensures InvalidAccusers(acc + {a}, s)
         == if a.subject == s && a.outcome.InvalidSignature? then InvalidAccusers(acc, s) + {a.observer}
            else InvalidAccusers(acc, s)
  {
  }

  lemma {:induction false} FileKeepsEvidenceAt(evidence: Evidence, acc: set<Accusation>, a: Accusation, s: PubKey)
    requires EvidenceAt(evidence, acc, s)
    ensures EvidenceAt(File(evidence, a), acc + {a}, s)
  {
    hide Accusers, InvalidAccusers, Merge, OutcomesMatch;
    AccusersGrow(acc, a, s);
    InvalidAmongAccusers(acc, s);
    if a.subject == s {
      var known := if s in evidence then evidence[s] else map[];
      if s !in evidence {
        NothingKnown();
      }
      MergeMatches(known, Accusers(acc, s), InvalidAccusers(acc, s), a);
    }
  }

  lemma {:induction false} NothingKnown()
    ensures OutcomesMatch(map[], {}, {})
  {
  }

  lemma {:induction false} FileKeepsEvidence(evidence: Evidence, acc: set<Accusation>, a: Accusation)
    requires EvidenceOf(evidence, acc)
    ensures EvidenceOf(File(evidence, a), acc + {a})
  {
    forall s: PubKey ensures EvidenceAt(File(evidence, a), acc + {a}, s) {
      FileKeepsEvidenceAt(evidence, acc, a, s);
    }
  }

  /** Accusations of the first `i` blocks and the first `j` records of the next. */
  function AccusationsUpTo(e: Epoch, v: Verifiers, blocks: seq<Block>, i: nat, j: nat): set<Accusation>
    requires i < |blocks| && j <= |blocks[i].encounters|
  {
    Accusations(e, v, blocks[..i])
    + set r | r in blocks[i].encounters[..j] && Admissible(e, v, blocks[i], r) :: AccusationOf(r)
  }

  lemma {:induction false} OneMoreRecord(e: Epoch, v: Verifiers, blocks: seq<Block>, i: nat, j: nat)
    requires i < |blocks| && j < |blocks[i].encounters|
    ensures AccusationsUpTo(e, v, blocks, i, j + 1)
         == if Admissible(e, v, blocks[i], blocks[i].encounters[j])
            then AccusationsUpTo(e, v, blocks, i, j) + {AccusationOf(blocks[i].encounters[j])}
            else AccusationsUpTo(e, v, blocks, i, j)
  {
    var rs := blocks[i].encounters;
    assert rs[..j + 1] == rs[..j] + [rs[j]];
  }

  lemma {:induction false} OneMoreBlock(e: Epoch, v: Verifiers, blocks: seq<Block>, i: nat)
    requires i < |blocks|
    ensures AccusationsUpTo(e, v, blocks, i, 0) == Accusations(e, v, blocks[..i])
    ensures AccusationsUpTo(e, v, blocks, i, |blocks[i].encounters|) == Accusations(e, v, blocks[..i + 1])
    ensures blocks[i].validator !in v ==> Accusations(e, v, blocks[..i + 1]) == Accusations(e, v, blocks[..i])
  {
    var rs := blocks[i].encounters;
    assert rs[..|rs|] == rs && rs[..0] == [];
    assert blocks[..i + 1] == blocks[..i] + [blocks[i]];
  }

  /** Walks the committed blocks and files every admissible record. */
  method CollectEvidence(e: Epoch, v: Verifiers, blocks: seq<Block>) returns (evidence: Evidence)
    ensures EvidenceOf(evidence, Accusations(e, v, blocks))
  {
    hide Accusations, EvidenceOf, AccusationsUpTo, Admissible, File;
    evidence := map[];
    NoEvidence(e, v, blocks);
    for i := 0 to |blocks|
      invariant EvidenceOf(evidence, Accusations(e, v, blocks[..i]))
    {
      OneMoreBlock(e, v, blocks, i);
      var b := blocks[i];
      if b.validator !in v {
        continue;
      }
      for j := 0 to |b.encounters|
        invariant EvidenceOf(evidence, AccusationsUpTo(e, v, blocks, i, j))
      {
        OneMoreRecord(e, v, blocks, i, j);
        var r := b.encounters[j];
        if Admissible(e, v, b, r) {
          FileKeepsEvidence(evidence, AccusationsUpTo(e, v, blocks, i, j), AccusationOf(r));
          evidence := File(evidence, AccusationOf(r));
        }
      }
    }
    assert blocks[..|blocks|] == blocks;
  }

  lemma {:induction false} NoEvidence(e: Epoch, v: Verifiers, blocks: seq<Block>)
    ensures EvidenceOf(map[], Accusations(e, v, blocks[..0]))
  {
    assert Accusations(e, v, blocks[..0]) == {};
    forall s: PubKey ensures EvidenceAt(map[], {}, s) {
    }
  }

  function InvalidOf(m: map<PubKey, Outcome>): set<PubKey> {
    set o | o in m && m[o].InvalidSignature?
  }

  /** Counts the two outcomes over the observers of one subject. */
  method CountOutcomes(m: map<PubKey, Outcome>) returns (missing: nat, invalid: nat)
    ensures invalid == |InvalidOf(m)| && missing + invalid == |m|
  {
    missing, invalid := 0, 0;
    var rest := m.Keys;
    ghost var seen: set<PubKey> := {};
    while rest != {}
      invariant rest <= m.Keys && invalid == |seen| && missing + invalid + |rest| == |m|
      invariant forall o: PubKey :: o in seen <==> o in InvalidOf(m) && o !in rest
      decreases rest
    {
      var o: PubKey :| o in rest;
      match m[o] {
        case MissingSignature => missing := missing + 1;
        case InvalidSignature =>
          invalid := invalid + 1;
          seen := seen + {o};
      }
      rest := rest - {o};
    }
    assert seen == InvalidOf(m);
  }

  lemma {:induction false} OutcomesAreCounts(evidence: Evidence, acc: set<Accusation>, s: PubKey)
    requires EvidenceAt(evidence, acc, s) && s in evidence
    ensures |evidence[s]| == |Accusers(acc, s)| && |InvalidOf(evidence[s])| == |InvalidAccusers(acc, s)|
  {
    InvalidAmongAccusers(acc, s);
    assert |evidence[s].Keys| == |evidence[s]|;
    assert InvalidOf(evidence[s]) == InvalidAccusers(acc, s);
  }

  /** Inserts a decision at its rank. */
  method InsertRanked(ds: seq<Decision>, d: Decision) returns (r: seq<Decision>)
    requires Ranked(ds) && forall i :: 0 <= i < |ds| ==> ds[i].subject != d.subject
    ensures Ranked(r) && |r| == |ds| + 1
    ensures forall x :: x in r <==> x in ds || x == d
  {
    var j := |ds|;
    while j > 0 && Ranks(d, ds[j - 1])
      invariant 0 <= j <= |ds|
      invariant forall k :: j <= k < |ds| ==> Ranks(d, ds[k])
    {
      j := j - 1;
    }
    r := ds[..j] + [d] + ds[j..];
    assert ds == ds[..j] + ds[j..];
    RankedInsert(ds, d, j);
  }

  lemma {:induction false} RankedInsert(ds: seq<Decision>, d: Decision, j: nat)
    requires Ranked(ds) && j <= |ds| && (forall i :: 0 <= i < |ds| ==> ds[i].subject != d.subject)
    requires forall k :: j <= k < |ds| ==> Ranks(d, ds[k])
    requires j > 0 ==> !Ranks(d, ds[j - 1])
    ensures Ranked(ds[..j] + [d] + ds[j..])
  {
    forall k | 0 <= k < j ensures Ranks(ds[k], d) {
      if k < j - 1 {
        assert Ranks(ds[k], ds[j - 1]);
      }
    }
  }

  /** Every accused verifier with its counts, best rank first. */
  method RankCandidates(evidence: Evidence, ghost acc: set<Accusation>, required: nat) returns (ds: seq<Decision>)
    requires EvidenceOf(evidence, acc) && required > 0
    ensures Ranked(ds)
    ensures forall i :: 0 <= i < |ds| ==>
              Accused(acc, required, ds[i].subject) && ds[i] == DecisionFor(acc, required, ds[i].subject)
    ensures forall s :: Accused(acc, required, s) ==> Chosen(ds, s)
  {
    hide Accusers, InvalidAccusers;
    ds := [];
    var rest := evidence.Keys;
    while rest != {}
      invariant rest <= evidence.Keys && Ranked(ds)
      invariant forall x :: x in ds ==>
        x.subject in evidence && x.subject !in rest && Accused(acc, required, x.subject)
        && x == DecisionFor(acc, required, x.subject)
      invariant forall s :: s in evidence && s !in rest && Accused(acc, required, s) ==>
        DecisionFor(acc, required, s) in ds
      decreases rest
    {
      var s: PubKey :| s in rest;
      assert EvidenceAt(evidence, acc, s);
      OutcomesAreCounts(evidence, acc, s);
      InvalidAmongAccusers(acc, s);
      if |evidence[s]| >= required {
        var missing, invalid := CountOutcomes(evidence[s]);
        var d := Decision(s, |evidence[s]|, required, missing, invalid);
        ds := InsertRanked(ds, d);
      }
      rest := rest - {s};
    }
    forall s | Accused(acc, required, s) ensures Chosen(ds, s) {
      assert EvidenceAt(evidence, acc, s);
      assert DecisionFor(acc, required, s) in ds;
    }
  }

  datatype RemovalPlan = RemovalPlan(decisions: seq<Decision>, retained: nat)

  /** Reduces the committed blocks to the removals of the next epoch. */
  method DeriveRemovalPlan(e: Epoch, v: Verifiers, blocks: seq<Block>, p: Policy) returns (plan: RemovalPlan)
    ensures !p.enabled || |v| == 0 || p.maxRemovals == 0 ==> plan == RemovalPlan([], |v|)
    ensures p.enabled && |v| > 0 && p.maxRemovals > 0 ==>
              && IsRemovalPlan(Accusations(e, v, blocks), RequiredObservers(p, |v|), Budget(v, p), plan.decisions)
              && plan.retained == |v| - |plan.decisions|
  {
    hide Accusations, EvidenceOf;
    if !p.enabled || |v| == 0 || p.maxRemovals == 0 {
      return RemovalPlan([], |v|);
    }
    var required := RequiredObservers(p, |v|);
    var evidence := CollectEvidence(e, v, blocks);
    ghost var acc := Accusations(e, v, blocks);
    var candidates := RankCandidates(evidence, acc, required);
    var budget := Budget(v, p);
    var kept := if |candidates| > budget then candidates[..budget] else candidates;
    TruncatedPlan(acc, required, budget, candidates, kept);
    return RemovalPlan(kept, |v| - |kept|);
  }

  lemma {:induction false} TruncatedPlan(acc: set<Accusation>, required: nat, budget: nat, all: seq<Decision>,
                                         kept: seq<Decision>)
    requires Ranked(all) && (forall s :: Accused(acc, required, s) ==> Chosen(all, s))
    requires forall i :: 0 <= i < |all| ==>
               Accused(acc, required, all[i].subject) && all[i] == DecisionFor(acc, required, all[i].subject)
    requires kept == if |all| > budget then all[..budget] else all
    ensures IsRemovalPlan(acc, required, budget, kept)
  {
    hide Accusers, InvalidAccusers;
    forall k | 0 <= k < |kept| ensures Chosen(kept, all[k].subject) {
      assert kept[k] == all[k];
    }
    forall s | Accused(acc, required, s) && !Chosen(kept, s)
      ensures |kept| == budget && forall i :: 0 <= i < |kept| ==> Ranks(kept[i], DecisionFor(acc, required, s))
    {
      var j :| 0 <= j < |all| && all[j].subject == s;
    }
  }
}
