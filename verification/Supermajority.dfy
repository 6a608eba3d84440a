/** Supermajority thresholds over a validator population. */
module Supermajority {
  function SupermajorityCount(total: nat): nat {
    total - total / 3
  }

  predicate HasSupermajority(total: nat, count: nat) {
    total > 0 && count <= total && count >= SupermajorityCount(total)
  }

  function ByzantineFaultBound(total: nat): nat {
    (if total > 0 then total - 1 else 0) / 3
  }

  /** The fault bound is the greatest number of faults below a third. */
  lemma {:induction false} FaultBoundIsGreatest(total: nat, f: nat)
    requires total > 0
    ensures 3 * f < total <==> f <= ByzantineFaultBound(total)
  {
  }

  /** Two supermajorities out of one population overlap beyond the fault bound. */
  lemma {:induction false} OverlapExceedsFaults(total: nat)
    requires total > 0
    ensures 2 * SupermajorityCount(total) - total > ByzantineFaultBound(total)
  {
    assert total == 3 * (total / 3) + total % 3;
  }

  /** The threshold is the least count that guarantees such an overlap: two groups
      of `count` overlap in more than every number of faults below a third exactly
      when `count` reaches it. */
  lemma {:induction false} ThresholdIsLeast(total: nat, count: nat)
    requires total > 0
    ensures count >= SupermajorityCount(total) <==>
              forall f: nat :: 3 * f < total ==> 2 * count - total > f
    ensures HasSupermajority(total, count) <==>
              count <= total && forall f: nat :: 3 * f < total ==> 2 * count - total > f
  {
    var b := ByzantineFaultBound(total);
    OverlapExceedsFaults(total);
    assert total == 3 * (total / 3) + total % 3;
    forall f: nat | 3 * f < total ensures f <= b {
      FaultBoundIsGreatest(total, f);
    }
    FaultBoundIsGreatest(total, b);
    if count < SupermajorityCount(total) {
      assert 3 * b < total && 2 * count - total <= b;
    }
  }
}
