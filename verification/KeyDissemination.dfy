/**
 Dissemination in terms of what the nodes compute: when every node unions the
 blocks held by the keys in its own quorum list, round by round, the last round
 leaves every node with the block of every key.
 */
module KeyDissemination {
  import opened Topology
  import opened QuorumSelection
  import opened Dissemination
  import opened Participation

  /** One quorum list per round for every position, all from one ordering. */
  ghost predicate AllSelected(keys: seq<PubKey>, ordered: seq<nat>, q: nat, lists: seq<seq<seq<PubKey>>>) {
    && |keys| == |ordered| == |lists| && IsOrdering(ordered) && StrictlySorted(keys) && q >= 2
    && forall p :: 0 <= p < |ordered| ==> IsQuorumMatrix(lists[p], keys, ordered, q, p)
  }

  /** The node at `p` holds the block of key `k` after `r` rounds. */
  ghost predicate HoldsKey(keys: seq<PubKey>, ordered: seq<nat>, q: nat, lists: seq<seq<seq<PubKey>>>, r: nat, p: nat,
                           k: PubKey)
    requires AllSelected(keys, ordered, q, lists) && p < |ordered| && r <= Rounds(|ordered|, q)
    decreases r, 1
  {
    if r == 0 then k == KeyAt(keys, ordered, p)
    else exists u: nat :: PassesKey(keys, ordered, q, lists, r, p, u, k)
  }

  /** In the `r`-th round `p` gets the block of `k` from `u`, whom it has listed. */
  ghost predicate PassesKey(keys: seq<PubKey>, ordered: seq<nat>, q: nat, lists: seq<seq<seq<PubKey>>>, r: nat, p: nat,
                            u: nat, k: PubKey)
    requires AllSelected(keys, ordered, q, lists) && p < |ordered| && 1 <= r <= Rounds(|ordered|, q)
    decreases r, 0
  {
    u < |ordered| && KeyAt(keys, ordered, u) in lists[p][r - 1] && HoldsKey(keys, ordered, q, lists, r - 1, u, k)
  }

  /** A key is in a node's list for a round iff the two positions meet in it. */
  lemma {:induction false} ListedIffMeets(keys: seq<PubKey>, ordered: seq<nat>, q: nat, lists: seq<seq<seq<PubKey>>>,
                                          r: nat, p: nat, u: nat)
    requires AllSelected(keys, ordered, q, lists) && p < |ordered| && u < |ordered| && r < Rounds(|ordered|, q)
    ensures KeyAt(keys, ordered, u) in lists[p][r] <==> Meets(|ordered|, q, r, p, u)
  {
    hide Meets;
    assert Elements(lists[p][r]) == QuorumKeys(keys, ordered, q, r, p);
    assert KeyAt(keys, ordered, u) in lists[p][r] <==> KeyAt(keys, ordered, u) in Elements(lists[p][r]);
    InQuorumKeys(keys, ordered, q, r, p, u);
  }

  /** The keys held are those of the positions whose blocks have arrived. */
  lemma {:induction false} HeldIffHolds(keys: seq<PubKey>, ordered: seq<nat>, q: nat, lists: seq<seq<seq<PubKey>>>,
                                        r: nat, p: nat, t: nat)
    requires AllSelected(keys, ordered, q, lists) && p < |ordered| && t < |ordered| && r <= Rounds(|ordered|, q)
    ensures HoldsKey(keys, ordered, q, lists, r, p, KeyAt(keys, ordered, t)) <==> Holds(|ordered|, q, r, p, t)
    decreases r
  {
    hide Meets, KeyAt, QuorumKeys, StrictlySorted, Elements;
    var n, k := |ordered|, KeyAt(keys, ordered, t);
    if r == 0 {
      if k == KeyAt(keys, ordered, p) {
        KeysDiffer(keys, ordered, q, lists, t, p);
      }
    } else {
      forall u: nat
        ensures PassesKey(keys, ordered, q, lists, r, p, u, k) <==> Relays(n, q, r, p, u, t)
      {
        if u < n {
          ListedIffMeets(keys, ordered, q, lists, r - 1, p, u);
          HeldIffHolds(keys, ordered, q, lists, r - 1, u, t);
        }
      }
    }
  }

  lemma {:induction false} KeysDiffer(keys: seq<PubKey>, ordered: seq<nat>, q: nat, lists: seq<seq<seq<PubKey>>>,
                                      a: nat, b: nat)
    requires AllSelected(keys, ordered, q, lists) && a < |ordered| && b < |ordered|
    requires KeyAt(keys, ordered, a) == KeyAt(keys, ordered, b)
    ensures a == b
  {
    PositionUnique(keys, ordered, KeyAt(keys, ordered, a), a, b);
  }

  /** With at least one full quorum of nodes, under every ordering, every node
      ends up holding the block of every key. */
  lemma {:induction false} EveryKeyReachesEveryNode(keys: seq<PubKey>, ordered: seq<nat>, q: nat,
                                                    lists: seq<seq<seq<PubKey>>>, p: nat, i: nat)
    requires AllSelected(keys, ordered, q, lists) && |keys| >= q && p < |ordered| && i < |keys|
    ensures HoldsKey(keys, ordered, q, lists, Rounds(|ordered|, q), p, keys[i])
  {
    hide HoldsKey;
    EveryIndexListed(ordered, i);
    var t: nat :| t < |ordered| && ordered[t] == i;
    EverythingReaches(|ordered|, q, p, t);
    HeldIffHolds(keys, ordered, q, lists, Rounds(|ordered|, q), p, t);
  }
}
