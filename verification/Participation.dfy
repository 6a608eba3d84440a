/**
 What one node gets from the epoch's public inputs: its quorums and its prefill
 recipients, and how the views of different nodes fit together.
 */
module Participation {
  import opened Wrappers
  import opened Arithmetic
  import opened Topology
  import opened QuorumSelection
  import opened FiniteSets

  method IndexOf(s: seq<nat>, x: nat) returns (r: Option<nat>)
    ensures r.Some? ==> r.value < |s| && s[r.value] == x
    ensures r.None? ==> x !in s
  {
    var i := 0;
    while i < |s|
      invariant 0 <= i <= |s|
      invariant x !in s[..i]
    {
      if s[i] == x {
        return Some(i);
      }
      i := i + 1;
    }
    return None;
  }

  /** `p` is the position the ordering gives to `key`. */
  ghost predicate StandsAt(keys: seq<PubKey>, ordered: seq<nat>, key: PubKey, p: nat)
    requires |keys| == |ordered| && IsOrdering(ordered)
  {
    p < |ordered| && KeyAt(keys, ordered, p) == key
  }

  /** Distinct keys stand at distinct positions and every key stands somewhere. */
  lemma {:induction false} PositionUnique(keys: seq<PubKey>, ordered: seq<nat>, key: PubKey, a: nat, b: nat)
    requires |keys| == |ordered| && IsOrdering(ordered) && StrictlySorted(keys)
    requires StandsAt(keys, ordered, key, a) && StandsAt(keys, ordered, key, b)
    ensures a == b
  {
    assert ordered[a] == ordered[b];
  }

  /** Every listed key stands somewhere. */
  lemma {:induction false} PositionOf(keys: seq<PubKey>, ordered: seq<nat>, key: PubKey) returns (p: nat)
    requires |keys| == |ordered| && IsOrdering(ordered) && key in keys
    ensures StandsAt(keys, ordered, key, p)
  {
    var i :| 0 <= i < |keys| && keys[i] == key;
    EveryIndexListed(ordered, i);
    p :| 0 <= p < |ordered| && ordered[p] == i;
  }

  /** The quorums of the node holding `selfKey`, none if it is not a member. */
  method SelectQuorums(keys: seq<PubKey>, selfKey: PubKey, seed: bv64, shuffle: bool, q: nat)
    returns (matrix: seq<seq<PubKey>>)
    requires StrictlySorted(keys) && |keys| < USIZE_MAX && q >= 3
    ensures selfKey !in keys ==> matrix == []
    ensures forall p: nat :: StandsAt(keys, EpochOrdering(|keys|, seed, shuffle), selfKey, p) ==>
              IsQuorumMatrix(matrix, keys, EpochOrdering(|keys|, seed, shuffle), q, p)
  {
    ghost var ordering := EpochOrdering(|keys|, seed, shuffle);
    var index := IndexOf(keys, selfKey);
    if index.None? {
      forall p: nat | p < |keys|
        ensures !StandsAt(keys, ordering, selfKey, p)
      {
        assert keys[ordering[p]] in keys;
      }
      return [];
    }
    var optimal, rounds := FindRoundNumber(|keys|, q);
    var indices := new nat[|keys|](i => i);
    assert indices[..] == Identity(|keys|);
    if shuffle {
      DeterministicShuffle(indices, seed);
    }
    var ordered := indices[..];
    assert ordered == ordering;
    var position := IndexOf(ordered, index.value);
    EveryIndexListed(ordered, index.value);
    matrix := Algorithm(keys, ordered, position.value, optimal, rounds, q);
    forall p: nat | StandsAt(keys, ordering, selfKey, p)
      ensures p == position.value
    {
      PositionUnique(keys, ordering, selfKey, p, position.value);
    }
  }

  /** An ordering of `n` indices lists every index below `n`. */
  lemma {:induction false} EveryIndexListed(ordered: seq<nat>, x: nat)
    requires IsOrdering(ordered) && x < |ordered|
    ensures x in ordered
  {
    DistinctSize(ordered);
    var listed := set i | 0 <= i < |ordered| :: ordered[i];
    assert listed <= UpTo(|ordered|);
    SameSizeSubset(listed, UpTo(|ordered|));
    assert x in listed;
  }

  lemma {:induction false} DistinctSize(s: seq<nat>)
    requires Distinct(s)
    ensures |set i | 0 <= i < |s| :: s[i]| == |s|
  {
    if s != [] {
      var t := s[..|s| - 1];
      DistinctSize(t);
      var last := s[|s| - 1];
      assert (set i | 0 <= i < |s| :: s[i]) == (set i | 0 <= i < |t| :: t[i]) + {last};
    }
  }

  /** Members of a quorum compute that very list; nodes outside it compute a
      list with no member in common. */
  lemma {:induction false} QuorumsAgree(keys: seq<PubKey>, ordered: seq<nat>, q: nat, r: nat, a: nat, b: nat,
                                        mine: seq<seq<PubKey>>, theirs: seq<seq<PubKey>>)
    requires |keys| == |ordered| && IsOrdering(ordered) && StrictlySorted(keys) && q >= 2
    requires a < |ordered| && b < |ordered| && r < Rounds(|ordered|, q)
    requires IsQuorumMatrix(mine, keys, ordered, q, a)
    requires IsQuorumMatrix(theirs, keys, ordered, q, b)
    ensures KeyAt(keys, ordered, a) in mine[r]
    ensures KeyAt(keys, ordered, b) in mine[r] <==> mine[r] == theirs[r]
    ensures KeyAt(keys, ordered, b) !in mine[r] ==> forall k :: k in mine[r] ==> k !in theirs[r]
  {
    var n := |ordered|;
    QuorumsPartition(n, q, r, a, b);
    QuorumsPartition(n, q, r, b, b);
    InQuorumKeys(keys, ordered, q, r, a, a);
    InQuorumKeys(keys, ordered, q, r, a, b);
    InQuorumKeys(keys, ordered, q, r, b, b);
    assert forall k :: k in mine[r] <==> k in Elements(mine[r]);
    assert forall k :: k in theirs[r] <==> k in Elements(theirs[r]);
    if KeyAt(keys, ordered, b) in mine[r] {
      SortedUnique(mine[r], theirs[r]);
    } else {
      forall k | k in mine[r]
        ensures k !in theirs[r]
      {
        var p :| p in Quorum(n, q, r, a) && KeyAt(keys, ordered, p) == k;
        InQuorumKeys(keys, ordered, q, r, b, p);
      }
    }
  }

  lemma {:induction false} InQuorumKeys(keys: seq<PubKey>, ordered: seq<nat>, q: nat, r: nat, a: nat, b: nat)
    requires |keys| == |ordered| && IsOrdering(ordered) && StrictlySorted(keys) && q >= 2
    requires a < |ordered| && b < |ordered| && r < Rounds(|ordered|, q)
    ensures KeyAt(keys, ordered, b) in QuorumKeys(keys, ordered, q, r, a)
            <==> b in Quorum(|ordered|, q, r, a)
  {
    if KeyAt(keys, ordered, b) in QuorumKeys(keys, ordered, q, r, a) {
      var p :| p in Quorum(|ordered|, q, r, a) && KeyAt(keys, ordered, p) == KeyAt(keys, ordered, b);
      PositionUnique(keys, ordered, KeyAt(keys, ordered, b), p, b);
    }
  }

  /** A strictly sorted list is determined by its elements. */
  lemma {:induction false} SortedUnique(s: seq<PubKey>, t: seq<PubKey>)
    requires StrictlySorted(s) && StrictlySorted(t)
    requires forall k :: k in s <==> k in t
    ensures s == t
  {
    assert t != [] ==> t[0] in t;
    if s != [] {
      assert s[0] in t && t != [];
      assert t[0] in s;
      var s', t' := s[1..], t[1..];
      assert s[0] == t[0];
      assert forall k :: k in s <==> k == s[0] || k in s';
      assert forall k :: k in t <==> k == t[0] || k in t';
      SortedUnique(s', t');
      assert s == [s[0]] + s' && t == [t[0]] + t';
    }
  }

  /** Positions that meet `a` in some round before `k`, without `a` itself. */
  ghost function Recipients(n: nat, q: nat, a: nat, k: nat): (s: set<nat>)
    requires q >= 2 && a < n && k <= Rounds(n, q)
    ensures forall x :: x in s ==> x < n && x != a
  {
    if k == 0 then {} else Recipients(n, q, a, k - 1) + (Quorum(n, q, k - 1, a) - {a})
  }

  /** Union of all quorums of a node, without the node, in key order. */
  method SelectPrefillRecipients(keys: seq<PubKey>, selfKey: PubKey, seed: bv64, shuffle: bool, q: nat)
    returns (recipients: seq<PubKey>)
    requires StrictlySorted(keys) && |keys| < USIZE_MAX && q >= 3
    ensures StrictlySorted(recipients)
    ensures selfKey !in keys ==> recipients == []
    ensures forall p: nat :: StandsAt(keys, EpochOrdering(|keys|, seed, shuffle), selfKey, p) ==>
              Elements(recipients) == RecipientKeys(keys, EpochOrdering(|keys|, seed, shuffle), q, p)
    ensures forall e: nat :: e >= 1 && |keys| == Pow(q, e) && selfKey in keys ==> |recipients| == e * (q - 1)
  {
    ghost var ordered := EpochOrdering(|keys|, seed, shuffle);
    var matrix := SelectQuorums(keys, selfKey, seed, shuffle, q);
    var all: seq<PubKey> := [];
    for r := 0 to |matrix|
      invariant matrix == [] ==> all == []
      invariant forall p: nat :: StandsAt(keys, ordered, selfKey, p) ==>
                  && r <= Rounds(|keys|, q)
                  && Elements(all) == KeysAt(keys, ordered, Recipients(|keys|, q, p, r))
    {
      var met := Without(matrix[r], selfKey);
      forall p: nat | StandsAt(keys, ordered, selfKey, p)
        ensures Elements(all + met) == KeysAt(keys, ordered, Recipients(|keys|, q, p, r + 1))
      {
        MetInRound(keys, ordered, q, r, p, matrix[r], met);
        KeysAtUnion(keys, ordered, Recipients(|keys|, q, p, r), Quorum(|keys|, q, r, p) - {p});
        assert Elements(all + met) == Elements(all) + Elements(met);
      }
      all := all + met;
    }
    recipients := SortAndDedup(all);
    if recipients != [] {
      assert recipients[0] in Elements(recipients);
    }
    if selfKey in keys {
      ghost var p := PositionOf(keys, ordered, selfKey);
      forall e: nat | e >= 1 && |keys| == Pow(q, e) ensures |recipients| == e * (q - 1) {
        IdealRecipientList(keys, ordered, q, e, p, recipients);
      }
    }
  }

  ghost function RecipientsAll(n: nat, q: nat, p: nat): set<nat>
    requires q >= 2 && p < n
  {
    Recipients(n, q, p, Rounds(n, q))
  }

  ghost function RecipientKeys(keys: seq<PubKey>, ordered: seq<nat>, q: nat, p: nat): set<PubKey>
    requires |keys| == |ordered| && IsOrdering(ordered) && q >= 2 && p < |ordered|
  {
    KeysAt(keys, ordered, RecipientsAll(|ordered|, q, p))
  }

  method Without(s: seq<PubKey>, k: PubKey) returns (r: seq<PubKey>)
    ensures forall x :: x in r <==> x in s && x != k
  {
    r := [];
    for i := 0 to |s|
      invariant forall x :: x in r <==> x in s[..i] && x != k
    {
      if s[i] != k {
        r := r + [s[i]];
      }
    }
  }

  lemma {:induction false} MetInRound(keys: seq<PubKey>, ordered: seq<nat>, q: nat, r: nat, p: nat,
                                      quorum: seq<PubKey>, met: seq<PubKey>)
    requires |keys| == |ordered| && IsOrdering(ordered) && StrictlySorted(keys) && q >= 2
    requires p < |ordered| && r < Rounds(|ordered|, q)
    requires Elements(quorum) == QuorumKeys(keys, ordered, q, r, p)
    requires forall x :: x in met <==> x in quorum && x != KeyAt(keys, ordered, p)
    ensures Elements(met) == KeysAt(keys, ordered, Quorum(|ordered|, q, r, p) - {p})
  {
    forall x | x in KeysAt(keys, ordered, Quorum(|ordered|, q, r, p) - {p})
      ensures x in Elements(met)
    {
      var b :| b in Quorum(|ordered|, q, r, p) - {p} && KeyAt(keys, ordered, b) == x;
      assert x in Elements(quorum);
      if x == KeyAt(keys, ordered, p) {
        PositionUnique(keys, ordered, x, b, p);
      }
    }
    forall x | x in Elements(met)
      ensures x in KeysAt(keys, ordered, Quorum(|ordered|, q, r, p) - {p})
    {
      assert x in Elements(quorum);
      var b :| b in Quorum(|ordered|, q, r, p) && KeyAt(keys, ordered, b) == x;
    }
  }

  /** Being a prefill recipient is mutual. */
  lemma {:induction false} RecipientsMutual(n: nat, q: nat, a: nat, b: nat, k: nat)
    requires q >= 2 && a < n && b < n && k <= Rounds(n, q)
    ensures b in Recipients(n, q, a, k) <==> a in Recipients(n, q, b, k)
  {
    if k > 0 {
      RecipientsMutual(n, q, a, b, k - 1);
      QuorumsPartition(n, q, k - 1, a, b);
    }
  }

  /** Shape of an ideal network of `q^e` nodes. */
  lemma {:induction false} IdealShape(q: nat, e: nat)
    requires q >= 2 && e >= 1
    ensures Pow(q, e) >= q
    ensures Exponent(Pow(q, e), q) == e && Multiple(Pow(q, e), q) == 1
    ensures Optimal(Pow(q, e), q) == Pow(q, e) && Rounds(Pow(q, e), q) == e
  {
    var n := Pow(q, e);
    PowMono(q, 1, e);
    assert Pow(q, 1) == q;
    MulMono(2, q, n);
    ExponentUnique(n, q, e);
    DivModUnique(n, n, 1, 0);
    if n <= q && e >= 2 {
      PowMono(q, 2, e);
      assert Pow(q, 2) == q * q;
      MulMono(2, q, q);
    }
  }

  lemma {:induction false} IdealRounds(q: nat, e: nat)
    requires q >= 2 && e >= 1 && Pow(q, e) >= 1
    ensures Rounds(Pow(q, e), q) == e
  {
    IdealShape(q, e);
  }

  /** Every quorum of an ideal network has exactly `q` members. */
  lemma {:induction false} IdealQuorumSize(q: nat, e: nat, r: nat, a: nat)
    requires q >= 2 && r < e && a < Pow(q, e) && r < Rounds(Pow(q, e), q)
    ensures |Quorum(Pow(q, e), q, r, a)| == q
  {
    IdealShape(q, e);
    var n := Pow(q, e);
    LineShape(n, q, r);
    RepOf(n, q, a);
    var first, stride := FirstMember(n, q, r, Rep(n, q, a)), Stride(n, q, r);
    SegmentsAreQuorum(n, q, r, a);
    WalkIsLinear(n + first, stride, 0);
    NoFurtherPoints(n + first, stride, 0, q, n);
    forall j: nat | j < q
      ensures Walk(first, stride, j) < n
    {
      WalkIsLine(a, Walk(first, stride, j), q, stride, Width(n, q, r), first);
      SameWidth(a, Walk(first, stride, j), Width(n, q, r), n);
    }
    WalkSize(first, stride, q, n);
  }

  lemma {:induction false} WalkSize(first: nat, stride: nat, k: nat, n: nat)
    requires stride >= 1
    requires forall j: nat :: j < k ==> Walk(first, stride, j) < n
    ensures |Points(first, stride, k, n)| == k
  {
    if k == 0 {
      assert Points(first, stride, k, n) == {};
    } else {
      WalkSize(first, stride, k - 1, n);
      NextPoint(first, stride, k - 1, n);
      var p := Walk(first, stride, k - 1);
      forall j: nat | j < k - 1
        ensures Walk(first, stride, j) != p
      {
        WalkMono(first, stride, j + 1, k - 1);
      }
      assert p !in Points(first, stride, k - 1, n);
    }
  }

  /** Two different rounds of an ideal network share only the node itself. */
  lemma {:induction false} IdealRoundsMeetOnce(q: nat, e: nat, i: nat, j: nat, a: nat, b: nat)
    requires q >= 2 && i < j < e && a < Pow(q, e) && b < Pow(q, e)
    requires Rounds(Pow(q, e), q) == e
    requires b in Quorum(Pow(q, e), q, i, a) && b in Quorum(Pow(q, e), q, j, a)
    ensures a == b
  {
    IdealShape(q, e);
    var n := Pow(q, e);
    RepOf(n, q, a);
    RepOf(n, q, b);
    PowPositive(q, i + 1);
    PowPositive(q, j);
    PowPositive(q, j - i - 1);
    PowSplit(q, i + 1, j);
    DivDiv(a, Pow(q, i + 1), Pow(q, j - i - 1));
    DivDiv(b, Pow(q, i + 1), Pow(q, j - i - 1));
    DivMod(a, Pow(q, j));
    DivMod(b, Pow(q, j));
  }

  /** An ideal network of `q^e` nodes gives every node exactly `e * (q - 1)`
      prefill recipients. */
  lemma {:induction false} IdealPrefillSize(q: nat, e: nat, a: nat)
    requires q >= 2 && e >= 1 && a < Pow(q, e)
    ensures |RecipientsAll(Pow(q, e), q, a)| == e * (q - 1)
  {
    hide Pow, Rounds, Recipients, RoundAdds, Walk;
    var n, c := Pow(q, e), q - 1;
    IdealRounds(q, e);
    forall j: nat | j < e
      ensures RoundAdds(n, q, a, j, c)
    {
      IdealRoundAdds(q, e, a, j);
    }
    RecipientsGrow(n, q, a, e, c);
    WalkIsLinear(0, c, e);
  }

  /** Round `j` adds `c` recipients. */
  ghost predicate RoundAdds(n: nat, q: nat, a: nat, j: nat, c: nat)
    requires q >= 2 && a < n
  {
    j < Rounds(n, q) && |Recipients(n, q, a, j + 1)| == |Recipients(n, q, a, j)| + c
  }

  lemma {:induction false} RecipientsGrow(n: nat, q: nat, a: nat, k: nat, c: nat)
    requires q >= 2 && a < n && k <= Rounds(n, q)
    requires forall j: nat :: j < k ==> RoundAdds(n, q, a, j, c)
    ensures |Recipients(n, q, a, k)| == Walk(0, c, k)
  {
    if k == 0 {
      assert Recipients(n, q, a, 0) == {};
    } else {
      RecipientsGrow(n, q, a, k - 1, c);
      assert RoundAdds(n, q, a, k - 1, c);
    }
  }

  lemma {:induction false} IdealRoundAdds(q: nat, e: nat, a: nat, k: nat)
    requires q >= 2 && k < e && a < Pow(q, e) && Rounds(Pow(q, e), q) == e
    ensures RoundAdds(Pow(q, e), q, a, k, q - 1)
  {
    var n := Pow(q, e);
    IdealQuorumSize(q, e, k, a);
    forall b | b in Quorum(n, q, k, a) && b != a
      ensures b !in Recipients(n, q, a, k)
    {
      FreshRecipient(q, e, a, b, k, k);
    }
    FreshRound(n, q, a, k);
  }

  /** A round whose members are all new adds its size less the node itself. */
  lemma {:induction false} FreshRound(n: nat, q: nat, a: nat, k: nat)
    requires q >= 2 && a < n && k < Rounds(n, q)
    requires Quorum(n, q, k, a) * Recipients(n, q, a, k) <= {a}
    ensures |Recipients(n, q, a, k + 1)| == |Recipients(n, q, a, k)| + |Quorum(n, q, k, a)| - 1
  {
    var quorum := Quorum(n, q, k, a);
    QuorumsPartition(n, q, k, a, a);
    DisjointSize(Recipients(n, q, a, k), quorum - {a});
    DisjointSize(quorum - {a}, {a});
    assert quorum == (quorum - {a}) + {a};
  }

  lemma {:induction false} DisjointSize(a: set<nat>, b: set<nat>)
    requires a !! b
    ensures |a + b| == |a| + |b|
  {
  }

  lemma {:induction false} FreshRecipient(q: nat, e: nat, a: nat, b: nat, j: nat, k: nat)
    requires q >= 2 && k <= j < e && a < Pow(q, e) && Rounds(Pow(q, e), q) == e
    requires b in Quorum(Pow(q, e), q, j, a) && b != a
    ensures b !in Recipients(Pow(q, e), q, a, k)
  {
    if k > 0 {
      FreshRecipient(q, e, a, b, j, k - 1);
      if b in Quorum(Pow(q, e), q, k - 1, a) {
        IdealRoundsMeetOnce(q, e, k - 1, j, a, b);
      }
    }
  }

  /** A further position adds a further key. */
  lemma {:induction false} KeysAtInsert(keys: seq<PubKey>, ordered: seq<nat>, positions: set<nat>, p: nat)
    requires |keys| == |ordered| && IsOrdering(ordered) && StrictlySorted(keys)
    requires (forall x :: x in positions ==> x < |ordered|) && p < |ordered| && p !in positions
    ensures KeyAt(keys, ordered, p) !in KeysAt(keys, ordered, positions)
    ensures KeysAt(keys, ordered, positions + {p}) == KeysAt(keys, ordered, positions) + {KeyAt(keys, ordered, p)}
  {
    forall b | b in positions ensures KeyAt(keys, ordered, b) != KeyAt(keys, ordered, p) {
      assert ordered[b] != ordered[p];
    }
    KeysAtUnion(keys, ordered, positions, {p});
    assert KeysAt(keys, ordered, {p}) == {KeyAt(keys, ordered, p)};
  }

  /** Distinct positions hold distinct keys. */
  lemma {:induction false} KeysAtSize(keys: seq<PubKey>, ordered: seq<nat>, positions: set<nat>)
    requires |keys| == |ordered| && IsOrdering(ordered) && StrictlySorted(keys)
    requires forall p :: p in positions ==> p < |ordered|
    ensures |KeysAt(keys, ordered, positions)| == |positions|
    decreases positions
  {
    if positions == {} {
      assert KeysAt(keys, ordered, positions) == {};
    } else {
      hide KeysAt, IsOrdering, StrictlySorted, KeyAt;
      var p :| p in positions;
      var rest := positions - {p};
      assert positions == rest + {p};
      KeysAtSize(keys, ordered, rest);
      KeysAtInsert(keys, ordered, rest, p);
    }
  }

  lemma {:induction false} SortedSize(s: seq<PubKey>)
    requires StrictlySorted(s)
    ensures |Elements(s)| == |s|
  {
    if s != [] {
      var init, last := s[..|s| - 1], s[|s| - 1];
      SortedSize(init);
      assert s == init + [last];
      assert Elements(s) == Elements(init) + {last} && last !in Elements(init);
    }
  }

  /** A recipient list has as many keys as there are positions to meet. */
  lemma {:induction false} RecipientCount(keys: seq<PubKey>, ordered: seq<nat>, q: nat, p: nat, recipients: seq<PubKey>)
    requires |keys| == |ordered| && IsOrdering(ordered) && StrictlySorted(keys) && q >= 2 && p < |ordered|
    requires StrictlySorted(recipients) && Elements(recipients) == RecipientKeys(keys, ordered, q, p)
    ensures |recipients| == |RecipientsAll(|ordered|, q, p)|
  {
    SortedSize(recipients);
    KeysAtSize(keys, ordered, RecipientsAll(|ordered|, q, p));
  }

  /** In an ideal network of `q^e` keys every member's recipient list has exactly
      `e * (q - 1)` keys. */
  lemma {:induction false} IdealRecipientList(keys: seq<PubKey>, ordered: seq<nat>, q: nat, e: nat, p: nat,
                                              recipients: seq<PubKey>)
    requires |keys| == |ordered| == Pow(q, e) && IsOrdering(ordered) && StrictlySorted(keys)
    requires q >= 2 && e >= 1 && p < |ordered|
    requires StrictlySorted(recipients) && Elements(recipients) == RecipientKeys(keys, ordered, q, p)
    ensures |recipients| == e * (q - 1)
  {
    hide Pow, RecipientsAll, RecipientKeys;
    RecipientCount(keys, ordered, q, p, recipients);
    IdealPrefillSize(q, e, p);
  }

  /** One member is on another's recipient list if and only if the other is on
      its own. */
  lemma {:induction false} RecipientListsMutual(keys: seq<PubKey>, ordered: seq<nat>, q: nat, a: nat, b: nat,
                                                mine: seq<PubKey>, theirs: seq<PubKey>)
    requires |keys| == |ordered| && IsOrdering(ordered) && StrictlySorted(keys) && q >= 2
    requires a < |ordered| && b < |ordered|
    requires Elements(mine) == RecipientKeys(keys, ordered, q, a)
    requires Elements(theirs) == RecipientKeys(keys, ordered, q, b)
    ensures KeyAt(keys, ordered, b) in mine <==> KeyAt(keys, ordered, a) in theirs
  {
    hide Recipients, Rounds;
    ListedRecipient(keys, ordered, q, a, b, mine);
    ListedRecipient(keys, ordered, q, b, a, theirs);
    RecipientsMutual(|ordered|, q, a, b, Rounds(|ordered|, q));
  }

  lemma {:induction false} ListedRecipient(keys: seq<PubKey>, ordered: seq<nat>, q: nat, a: nat, b: nat,
                                           mine: seq<PubKey>)
    requires |keys| == |ordered| && IsOrdering(ordered) && StrictlySorted(keys) && q >= 2
    requires a < |ordered| && b < |ordered| && Elements(mine) == RecipientKeys(keys, ordered, q, a)
    ensures KeyAt(keys, ordered, b) in mine <==> b in RecipientsAll(|ordered|, q, a)
  {
    var k := KeyAt(keys, ordered, b);
    assert k in mine <==> k in Elements(mine);
    if k in mine {
      var p :| p in RecipientsAll(|ordered|, q, a) && KeyAt(keys, ordered, p) == k;
      PositionUnique(keys, ordered, k, p, b);
    }
  }
}
