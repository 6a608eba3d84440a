/**
 The selection code itself: the seeded shuffle, the per-round line walk and the
 sorted quorums it hands out, proved to produce the quorums of `Topology`.
 */
module QuorumSelection {
  import opened Wrappers
  import opened Arithmetic
  import opened Topology

  /** A 32-byte public key, ordered as the big-endian integer it spells. */
  type PubKey = nat

  ghost predicate StrictlySorted(s: seq<PubKey>) {
    forall i, j :: 0 <= i < j < |s| ==> s[i] < s[j]
  }

  ghost predicate Distinct(s: seq<nat>) {
    forall i, j :: 0 <= i < j < |s| ==> s[i] != s[j]
  }

  /** `ordered` lists every index below its length once. */
  ghost predicate IsOrdering(ordered: seq<nat>) {
    Distinct(ordered) && forall i :: 0 <= i < |ordered| ==> ordered[i] < |ordered|
  }

  /** Public key of the node at a position of the ordering. */
  function KeyAt(keys: seq<PubKey>, ordered: seq<nat>, position: nat): PubKey
    requires |keys| == |ordered| && IsOrdering(ordered) && position < |ordered|
  {
    keys[ordered[position]]
  }

  ghost function KeysAt(keys: seq<PubKey>, ordered: seq<nat>, positions: set<nat>): set<PubKey>
    requires |keys| == |ordered| && IsOrdering(ordered)
    requires forall p :: p in positions ==> p < |ordered|
  {
    set p | p in positions :: KeyAt(keys, ordered, p)
  }

  lemma {:induction false} KeysAtUnion(keys: seq<PubKey>, ordered: seq<nat>, a: set<nat>, b: set<nat>)
    requires |keys| == |ordered| && IsOrdering(ordered)
    requires forall p :: p in a + b ==> p < |ordered|
    ensures KeysAt(keys, ordered, a + b) == KeysAt(keys, ordered, a) + KeysAt(keys, ordered, b)
  {
  }

  ghost function Elements(s: seq<PubKey>): set<PubKey> {
    set k | k in s
  }

  /** The `j`-th point of the walk that starts at `first`. */
  ghost function Walk(first: nat, stride: nat, j: nat): (p: nat) {
    if j == 0 then first else Walk(first, stride, j - 1) + stride
  }

  lemma {:induction false} WalkIsLinear(first: nat, stride: nat, j: nat)
    ensures Walk(first, stride, j) == first + j * stride
  {
    if j > 0 {
      WalkIsLinear(first, stride, j - 1);
    }
  }

  lemma {:induction false} WalkShift(shift: nat, first: nat, stride: nat, j: nat)
    ensures Walk(shift + first, stride, j) == shift + Walk(first, stride, j)
  {
    if j > 0 {
      WalkShift(shift, first, stride, j - 1);
    }
  }

  lemma {:induction false} WalkMono(first: nat, stride: nat, i: nat, j: nat)
    requires i <= j
    ensures Walk(first, stride, i) <= Walk(first, stride, j)
  {
    if i < j {
      WalkMono(first, stride, i, j - 1);
    }
  }

  /** In-range points among the first `q` of a walk. */
  ghost function Points(first: nat, stride: nat, q: nat, n: nat): set<nat> {
    set j | 0 <= j < q && Walk(first, stride, j) < n :: Walk(first, stride, j)
  }

  /** Appends the members found at `first`, `first + stride`, ... until one is
      out of range or `q` were taken. */
  method PushQuorumMembers(quorum: seq<PubKey>, keys: seq<PubKey>, ordered: seq<nat>,
                           first: nat, sizeMultiple: nat, offset: nat, q: nat)
    returns (r: seq<PubKey>)
    requires |keys| == |ordered| <= USIZE_MAX && IsOrdering(ordered)
    requires sizeMultiple >= 1 && offset >= 1
    ensures quorum <= r && |r| <= |quorum| + q
    ensures Walked(keys, ordered, quorum, r, first, sizeMultiple * offset, q)
  {
    r := quorum;
    ghost var n, stride := |ordered|, sizeMultiple * offset;
    var member := 0;
    while member < q
      invariant 0 <= member <= q
      invariant quorum <= r && |r| <= |quorum| + member
      invariant Walked(keys, ordered, quorum, r, first, stride, member)
    {
      var index := LineIndex(first, member, sizeMultiple, offset);
      if index.None? || index.value >= |ordered| {
        NoFurtherPoints(first, stride, member, q, n);
        return;
      }
      WalkedOn(keys, ordered, quorum, r, first, stride, member);
      r := r + [KeyAt(keys, ordered, index.value)];
      member := member + 1;
    }
  }

  /** `r` adds to `quorum` the keys of the first `member` points. */
  ghost predicate Walked(keys: seq<PubKey>, ordered: seq<nat>, quorum: seq<PubKey>,
                         r: seq<PubKey>, first: nat, stride: nat, member: nat)
    requires |keys| == |ordered| && IsOrdering(ordered)
  {
    Elements(r) == Elements(quorum) + KeysAt(keys, ordered, Points(first, stride, member, |ordered|))
  }

  lemma {:induction false} WalkedOn(keys: seq<PubKey>, ordered: seq<nat>, quorum: seq<PubKey>,
                                    r: seq<PubKey>, first: nat, stride: nat, member: nat)
    requires |keys| == |ordered| && IsOrdering(ordered)
    requires Walk(first, stride, member) < |ordered|
    requires Walked(keys, ordered, quorum, r, first, stride, member)
    ensures Walked(keys, ordered, quorum, r + [KeyAt(keys, ordered, Walk(first, stride, member))],
                   first, stride, member + 1)
  {
    NextPoint(first, stride, member, |ordered|);
    var p := Walk(first, stride, member);
    KeysAtUnion(keys, ordered, Points(first, stride, member, |ordered|), {p});
    assert Elements(r + [KeyAt(keys, ordered, p)]) == Elements(r) + {KeyAt(keys, ordered, p)};
  }

  /** The checked index arithmetic of one member: `None` on overflow. */
  function LineIndex(first: nat, member: nat, sizeMultiple: nat, offset: nat): (r: Option<nat>)
    requires offset >= 1
    ensures var p := Walk(first, sizeMultiple * offset, member);
            r == if p <= USIZE_MAX then Some(p) else None
  {
    WalkIsLinear(first, sizeMultiple * offset, member);
    MulAssoc(member, sizeMultiple, offset);
    MulMono(1, offset, member * sizeMultiple);
    match CheckedMul(member, sizeMultiple)
    case None => None
    case Some(a) =>
      match CheckedMul(a, offset)
      case None => None
      case Some(b) => CheckedAdd(first, b)
  }

  lemma {:induction false} NextPoint(first: nat, stride: nat, member: nat, n: nat)
    requires Walk(first, stride, member) < n
    ensures Points(first, stride, member + 1, n)
         == Points(first, stride, member, n) + {Walk(first, stride, member)}
  {
    var p := Walk(first, stride, member);
    assert p in Points(first, stride, member + 1, n);
  }

  lemma {:induction false} NoFurtherPoints(first: nat, stride: nat, member: nat, q: nat, n: nat)
    requires member <= q && Walk(first, stride, member) >= n
    ensures Points(first, stride, q, n) == Points(first, stride, member, n)
  {
    forall j | member <= j < q
      ensures Walk(first, stride, j) >= n
    {
      WalkMono(first, stride, member, j);
    }
  }

  /** Inserts a key into a strictly sorted list unless it is already there. */
  function Insert(s: seq<PubKey>, k: PubKey): (r: seq<PubKey>) {
    if s == [] then [k]
    else if k < s[0] then [k] + s
    else if k == s[0] then s
    else [s[0]] + Insert(s[1..], k)
  }

  lemma {:induction false} InsertElement(s: seq<PubKey>, k: PubKey, x: PubKey)
    ensures x in Insert(s, k) <==> x in s || x == k
  {
    if s != [] {
      InsertElement(s[1..], k, x);
      assert x in s <==> x == s[0] || x in s[1..];
    }
  }

  lemma {:induction false} InsertKeepsOrder(s: seq<PubKey>, k: PubKey)
    requires StrictlySorted(s)
    ensures StrictlySorted(Insert(s, k)) && |Insert(s, k)| <= |s| + 1
  {
    if s != [] && k > s[0] {
      var rest := Insert(s[1..], k);
      InsertKeepsOrder(s[1..], k);
      forall i | 0 <= i < |rest| ensures s[0] < rest[i] {
        InsertElement(s[1..], k, rest[i]);
      }
    }
  }

  /** `sort_unstable` followed by `dedup`. */
  method SortAndDedup(s: seq<PubKey>) returns (r: seq<PubKey>)
    ensures StrictlySorted(r) && Elements(r) == Elements(s) && |r| <= |s|
  {
    r := [];
    for i := 0 to |s|
      invariant StrictlySorted(r) && |r| <= i
      invariant forall x: PubKey :: x in r <==> x in s[..i]
    {
      InsertKeepsOrder(r, s[i]);
      forall x: PubKey ensures x in Insert(r, s[i]) <==> x in r || x == s[i] {
        InsertElement(r, s[i], x);
      }
      r := Insert(r, s[i]);
      assert s[..i + 1] == s[..i] + [s[i]];
    }
    assert s[..|s|] == s;
  }

  /** `p` is one of the first `q` points of a walk. */
  ghost predicate OnWalk(first: nat, stride: nat, q: nat, p: nat) {
    exists j: nat :: j < q && p == Walk(first, stride, j)
  }

  /** Positions sharing the line of `s` are on its walk. */
  lemma {:induction false} LineIsWalk(s: nat, p: nat, q: nat, stride: nat, width: nat, first: nat)
    requires q >= 1 && stride >= 1 && width == q * stride
    requires first == s - s % width + s % stride
    requires p / width == s / width && p % stride == s % stride
    ensures OnWalk(first, stride, q, p)
  {
    MulMono(1, q, stride);
    var j := LineOffset(s, p, q, stride, width);
    WalkIsLinear(first, stride, j);
  }

  lemma {:induction false} LineOffset(s: nat, p: nat, q: nat, stride: nat, width: nat) returns (j: nat)
    requires q >= 1 && stride >= 1 && width == q * stride && width >= 1
    requires p / width == s / width && p % stride == s % stride
    ensures j < q && p == s - s % width + s % stride + j * stride
  {
    SameQuotient(s, p, width);
    j := Split(p % width, stride, q);
    SameMod(p, stride, q, width);
  }

  lemma {:induction false} SameQuotient(s: nat, p: nat, d: nat)
    requires d >= 1 && p / d == s / d
    ensures p - s == p % d - s % d && p % d < d
  {
    DivMod(s, d);
    DivMod(p, d);
  }

  lemma {:induction false} SameMod(p: nat, x: nat, y: nat, d: nat)
    requires x >= 1 && y >= 1 && d == y * x && d >= 1
    ensures p % d % x == p % x
  {
    ModMod(p, x, y);
  }

  lemma {:induction false} Split(c: nat, stride: nat, q: nat) returns (j: nat)
    requires stride >= 1 && c < q * stride
    ensures j < q && c == c % stride + j * stride
  {
    QuotientBelow(c, stride, q);
    DivMod(c, stride);
    j := c / stride;
  }

  lemma {:induction false} QuotientBelow(c: nat, stride: nat, q: nat)
    requires stride >= 1 && c < q * stride
    ensures 0 <= c / stride < q
  {
    DivMod(c, stride);
    if c / stride >= q {
      MulMono(q, c / stride, stride);
    }
  }

  /** Points of the walk share the line of `s`. */
  lemma {:induction false} WalkIsLine(s: nat, p: nat, q: nat, stride: nat, width: nat, first: nat)
    requires q >= 1 && stride >= 1 && width == q * stride
    requires first == s - s % width + s % stride
    requires OnWalk(first, stride, q, p)
    ensures p / width == s / width && p % stride == s % stride
  {
    var j: nat :| j < q && p == Walk(first, stride, j);
    WalkIsLinear(first, stride, j);
    OffsetOnLine(s, p, q, stride, width, j);
  }

  lemma {:induction false} OffsetOnLine(s: nat, p: nat, q: nat, stride: nat, width: nat, j: nat)
    requires q >= 1 && stride >= 1 && width == q * stride && j < q
    requires p == s - s % width + s % stride + j * stride
    ensures p / width == s / width && p % stride == s % stride
  {
    DivMod(s, width);
    DivMod(s, stride);
    OffsetFits(q, stride, width, s % stride, j);
    DivModUnique(p, width, s / width, s % stride + j * stride);
    OffsetResidue(p, q, stride, width, s / width, s % stride, j);
  }

  lemma {:induction false} OffsetFits(q: nat, stride: nat, width: nat, d: nat, j: nat)
    requires q >= 1 && width == q * stride && j < q && d < stride
    ensures d + j * stride < width
  {
    var top := q - 1;
    MulMono(j, top, stride);
    assert q * stride == top * stride + stride;
  }

  lemma {:induction false} OffsetResidue(p: nat, q: nat, stride: nat, width: nat, k: nat, d: nat, j: nat)
    requires stride >= 1 && width == q * stride && d < stride
    requires p == width * k + d + j * stride
    ensures p % stride == d
  {
    MulAssoc(stride, q, k);
    assert p == stride * (q * k + j) + d;
    DivModUnique(p, stride, q * k + j, d);
  }

  /** First member of the line that position `s` of the optimal network lies on. */
  ghost function FirstMember(n: nat, q: nat, r: nat, s: nat): (first: nat)
    requires n >= 1 && q >= 2 && r < Rounds(n, q)
  {
    LineShape(n, q, r);
    DivMod(s, Width(n, q, r));
    DivMod(s, Stride(n, q, r));
    QuotientNonNegative(s, Width(n, q, r));
    s - s % Width(n, q, r) + s % Stride(n, q, r)
  }

  lemma {:induction false} QuotientNonNegative(a: nat, d: nat)
    requires d >= 1
    ensures a - a % d >= 0
  {
    DivMod(a, d);
  }

  /** A position shares the line of `s` iff the walk from the first member
      reaches it inside the optimal network. */
  lemma {:induction false} OnLine(n: nat, q: nat, r: nat, s: nat, p: nat)
    requires n >= 1 && q >= 2 && r < Rounds(n, q) && s < Optimal(n, q)
    ensures Width(n, q, r) >= 1 && Stride(n, q, r) >= 1
    ensures p < Optimal(n, q)
            && p / Width(n, q, r) == s / Width(n, q, r)
            && p % Stride(n, q, r) == s % Stride(n, q, r)
            <==> p < n && OnWalk(FirstMember(n, q, r, s), Stride(n, q, r), q, p)
  {
    OptimalBounds(n, q);
    LineShape(n, q, r);
    var width, stride, first := Width(n, q, r), Stride(n, q, r), FirstMember(n, q, r, s);
    if n >= q {
      if p / width == s / width && p % stride == s % stride {
        LineIsWalk(s, p, q, stride, width, first);
      }
      if OnWalk(first, stride, q, p) {
        WalkIsLine(s, p, q, stride, width, first);
        SameWidth(s, p, width, Optimal(n, q));
      }
    } else {
      SmallLine(n, q, s, p);
    }
  }

  lemma {:induction false} SameWidth(s: nat, p: nat, width: nat, opt: nat)
    requires width >= 1 && s < opt && p / width == s / width
    requires IsMultiple(opt, width)
    ensures p < opt
  {
    var k: nat :| opt == width * k;
    DivMod(s, width);
    DivMod(p, width);
    if s / width >= k {
      MulMono(k, s / width, width);
    }
    MulMono(s / width + 1, k, width);
  }

  lemma {:induction false} SmallLine(n: nat, q: nat, s: nat, p: nat)
    requires 1 <= n < q && s < n
    ensures p < n && p / n == s / n && p % n == s % n <==> p == s
    ensures p < n && OnWalk(s - s % n + s % n, n, q, p) <==> p == s
  {
    DivModUnique(s, n, 0, s);
    assert s == Walk(s, n, 0);
    if p < n {
      DivModUnique(p, n, 0, p);
      if OnWalk(s, n, q, p) {
        var j: nat :| j < q && p == Walk(s, n, j);
        WalkMono(s, n, if j == 0 then 0 else 1, j);
        assert Walk(s, n, 1) == Walk(s, n, 0) + n;
      }
    }
  }

  lemma {:induction false} RepOf(n: nat, q: nat, b: nat)
    requires q >= 2 && b < n
    ensures Rep(n, q, b) == (if b < Optimal(n, q) then b else b - Optimal(n, q))
    ensures Rep(n, q, b) < Optimal(n, q)
  {
    OptimalBounds(n, q);
    if b < Optimal(n, q) {
      DivModUnique(b, Optimal(n, q), 0, b);
    } else {
      DivModUnique(b, Optimal(n, q), 1, b - Optimal(n, q));
    }
  }

  /** The two segments the selection walks are together the quorum. */
  lemma {:induction false} SegmentsAreQuorum(n: nat, q: nat, r: nat, a: nat)
    requires q >= 2 && a < n && r < Rounds(n, q)
    ensures Points(FirstMember(n, q, r, Rep(n, q, a)), Stride(n, q, r), q, n)
          + Points(Optimal(n, q) + FirstMember(n, q, r, Rep(n, q, a)), Stride(n, q, r), q, n)
         == Quorum(n, q, r, a)
  {
    RepOf(n, q, a);
    var first, stride, opt := FirstMember(n, q, r, Rep(n, q, a)), Stride(n, q, r), Optimal(n, q);
    forall b | 0 <= b < n
      ensures b in Quorum(n, q, r, a)
              <==> b in Points(first, stride, q, n) + Points(opt + first, stride, q, n)
    {
      SegmentMember(n, q, r, a, b);
    }
  }

  lemma {:induction false} SegmentMember(n: nat, q: nat, r: nat, a: nat, b: nat)
    requires q >= 2 && a < n && b < n && r < Rounds(n, q)
    ensures b in Points(FirstMember(n, q, r, Rep(n, q, a)), Stride(n, q, r), q, n)
               + Points(Optimal(n, q) + FirstMember(n, q, r, Rep(n, q, a)), Stride(n, q, r), q, n)
            <==> Meets(n, q, r, a, b)
  {
    RepOf(n, q, a);
    RepOf(n, q, b);
    OptimalBounds(n, q);
    var s, opt := Rep(n, q, a), Optimal(n, q);
    var first, stride := FirstMember(n, q, r, s), Stride(n, q, r);
    OnLine(n, q, r, s, b);
    OnLine(n, q, r, s, Rep(n, q, b));
    InPoints(first, stride, q, n, b);
    InPoints(opt + first, stride, q, n, b);
    ShiftedWalk(opt, first, stride, q, b);
  }

  lemma {:induction false} InPoints(first: nat, stride: nat, q: nat, n: nat, b: nat)
    ensures b in Points(first, stride, q, n) <==> b < n && OnWalk(first, stride, q, b)
  {
  }

  lemma {:induction false} ShiftedWalk(shift: nat, first: nat, stride: nat, q: nat, b: nat)
    ensures OnWalk(shift + first, stride, q, b)
            <==> b >= shift && OnWalk(first, stride, q, b - shift)
  {
    if OnWalk(shift + first, stride, q, b) {
      var j: nat :| j < q && b == Walk(shift + first, stride, j);
      WalkShift(shift, first, stride, j);
    }
    if b >= shift && OnWalk(first, stride, q, b - shift) {
      var j: nat :| j < q && b - shift == Walk(first, stride, j);
      WalkShift(shift, first, stride, j);
    }
  }

  /** One xorshift step of the shuffle's generator. */
  function NextState(x: bv64): bv64 {
    var a := x ^ (x << 13);
    var b := a ^ (a >> 7);
    b ^ (b << 17)
  }

  function Word(state: bv64): nat {
    state as nat
  }

  function Draw(state: bv64, bound: nat): (j: nat)
    requires bound >= 1
    ensures j < bound
  {
    Below(Word(state), bound)
  }

  function Below(x: nat, bound: nat): (j: nat)
    requires bound >= 1
    ensures j < bound
  {
    DivMod(x, bound);
    x % bound
  }

  function Swapped(s: seq<nat>, i: nat, j: nat): seq<nat>
    requires i < |s| && j < |s|
  {
    s[i := s[j]][j := s[i]]
  }

  /** Swaps that are left once only the first `i` entries are still open. */
  ghost function ShuffleFrom(s: seq<nat>, state: bv64, i: nat): (r: seq<nat>)
    requires i <= |s|
    ensures |r| == |s|
    decreases i
  {
    if i <= 1 then s
    else
      var next := NextState(state);
      ShuffleFrom(Swapped(s, i - 1, Draw(next, i)), next, i - 1)
  }

  function SeedState(seed: bv64): bv64 {
    if seed == 0 then 0x9e37_79b9_7f4a_7c15 else seed
  }

  /** Fisher-Yates with the xorshift stream of the seed's first eight bytes. */
  method DeterministicShuffle(indices: array<nat>, seed: bv64)
    modifies indices
    ensures indices[..] == ShuffleFrom(old(indices[..]), SeedState(seed), indices.Length)
  {
    var state := SeedState(seed);
    var i := indices.Length;
    while i > 1
      invariant 0 <= i <= indices.Length
      invariant ShuffleFrom(indices[..], state, i)
             == ShuffleFrom(old(indices[..]), SeedState(seed), indices.Length)
    {
      state := NextState(state);
      var j := Draw(state, i);
      ghost var before := indices[..];
      indices[i - 1], indices[j] := indices[j], indices[i - 1];
      assert indices[..] == Swapped(before, i - 1, j);
      i := i - 1;
    }
  }

  /** The first words from the seed one, bit by bit. */
  lemma {:induction false} GeneratorFromOne()
    ensures NextState(1) == 0x4082_2041 && NextState(0x4082_2041) == 0x1000_4106_0C01_1441
  {
  }

  /** A shifted xor loses nothing: only zero goes to zero. */
  lemma {:induction false} ShiftedXorOfZero(x: bv64)
    ensures x ^ (x << 13) == 0 ==> x == 0
    ensures x ^ (x >> 7) == 0 ==> x == 0
    ensures x ^ (x << 17) == 0 ==> x == 0
  {
  }

  /** The generator never reaches zero, where it would stay, from any seed. */
  lemma {:induction false} GeneratorNeverSticks(seed: bv64, steps: nat)
    ensures StateAfter(SeedState(seed), steps) != 0
  {
    if steps > 0 {
      GeneratorNeverSticks(seed, steps - 1);
      var x := StateAfter(SeedState(seed), steps - 1);
      var a := x ^ (x << 13);
      ShiftedXorOfZero(x);
      ShiftedXorOfZero(a);
      ShiftedXorOfZero(a ^ (a >> 7));
    }
  }

  ghost function StateAfter(state: bv64, steps: nat): bv64 {
    if steps == 0 then state else NextState(StateAfter(state, steps - 1))
  }

  /** What the shuffle of the first `i` entries puts last, then second to last, and so on: each
      time the entry that the generator's next word picks, by its remainder, from the
      entries still open; entries beyond the open ones stay. */
  lemma {:induction false} ShufflePicks(s: seq<nat>, state: bv64, i: nat)
    requires 2 <= i <= |s|
    ensures ShuffleFrom(s, state, i)[i - 1] == s[NextState(state) as nat % i]
    ensures forall k :: i <= k < |s| ==> ShuffleFrom(s, state, i)[k] == s[k]
    decreases i
  {
    hide NextState;
    var next := NextState(state);
    var t := Swapped(s, i - 1, Draw(next, i));
    if i > 2 {
      ShufflePicks(t, next, i - 1);
    }
  }

  /** The shuffle is a permutation, so an ordering stays an ordering. */
  lemma {:induction false} ShufflePermutes(s: seq<nat>, state: bv64, i: nat)
    requires i <= |s|
    ensures multiset(ShuffleFrom(s, state, i)) == multiset(s)
    ensures IsOrdering(s) ==> IsOrdering(ShuffleFrom(s, state, i))
    decreases i
  {
    if i > 1 {
      var next := NextState(state);
      var j := Draw(next, i);
      SwapPermutes(s, i - 1, j);
      ShufflePermutes(Swapped(s, i - 1, j), next, i - 1);
    }
  }

  lemma {:induction false} SwapPermutes(s: seq<nat>, i: nat, j: nat)
    requires i < |s| && j < |s|
    ensures |Swapped(s, i, j)| == |s|
    ensures multiset(Swapped(s, i, j)) == multiset(s)
    ensures IsOrdering(s) ==> IsOrdering(Swapped(s, i, j))
  {
    SwapKeepsMultiset(s, i, j);
    if IsOrdering(s) {
      SwapKeepsOrdering(s, i, j);
    }
  }

  lemma {:induction false} SwapKeepsMultiset(s: seq<nat>, i: nat, j: nat)
    requires i < |s| && j < |s|
    ensures multiset(Swapped(s, i, j)) == multiset(s)
  {
    if i == j {
      assert Swapped(s, i, j) == s;
    } else {
      var once := s[i := s[j]];
      assert multiset(once) == multiset(s) - multiset{s[i]} + multiset{s[j]};
      assert once[j] == s[j];
    }
  }

  lemma {:induction false} SwapKeepsOrdering(s: seq<nat>, i: nat, j: nat)
    requires i < |s| && j < |s| && IsOrdering(s)
    ensures IsOrdering(Swapped(s, i, j))
  {
    var t := Swapped(s, i, j);
    forall x, y | 0 <= x < y < |t|
      ensures t[x] != t[y]
    {
      var x' := if x == i then j else if x == j then i else x;
      var y' := if y == i then j else if y == j then i else y;
      assert t[x] == s[x'] && t[y] == s[y'];
    }
  }

  function Identity(n: nat): (s: seq<nat>)
    ensures |s| == n && IsOrdering(s)
  {
    seq(n, i => i)
  }

  /** The node ordering every participant derives from the epoch seed. */
  ghost function EpochOrdering(n: nat, seed: bv64, shuffle: bool): (o: seq<nat>)
    ensures |o| == n && IsOrdering(o)
  {
    ShufflePermutes(Identity(n), SeedState(seed), n);
    if shuffle then ShuffleFrom(Identity(n), SeedState(seed), n) else Identity(n)
  }

  /** Without shuffling the nodes keep their order; with it, the last place goes to
      the node that the first word after the seed picks. */
  lemma {:induction false} OrderingExactly(n: nat, seed: bv64)
    ensures forall i :: 0 <= i < n ==> EpochOrdering(n, seed, false)[i] == i
    ensures n >= 2 ==>
              EpochOrdering(n, seed, true)[n - 1]
              == NextState(if seed == 0 then 0x9e37_79b9_7f4a_7c15 else seed) as nat % n
  {
    hide NextState;
    if n >= 2 {
      ShufflePicks(Identity(n), SeedState(seed), n);
    }
  }

  /** The quorum of the node at position `p`, as public keys. */
  ghost function QuorumKeys(keys: seq<PubKey>, ordered: seq<nat>, q: nat, r: nat, p: nat): set<PubKey>
    requires |keys| == |ordered| && IsOrdering(ordered) && q >= 2 && p < |ordered|
    requires r < Rounds(|ordered|, q)
  {
    KeysAt(keys, ordered, Quorum(|ordered|, q, r, p))
  }

  /** What a node ends up with: one sorted duplicate-free quorum per round. */
  ghost predicate IsQuorumMatrix(matrix: seq<seq<PubKey>>, keys: seq<PubKey>, ordered: seq<nat>,
                                 q: nat, p: nat)
    requires |keys| == |ordered| && IsOrdering(ordered) && q >= 2 && p < |ordered|
  {
    && |matrix| == Rounds(|ordered|, q)
    && forall r :: 0 <= r < |matrix| ==>
         && StrictlySorted(matrix[r])
         && |matrix[r]| <= 2 * q
         && Elements(matrix[r]) == QuorumKeys(keys, ordered, q, r, p)
  }

  /** The per-round branch on the optimal size picks the dimension of `Topology`. */
  method RoundGeometry(n: nat, q: nat, round: nat, optimal: nat)
    returns (maxNetworkSize: nat, sizeMultiple: nat, offset: nat)
    requires q >= 3 && 1 <= n < USIZE_MAX && round < Rounds(n, q) && optimal == Optimal(n, q)
    ensures maxNetworkSize == Width(n, q, round)
    ensures sizeMultiple >= 1 && offset >= 1
    ensures sizeMultiple * offset == Stride(n, q, round)
  {
    OptimalBounds(n, q);
    ExponentBrackets(n, q);
    ghost var e := Exponent(n, q);
    var ceiling := CheckedPow(q, SaturatingAdd(round, 1));
    var ceilingNetworkSize := UnwrapOr(ceiling, SaturatingAdd(optimal, 1));
    maxNetworkSize := ceilingNetworkSize;
    sizeMultiple := 1;
    var dimension := round;
    RoundAtMostExponent(n, q, round);
    if round < e {
      PowMono(q, round + 1, e);
      PowMono(q, round, e);
    }
    if ceilingNetworkSize > optimal {
      ceiling := CheckedPow(q, round);
      ceilingNetworkSize := UnwrapOr(ceiling, optimal);
      dimension := SaturatingSub(round, 1);
      maxNetworkSize := optimal;
      DivModUnique(optimal, Base(n, q), Multiple(n, q), 0);
      sizeMultiple := if optimal / ceilingNetworkSize >= 1 then optimal / ceilingNetworkSize else 1;
      PowMono(q, dimension, e);
    }
    var offsetPow := CheckedPow(q, dimension);
    PowPositive(q, dimension);
    offset := UnwrapOr(offsetPow, optimal);
  }

  lemma {:induction false} RoundAtMostExponent(n: nat, q: nat, r: nat)
    requires q >= 3 && 1 <= n < USIZE_MAX && r < Rounds(n, q)
    ensures r <= Exponent(n, q) < USIZE_MAX
    ensures r == Exponent(n, q) ==> Pow(q, r + 1) > Optimal(n, q)
  {
    ExponentBrackets(n, q);
    OptimalBounds(n, q);
    ExponentBelow(q, Exponent(n, q));
  }

  lemma {:induction false} ExponentBelow(q: nat, e: nat)
    requires q >= 2
    ensures e < Pow(q, e)
  {
    if e > 0 {
      ExponentBelow(q, e - 1);
      MulMono(2, q, Pow(q, e - 1));
    }
  }

  /** The quorums of the node at `selfIndex`, one per round. */
  method Algorithm(keys: seq<PubKey>, ordered: seq<nat>, selfIndex: nat, optimal: nat,
                   rounds: nat, q: nat)
    returns (matrix: seq<seq<PubKey>>)
    requires |keys| == |ordered| < USIZE_MAX && IsOrdering(ordered) && q >= 3
    requires selfIndex < |ordered|
    requires optimal == Optimal(|ordered|, q) && rounds == Rounds(|ordered|, q)
    ensures IsQuorumMatrix(matrix, keys, ordered, q, selfIndex)
  {
    var n := |ordered|;
    matrix := [];
    RepOf(n, q, selfIndex);
    OptimalBounds(n, q);
    var self := if selfIndex >= optimal then selfIndex % optimal else selfIndex;
    for round := 0 to rounds
      invariant |matrix| == round
      invariant forall r :: 0 <= r < round ==>
        && StrictlySorted(matrix[r])
        && |matrix[r]| <= 2 * q
        && Elements(matrix[r]) == QuorumKeys(keys, ordered, q, r, selfIndex)
    {
      var quorum := RoundQuorum(keys, ordered, selfIndex, self, optimal, round, q);
      matrix := matrix + [quorum];
    }
  }

  method RoundQuorum(keys: seq<PubKey>, ordered: seq<nat>, ghost selfIndex: nat, self: nat,
                     optimal: nat, round: nat, q: nat)
    returns (quorum: seq<PubKey>)
    requires |keys| == |ordered| < USIZE_MAX && IsOrdering(ordered) && q >= 3
    requires selfIndex < |ordered| && optimal == Optimal(|ordered|, q)
    requires self == Rep(|ordered|, q, selfIndex)
    requires round < Rounds(|ordered|, q)
    ensures StrictlySorted(quorum) && |quorum| <= 2 * q
    ensures Elements(quorum) == QuorumKeys(keys, ordered, q, round, selfIndex)
  {
    var n := |ordered|;
    var width, sizeMultiple, offset := RoundGeometry(n, q, round, optimal);
    LineShape(n, q, round);
    OptimalBounds(n, q);
    var stride := UnwrapOr(CheckedMul(sizeMultiple, offset), optimal);
    var first := FirstOf(n, q, round, self, width, stride);
    quorum := PushQuorumMembers([], keys, ordered, first, sizeMultiple, offset, q);
    ghost var one := quorum;
    var second := CheckedAdd(optimal, first);
    if n >= optimal && second.Some? {
      quorum := PushQuorumMembers(quorum, keys, ordered, second.value, sizeMultiple, offset, q);
    } else {
      WalkMono(optimal + first, stride, 0, 0);
      NoFurtherPoints(optimal + first, stride, 0, q, n);
    }
    BothSegments(keys, ordered, q, round, selfIndex, first, one, quorum);
    quorum := SortAndDedup(quorum);
  }

  method FirstOf(ghost n: nat, ghost q: nat, ghost round: nat, self: nat, width: nat, stride: nat)
    returns (first: nat)
    requires q >= 2 && 1 <= n < USIZE_MAX && round < Rounds(n, q)
    requires self < n && width == Width(n, q, round) && stride == Stride(n, q, round)
    ensures first == FirstMember(n, q, round, self)
  {
    LineShape(n, q, round);
    OptimalBounds(n, q);
    QuotientNonNegative(self, width);
    DivMod(self, width);
    DivMod(self, stride);
    SameResidueBelow(self, width, stride, n, q, round);
    first := UnwrapOr(CheckedAdd(self - self % width, self % stride), self);
  }

  lemma {:induction false} SameResidueBelow(s: nat, width: nat, stride: nat, n: nat, q: nat, r: nat)
    requires q >= 2 && n >= 1 && r < Rounds(n, q) && s < n
    requires width == Width(n, q, r) && stride == Stride(n, q, r) && width >= 1 && stride >= 1
    ensures s % stride <= s % width
  {
    LineShape(n, q, r);
    if n >= q {
      SameMod(s, stride, q, width);
      DivMod(s % width, stride);
      DivMod(s, width);
      QuotientNonNegative(s % width, stride);
    }
  }

  lemma {:induction false} BothSegments(keys: seq<PubKey>, ordered: seq<nat>, q: nat, r: nat, a: nat, first: nat,
                                        one: seq<PubKey>, both: seq<PubKey>)
    requires |keys| == |ordered| && IsOrdering(ordered) && q >= 2
    requires a < |ordered| && r < Rounds(|ordered|, q)
    requires first == FirstMember(|ordered|, q, r, Rep(|ordered|, q, a))
    requires Walked(keys, ordered, [], one, first, Stride(|ordered|, q, r), q)
    requires Walked(keys, ordered, one, both, Optimal(|ordered|, q) + first, Stride(|ordered|, q, r), q)
    ensures Elements(both) == QuorumKeys(keys, ordered, q, r, a)
  {
    var n := |ordered|;
    SegmentsAreQuorum(n, q, r, a);
    KeysAtUnion(keys, ordered, Points(first, Stride(n, q, r), q, n),
                Points(Optimal(n, q) + first, Stride(n, q, r), q, n));
  }
}
