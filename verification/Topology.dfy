/**
 The hierarchical quorum overlay: how many rounds a network of `n` nodes runs
 and which positions meet in each round.

 A position is an index into the epoch's node ordering. With `q^e <= n < q^(e+1)`
 and `m = n / q^e`, the optimal network is `m * q^e` positions; the remaining
 `n % q^e` tail positions shadow the positions they are congruent to.
 */
module Topology {
  import opened Wrappers
  import opened Arithmetic

  /** Largest `e` with `q^e <= n`. */
  ghost function Exponent(n: nat, q: nat): (e: nat)
    requires n >= 1 && q >= 2
  {
    ExponentFrom(n, q, 0)
  }

  ghost function ExponentFrom(n: nat, q: nat, e: nat): (r: nat)
    requires q >= 2 && Pow(q, e) <= n
    decreases n - Pow(q, e)
  {
    PowGrows(q, e);
    if n < Pow(q, e + 1) then e else ExponentFrom(n, q, e + 1)
  }

  lemma {:induction false} ExponentFromBrackets(n: nat, q: nat, e: nat)
    requires q >= 2 && Pow(q, e) <= n
    ensures Pow(q, ExponentFrom(n, q, e)) <= n < Pow(q, ExponentFrom(n, q, e) + 1)
    decreases n - Pow(q, e)
  {
    PowGrows(q, e);
    if n >= Pow(q, e + 1) {
      ExponentFromBrackets(n, q, e + 1);
    }
  }

  lemma {:induction false} PowGrows(q: nat, e: nat)
    requires q >= 2
    ensures 1 <= Pow(q, e) < Pow(q, e + 1)
  {
    PowPositive(q, e);
    MulMono(2, q, Pow(q, e));
  }

  ghost function Base(n: nat, q: nat): nat
    requires n >= 1 && q >= 2
  {
    Pow(q, Exponent(n, q))
  }

  lemma {:induction false} ExponentBrackets(n: nat, q: nat)
    requires n >= 1 && q >= 2
    ensures 1 <= Base(n, q) <= n < Pow(q, Exponent(n, q) + 1)
    ensures n >= q <==> Exponent(n, q) >= 1
  {
    ExponentFromBrackets(n, q, 0);
    PowPositive(q, Exponent(n, q));
    assert Pow(q, 1) == q * Pow(q, 0) == q;
    if Exponent(n, q) >= 1 {
      PowMono(q, 1, Exponent(n, q));
    }
  }

  /** The exponent is determined by its bracket. */
  lemma {:induction false} ExponentUnique(n: nat, q: nat, e: nat)
    requires n >= 1 && q >= 2
    requires Pow(q, e) <= n < Pow(q, e + 1)
    ensures e == Exponent(n, q)
  {
    ExponentBrackets(n, q);
    if e < Exponent(n, q) {
      PowMono(q, e + 1, Exponent(n, q));
    } else if e > Exponent(n, q) {
      PowMono(q, Exponent(n, q) + 1, e);
    }
  }

  ghost function Multiple(n: nat, q: nat): nat
    requires n >= 1 && q >= 2
  {
    PowPositive(q, Exponent(n, q));
    n / Base(n, q)
  }

  ghost function Optimal(n: nat, q: nat): nat
    requires n >= 1 && q >= 2
  {
    Base(n, q) * Multiple(n, q)
  }

  ghost function Rounds(n: nat, q: nat): nat
    requires n >= 1 && q >= 2
  {
    if n <= q then 1 else Exponent(n, q) + (if Multiple(n, q) > 1 then 1 else 0)
  }

  /** The optimal network is a positive number of complete base blocks and
      leaves less than one base block of tail nodes. */
  lemma {:induction false} OptimalBounds(n: nat, q: nat)
    requires n >= 1 && q >= 2
    ensures 1 <= Multiple(n, q) < q
    ensures 1 <= Base(n, q) <= Optimal(n, q) <= n
    ensures n - Optimal(n, q) < Base(n, q)
    ensures n < q ==> Optimal(n, q) == n
  {
    ExponentBrackets(n, q);
    var b, m := Base(n, q), Multiple(n, q);
    DivMod(n, b);
    if m <= 0 {
      MulMono(m, 0, b);
    }
    MulMono(1, m, b);
    if m >= q {
      MulMono(q, m, b);
    }
  }

  /** Repeated multiplication, `None` once the product leaves `usize`. */
  method CheckedPow(base: nat, exponent: nat) returns (r: Option<nat>)
    requires base >= 1
    ensures r == if Pow(base, exponent) <= USIZE_MAX then Some(Pow(base, exponent)) else None
  {
    var value: nat := 1;
    var i := 0;
    while i < exponent
      invariant 0 <= i <= exponent
      invariant value == Pow(base, i) <= USIZE_MAX
    {
      var next := CheckedMul(value, base);
      assert Pow(base, i + 1) == value * base;
      PowMono(base, i + 1, exponent);
      if next.None? {
        return None;
      }
      value := next.value;
      i := i + 1;
    }
    return Some(value);
  }

  /** The optimal network size and round count of a network of `n` nodes. */
  method FindRoundNumber(n: nat, q: nat) returns (optimal: nat, rounds: nat)
    requires q >= 3 && n <= USIZE_MAX
    ensures n == 0 ==> optimal == 0 && rounds == 0
    ensures n >= 1 ==> optimal == Optimal(n, q) && rounds == Rounds(n, q)
  {
    if n == 0 {
      return 0, 0;
    }
    if n <= q {
      OptimalBounds(n, q);
      if n == q {
        assert Pow(q, 1) == q && Pow(q, 2) == q * q;
        MulMono(2, q, q);
        ExponentUnique(n, q, 1);
      }
      return n, 1;
    }
    var base: nat := q;
    var exponent := 1;
    assert Pow(q, 1) == q;
    while true
      invariant 1 <= exponent && base == Pow(q, exponent) <= n
      decreases n - base
    {
      var next := CheckedMul(base, q);
      assert Pow(q, exponent + 1) == base * q;
      if next.None? || next.value > n {
        break;
      }
      PowPositive(q, exponent);
      MulMono(2, q, base);
      base := next.value;
      exponent := exponent + 1;
    }
    ExponentUnique(n, q, exponent);
    OptimalBounds(n, q);
    var multiple := n / base;
    optimal := UnwrapOr(CheckedMul(base, multiple), base);
    if multiple > 1 {
      MulMono(2, multiple, base);
    }
    rounds := exponent + (if optimal > base then 1 else 0);
  }

  /** Span of positions inside which round `r` forms its lines. */
  ghost function Width(n: nat, q: nat, r: nat): nat
    requires n >= 1 && q >= 2
  {
    if r < Exponent(n, q) then Pow(q, r + 1) else Optimal(n, q)
  }

  /** Distance between consecutive members of one line of round `r`. */
  ghost function Stride(n: nat, q: nat, r: nat): nat
    requires n >= 1 && q >= 2
  {
    if r < Exponent(n, q) then Pow(q, r)
    else Multiple(n, q) * Pow(q, SaturatingSub(Exponent(n, q), 1))
  }

  ghost predicate IsMultiple(a: nat, d: nat) {
    exists k: nat :: a == d * k
  }

  /** In a network of at least `q` nodes a line has `q` members; a smaller
      network has one-member lines. */
  lemma {:induction false} LineShape(n: nat, q: nat, r: nat)
    requires n >= 1 && q >= 2 && r < Rounds(n, q)
    ensures 1 <= Stride(n, q, r) <= Width(n, q, r) <= Optimal(n, q)
    ensures n >= q ==> Width(n, q, r) == q * Stride(n, q, r)
    ensures n < q ==> Width(n, q, r) == Stride(n, q, r) == n
    ensures IsMultiple(Optimal(n, q), Width(n, q, r))
  {
    ExponentBrackets(n, q);
    OptimalBounds(n, q);
    var e, m := Exponent(n, q), Multiple(n, q);
    if r < e {
      CompleteRound(q, r, e, m);
    } else if e == 0 {
      assert Optimal(n, q) == Width(n, q, r) * 1;
    } else {
      TopRound(q, e, m);
      assert Optimal(n, q) == Width(n, q, r) * 1;
    }
  }

  lemma {:induction false} CompleteRound(q: nat, r: nat, e: nat, m: nat)
    requires q >= 2 && r < e && m >= 1
    ensures 1 <= Pow(q, r) <= Pow(q, r + 1) <= Pow(q, e) * m
    ensures Pow(q, r + 1) == q * Pow(q, r)
    ensures IsMultiple(Pow(q, e) * m, Pow(q, r + 1))
  {
    PowGrows(q, r);
    PowSplit(q, r + 1, e);
    PowPositive(q, e - r - 1);
    Regroup(Pow(q, r + 1), Pow(q, e - r - 1), m);
  }

  lemma {:induction false} Regroup(p: nat, s: nat, m: nat)
    requires s >= 1 && m >= 1
    ensures IsMultiple((p * s) * m, p)
    ensures p <= (p * s) * m
  {
    MulAssoc(p, s, m);
    assert (p * s) * m == p * (s * m);
    MulMono(1, s, m);
    MulMono(1, s * m, p);
  }

  lemma {:induction false} TopRound(q: nat, e: nat, m: nat)
    requires q >= 2 && e >= 1 && m >= 1
    ensures Pow(q, e) * m == q * (m * Pow(q, e - 1))
    ensures 1 <= m * Pow(q, e - 1) <= Pow(q, e) * m
  {
    var p := Pow(q, e - 1);
    PowPositive(q, e - 1);
    MulAssoc(q, p, m);
    MulMono(1, m, p);
    MulMono(1, q, m * p);
  }

  /** The optimal-network position a node acts as. */
  ghost function Rep(n: nat, q: nat, x: nat): (p: nat)
    requires n >= 1 && q >= 2
  {
    OptimalBounds(n, q);
    x % Optimal(n, q)
  }

  /** Positions `a` and `b` meet in round `r`. */
  ghost predicate Meets(n: nat, q: nat, r: nat, a: nat, b: nat)
    requires n >= 1 && q >= 2 && r < Rounds(n, q)
  {
    LineShape(n, q, r);
    && Rep(n, q, a) / Width(n, q, r) == Rep(n, q, b) / Width(n, q, r)
    && Rep(n, q, a) % Stride(n, q, r) == Rep(n, q, b) % Stride(n, q, r)
  }

  /** The quorum of position `a` in round `r`. */
  ghost function Quorum(n: nat, q: nat, r: nat, a: nat): set<nat>
    requires n >= 1 && q >= 2 && r < Rounds(n, q)
  {
    set b | 0 <= b < n && Meets(n, q, r, a, b)
  }

  /** Every round partitions the network: quorums contain their owner and the
      members of a quorum all have that same quorum. */
  lemma {:induction false} QuorumsPartition(n: nat, q: nat, r: nat, a: nat, b: nat)
    requires q >= 2 && a < n && b < n && r < Rounds(n, q)
    ensures a in Quorum(n, q, r, a)
    ensures b in Quorum(n, q, r, a) <==> Quorum(n, q, r, a) == Quorum(n, q, r, b)
    ensures b in Quorum(n, q, r, a) <==> a in Quorum(n, q, r, b)
    ensures b !in Quorum(n, q, r, a) ==> Quorum(n, q, r, a) !! Quorum(n, q, r, b)
  {
    if Quorum(n, q, r, a) == Quorum(n, q, r, b) {
      assert b in Quorum(n, q, r, b);
    }
  }
}
