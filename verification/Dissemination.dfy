/**
 All-to-all dissemination: after the last round every node holds the block of
 every node, exactly when the network has at least `q` nodes or only one.
 */
module Dissemination {
  import opened Arithmetic
  import opened Topology

  /** Node `s` holds the block of node `t` after `r` rounds, when every node ends
      each round with the union of what its quorum held before it. */
  ghost predicate Holds(n: nat, q: nat, r: nat, s: nat, t: nat)
    requires q >= 2 && s < n && t < n && r <= Rounds(n, q)
    decreases r, 1
  {
    if r == 0 then s == t else exists u :: Relays(n, q, r, s, u, t)
  }

  /** In the `r`-th round, counting from one, `s` receives the block of `t`
      from `u`. */
  ghost predicate Relays(n: nat, q: nat, r: nat, s: nat, u: nat, t: nat)
    requires q >= 2 && s < n && t < n && 1 <= r <= Rounds(n, q)
    decreases r, 0
  {
    u < n && Meets(n, q, r - 1, s, u) && Holds(n, q, r - 1, u, t)
  }

  /** `s` and `t` act as positions of the same group of `p` consecutive ones. */
  ghost predicate SameGroup(n: nat, q: nat, p: nat, s: nat, t: nat)
    requires n >= 1 && q >= 2 && p >= 1
  {
    Rep(n, q, s) / p == Rep(n, q, t) / p
  }

  /** After `r` of the complete rounds, a node holds exactly the blocks of its
      own group of `q^r` consecutive positions and of the tail nodes shadowing
      that group. */
  lemma {:induction false} HeldAfterCompleteRounds(n: nat, q: nat, r: nat, s: nat, t: nat)
    requires q >= 2 && s < n && t < n && 1 <= r <= Exponent(n, q) && Pow(q, r) >= 1
    ensures r <= Rounds(n, q)
    ensures Holds(n, q, r, s, t) <==> SameGroup(n, q, Pow(q, r), s, t)
  {
    RoundsCoverExponent(n, q);
    if Holds(n, q, r, s, t) {
      HeldInGroup(n, q, r, s, t);
    }
    if SameGroup(n, q, Pow(q, r), s, t) {
      GroupHeld(n, q, r, s, t);
    }
  }

  lemma {:induction false} GroupHeld(n: nat, q: nat, r: nat, s: nat, t: nat)
    requires q >= 2 && s < n && t < n && 1 <= r <= Exponent(n, q) && Pow(q, r) >= 1
    requires r <= Rounds(n, q) && SameGroup(n, q, Pow(q, r), s, t)
    ensures Holds(n, q, r, s, t)
  {
    if r == 1 {
      FirstRound(n, q, s, t);
    } else {
      PowPositive(q, r - 1);
      var u := Relay(n, q, r - 1, s, t);
      GroupHeld(n, q, r - 1, u, t);
      Received(n, q, r, s, u, t);
    }
  }

  lemma {:induction false} Received(n: nat, q: nat, r: nat, s: nat, u: nat, t: nat)
    requires q >= 2 && s < n && t < n && u < n && 1 <= r <= Rounds(n, q)
    requires Meets(n, q, r - 1, s, u) && Holds(n, q, r - 1, u, t)
    ensures Holds(n, q, r, s, t)
  {
    assert Relays(n, q, r, s, u, t);
  }

  lemma {:induction false} HeldInGroup(n: nat, q: nat, r: nat, s: nat, t: nat)
    requires q >= 2 && s < n && t < n && 1 <= r <= Exponent(n, q) && Pow(q, r) >= 1
    requires r <= Rounds(n, q) && Holds(n, q, r, s, t)
    ensures SameGroup(n, q, Pow(q, r), s, t)
  {
    if r == 1 {
      FirstRound(n, q, s, t);
    } else {
      PowPositive(q, r - 1);
      var u :| Relays(n, q, r, s, u, t);
      HeldInGroup(n, q, r - 1, u, t);
      GroupsNest(n, q, r - 1, u, t);
      MeetInGroup(n, q, r - 1, s, u);
    }
  }

  lemma {:induction false} MeetInGroup(n: nat, q: nat, r: nat, s: nat, u: nat)
    requires n >= 1 && q >= 2 && r < Exponent(n, q) && r < Rounds(n, q) && Pow(q, r + 1) >= 1
    requires Meets(n, q, r, s, u)
    ensures SameGroup(n, q, Pow(q, r + 1), s, u)
  {
  }

  lemma {:induction false} GroupsNest(n: nat, q: nat, r: nat, s: nat, t: nat)
    requires n >= 1 && q >= 2 && Pow(q, r) >= 1 && Pow(q, r + 1) >= 1
    requires SameGroup(n, q, Pow(q, r), s, t)
    ensures SameGroup(n, q, Pow(q, r + 1), s, t)
  {
    DivDiv(Rep(n, q, s), Pow(q, r), q);
    DivDiv(Rep(n, q, t), Pow(q, r), q);
  }

  lemma {:induction false} RoundsCoverExponent(n: nat, q: nat)
    requires q >= 2 && n >= 1
    ensures Exponent(n, q) <= Rounds(n, q)
  {
    ExponentBrackets(n, q);
    if n == q {
      ExponentAtQ(q);
    }
  }

  lemma {:induction false} FirstRound(n: nat, q: nat, s: nat, t: nat)
    requires q >= 2 && s < n && t < n && Exponent(n, q) >= 1
    ensures Rounds(n, q) >= 1 && Pow(q, 1) == q
    ensures Holds(n, q, 1, s, t) <==> SameGroup(n, q, q, s, t)
  {
    assert Pow(q, 0) == 1;
    assert Meets(n, q, 0, s, t) <==> SameGroup(n, q, q, s, t);
    if Meets(n, q, 0, s, t) {
      assert Relays(n, q, 1, s, t, t);
    }
  }

  /** The member of `s`'s round-`r` quorum that lies in `t`'s group. */
  lemma {:induction false} Relay(n: nat, q: nat, r: nat, s: nat, t: nat) returns (u: nat)
    requires q >= 2 && s < n && t < n && r < Exponent(n, q) && r < Rounds(n, q)
    requires Pow(q, r + 1) >= 1 && Pow(q, r) >= 1
    requires SameGroup(n, q, Pow(q, r + 1), s, t)
    ensures u < n && Meets(n, q, r, s, u)
    ensures SameGroup(n, q, Pow(q, r), u, t)
  {
    OptimalBounds(n, q);
    MultipleOf(n, q, r);
    var k :| Optimal(n, q) == Pow(q, r) * k;
    u := CrossPoint(Pow(q, r), q, k, Rep(n, q, s), Rep(n, q, t));
    DivModUnique(u, Optimal(n, q), 0, u);
  }

  /** The position of `t`'s group of size `p` with the residue of `s`. */
  lemma {:induction false} CrossPoint(p: nat, q: nat, k: nat, s: nat, t: nat) returns (u: nat)
    requires p >= 1 && q >= 1 && t < p * k && p * q >= 1 && q * p >= 1
    requires s / (q * p) == t / (q * p)
    ensures u < p * k && u / p == t / p && u % p == s % p
    ensures u / (q * p) == s / (q * p)
  {
    DivMod(t, p);
    DivMod(s, p);
    u := p * (t / p) + s % p;
    DivModUnique(u, p, t / p, s % p);
    BelowMultiple(u, t, p, k);
    DivDiv(u, p, q);
    DivDiv(t, p, q);
  }

  lemma {:induction false} MultipleOf(n: nat, q: nat, r: nat)
    requires q >= 2 && n >= 1 && r <= Exponent(n, q)
    ensures IsMultiple(Optimal(n, q), Pow(q, r))
  {
    var e := Exponent(n, q);
    PowSplit(q, r, e);
    MulAssoc(Pow(q, r), Pow(q, e - r), Multiple(n, q));
    assert Optimal(n, q) == Pow(q, r) * (Pow(q, e - r) * Multiple(n, q));
  }

  /** A position in the same group as one below a multiple of the group size is
      below that multiple too. */
  lemma {:induction false} BelowMultiple(u: nat, t: nat, p: nat, k: nat)
    requires p >= 1 && t < p * k && u / p == t / p
    ensures u < p * k
  {
    DivMod(t, p);
    DivMod(u, p);
    if t / p >= k {
      MulMono(k, t / p, p);
    }
    MulMono(t / p + 1, k, p);
  }

  /** In the partial top round, the stride is shorter than a base block, so the
      line of `s` enters every base block. */
  lemma {:induction false} TopRelay(n: nat, q: nat, s: nat, t: nat) returns (u: nat)
    requires q >= 2 && s < n && t < n
    requires n > q && Multiple(n, q) > 1
    ensures Exponent(n, q) < Rounds(n, q) && Base(n, q) >= 1
    ensures u < n && Meets(n, q, Exponent(n, q), s, u)
    ensures SameGroup(n, q, Base(n, q), u, t)
  {
    ExponentBrackets(n, q);
    OptimalBounds(n, q);
    var e := Exponent(n, q);
    LineShape(n, q, e);
    MulMono(Multiple(n, q), q, Pow(q, e - 1));
    u := TopPoint(Base(n, q), Multiple(n, q), Stride(n, q, e), Rep(n, q, s), Rep(n, q, t));
    DivModUnique(u, Optimal(n, q), 0, u);
    DivModUnique(Rep(n, q, s), Optimal(n, q), 0, Rep(n, q, s));
  }

  lemma {:induction false} TopPoint(b: nat, m: nat, d: nat, s: nat, t: nat) returns (u: nat)
    requires 1 <= d <= b && t < b * m
    ensures u < b * m && u / b == t / b && u % d == s % d
  {
    var k := t / b;
    var c, j := (s - b * k) % d, (s - b * k) / d;
    DivMod(t, b);
    DivMod(s - b * k, d);
    u := b * k + c;
    DivModUnique(u, b, k, c);
    BelowMultiple(u, t, b, m);
    assert u == d * (-j) + s;
    SameResidue(u, s, d, -j);
  }

  lemma {:induction false} SameResidue(u: nat, s: nat, d: nat, j: int)
    requires d >= 1 && u == d * j + s
    ensures u % d == s % d
  {
    DivMod(s, d);
    assert u == d * (j + s / d) + s % d;
    DivModUnique(u, d, j + s / d, s % d);
  }

  /** A network smaller than a quorum puts every node in a quorum of its own. */
  lemma {:induction false} SmallNetworkIsolated(n: nat, q: nat, s: nat, t: nat)
    requires q >= 2 && s < n < q && t < n
    ensures Meets(n, q, 0, s, t) <==> s == t
  {
    OptimalBounds(n, q);
    LineShape(n, q, 0);
    DivModUnique(s, n, 0, s);
    DivModUnique(t, n, 0, t);
  }

  /** After the last round everybody holds everything iff the network is at
      least one quorum wide or has a single node. */
  lemma {:induction false} AllToAll(n: nat, q: nat)
    requires q >= 2 && n >= 1
    ensures (forall s, t | 0 <= s < n && 0 <= t < n :: Holds(n, q, Rounds(n, q), s, t))
            <==> (n >= q || n == 1)
  {
    if n >= q {
      forall s, t | 0 <= s < n && 0 <= t < n
        ensures Holds(n, q, Rounds(n, q), s, t)
      {
        EverythingReaches(n, q, s, t);
      }
    } else if n == 1 {
      assert Meets(n, q, 0, 0, 0);
      assert Relays(n, q, 1, 0, 0, 0);
    } else {
      SmallNetworkIsolated(n, q, 0, 1);
      assert !Holds(n, q, 1, 0, 1);
    }
  }

  lemma {:induction false} EverythingReaches(n: nat, q: nat, s: nat, t: nat)
    requires q >= 2 && s < n && t < n && n >= q
    ensures Holds(n, q, Rounds(n, q), s, t)
  {
    ExponentBrackets(n, q);
    var e := Exponent(n, q);
    RoundsCoverExponent(n, q);
    if n > q && Multiple(n, q) > 1 {
      var u := TopRelay(n, q, s, t);
      HeldAfterCompleteRounds(n, q, e, u, t);
      Received(n, q, e + 1, s, u, t);
    } else {
      HeldAfterCompleteRounds(n, q, e, s, t);
      OneGroup(n, q, s, t);
    }
  }

  lemma {:induction false} OneGroup(n: nat, q: nat, s: nat, t: nat)
    requires q >= 2 && s < n && t < n && n >= q
    requires n == q || Multiple(n, q) <= 1
    ensures Base(n, q) >= 1 && SameGroup(n, q, Base(n, q), s, t)
  {
    OptimalBounds(n, q);
    if n == q {
      ExponentAtQ(q);
    }
    DivModUnique(Rep(n, q, s), Base(n, q), 0, Rep(n, q, s));
    DivModUnique(Rep(n, q, t), Base(n, q), 0, Rep(n, q, t));
  }

  lemma {:induction false} ExponentAtQ(q: nat)
    requires q >= 2
    ensures Exponent(q, q) == 1 && Multiple(q, q) == 1
  {
    assert Pow(q, 1) == q && Pow(q, 2) == q * q;
    MulMono(2, q, q);
    ExponentUnique(q, q, 1);
  }
}
