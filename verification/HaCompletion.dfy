/**
 Completing accepted writes in a batch: the batch is put in identity order,
 repeats are dropped, and the totals are reduced as each write leaves.
 */
module HaCompletion {
  import opened Wrappers
  import opened Digests
  import opened HaTypes
  import opened HaLifecycle
  import opened HaStore
  import opened HaReload
  import opened HaPersist
  import opened HaPlans

  type Completion = (CommandIdentity, Digest)

  /** No later entry has a smaller identity. */
  predicate InOrder(cs: seq<Completion>) {
    forall i, j :: 0 <= i < j < |cs| ==> !Precedes(cs[j].0, cs[i].0)
  }

  /** Inserts one completion behind those that do not exceed it. */
  method InsertInOrder(cs: seq<Completion>, c: Completion) returns (r: seq<Completion>)
    requires InOrder(cs)
    ensures InOrder(r) && multiset(r) == multiset(cs) + multiset{c}
  {
    hide InOrder, Precedes;
    var j := |cs|;
    while j > 0 && Precedes(c.0, cs[j - 1].0)
      invariant 0 <= j <= |cs|
      invariant forall k :: j <= k < |cs| ==> Precedes(c.0, cs[k].0)
    {
      j := j - 1;
    }
    r := cs[..j] + [c] + cs[j..];
    assert cs == cs[..j] + cs[j..];
    InsertedInOrder(cs, c, j);
  }

  lemma {:induction false} InsertedInOrder(cs: seq<Completion>, c: Completion, j: nat)
    requires InOrder(cs) && j <= |cs|
    requires forall k :: j <= k < |cs| ==> Precedes(c.0, cs[k].0)
    requires j > 0 ==> !Precedes(c.0, cs[j - 1].0)
    ensures InOrder(cs[..j] + [c] + cs[j..])
  {
    forall k | 0 <= k < j ensures !Precedes(c.0, cs[k].0) {
      if Precedes(c.0, cs[k].0) && k < j - 1 {
        PrecedesTotal(cs[k].0, cs[j - 1].0);
        if Precedes(cs[k].0, cs[j - 1].0) {
          PrecedesTransitive(c.0, cs[k].0, cs[j - 1].0);
        }
      }
    }
  }

  /** Puts a batch in identity order. */
  method SortCompletions(cs: seq<Completion>) returns (sorted: seq<Completion>)
    ensures InOrder(sorted) && multiset(sorted) == multiset(cs)
  {
    sorted := [];
    for i := 0 to |cs|
      invariant InOrder(sorted) && multiset(sorted) == multiset(cs[..i])
    {
      assert cs[..i + 1] == cs[..i] + [cs[i]];
      sorted := InsertInOrder(sorted, cs[i]);
    }
    assert cs[..|cs|] == cs;
  }

  lemma {:induction false} SameElements(a: seq<Completion>, b: seq<Completion>, w: Writes)
    requires multiset(a) == multiset(b)
    ensures |a| == |b| && Named(a) == Named(b)
    ensures (forall i :: 0 <= i < |a| ==> Completable(w, a[i])) <==> (forall i :: 0 <= i < |b| ==> Completable(w, b[i]))
  {
    assert |multiset(a)| == |a| && |multiset(b)| == |b|;
    NamedWithin(a, b);
    NamedWithin(b, a);
    forall i | 0 <= i < |a| ensures a[i] in b {
      assert a[i] in multiset(a);
    }
    forall i | 0 <= i < |b| ensures b[i] in a {
      assert b[i] in multiset(b);
    }
  }

  lemma {:induction false} NamedWithin(a: seq<Completion>, b: seq<Completion>)
    requires multiset(a) == multiset(b)
    ensures Named(a) <= Named(b)
  {
    forall k | k in Named(a) ensures k in Named(b) {
      var i :| 0 <= i < |a| && a[i].0 == k;
      assert a[i] in multiset(a);
      assert a[i] in b;
      var j :| 0 <= j < |b| && b[j] == a[i];
      assert b[j].0 == k;
    }
  }

  lemma {:induction false} NamedAppend(cs: seq<Completion>, i: nat)
    requires i < |cs|
    ensures Named(cs[..i + 1]) == Named(cs[..i]) + {cs[i].0}
  {
    forall k | k in Named(cs[..i + 1]) ensures k in Named(cs[..i]) + {cs[i].0} {
      var j :| 0 <= j < i + 1 && cs[..i + 1][j].0 == k;
      if j < i {
        assert cs[..i][j].0 == k;
      }
    }
    forall k | k in Named(cs[..i]) ensures k in Named(cs[..i + 1]) {
      var j :| 0 <= j < i && cs[..i][j].0 == k;
      assert cs[..i + 1][j].0 == k;
    }
    assert cs[..i + 1][i].0 == cs[i].0;
  }

  /** The next identity of an ordered batch exceeds those before it or repeats the last. */
  lemma {:induction false} NextExceeds(cs: seq<Completion>, i: nat, removals: seq<CommandIdentity>)
    requires InOrder(cs) && 0 < i < |cs| && removals != [] && removals[|removals| - 1] == cs[i - 1].0
    requires CanonicalIds(removals) && cs[i].0 != cs[i - 1].0
    ensures CanonicalIds(removals + [cs[i].0]) && cs[i].0 !in IdSet(removals)
  {
    var last := cs[i - 1].0;
    PrecedesTotal(last, cs[i].0);
    forall j | 0 <= j < |removals| ensures Precedes(removals[j], cs[i].0) {
      if j < |removals| - 1 {
        PrecedesTransitive(removals[j], last, cs[i].0);
      }
    }
  }

  /** The writes and totals left after one more removal. */
  lemma {:induction false} RemoveOneMore(h: Hashes, w: Writes, removals: seq<CommandIdentity>, k: CommandIdentity,
                                         bytes: nat, commitment: Digest)
    requires k in w && k !in IdSet(removals) && Summarised(h, w - IdSet(removals), bytes, commitment)
    ensures bytes >= RecordBytes(w[k])
    ensures Summarised(h, w - IdSet(removals + [k]), bytes - RecordBytes(w[k]),
                       Xor(commitment, RecordCommitment(h, w[k])))
  {
    hide Xor;
    IdSetAppend(removals, k);
    var rest := w - IdSet(removals);
    SummariesRemove(h, rest, k);
    assert rest - {k} == w - IdSet(removals + [k]);
  }

  /** Walks the ordered batch, checking and removing. */
  method FoldRemovals(h: Hashes, w: Writes, bytes: nat, commitment: Digest, cs: seq<Completion>)
    returns (r: Option<seq<CommandIdentity>>, nextBytes: nat, nextCommitment: Digest)
    requires InOrder(cs) && Summarised(h, w, bytes, commitment)
    ensures r.Some? <==> forall i :: 0 <= i < |cs| ==> Completable(w, cs[i])
    ensures r.Some? ==> CanonicalIds(r.value) && IdSet(r.value) == Named(cs) && |r.value| <= |cs|
                        && Summarised(h, w - IdSet(r.value), nextBytes, nextCommitment)
  {
    hide Xor, RecordCommitment, RecordBytes, Summarised, Named, IdSet;
    var removals: seq<CommandIdentity> := [];
    nextBytes, nextCommitment := bytes, commitment;
    NothingRemoved(w, cs);
    for i := 0 to |cs|
      invariant forall j :: 0 <= j < i ==> Completable(w, cs[j])
      invariant CanonicalIds(removals) && |removals| <= i && IdSet(removals) == Named(cs[..i])
      invariant i > 0 ==> removals != [] && removals[|removals| - 1] == cs[i - 1].0
      invariant i == 0 ==> removals == []
      invariant Summarised(h, w - IdSet(removals), nextBytes, nextCommitment)
    {
      var id, hash := cs[i].0, cs[i].1;
      NamedAppend(cs, i);
      if removals != [] && removals[|removals| - 1] == id {
        if cs[i - 1].1 != hash {
          assert Completable(w, cs[i - 1]);
          assert !Completable(w, cs[i]);
          return None, 0, commitment;
        }
        RepeatAddsNothing(cs, i, id);
        continue;
      }
      if id !in w || w[id].commandHash != hash || !w[id].disposition.Pending? {
        assert !Completable(w, cs[i]);
        return None, 0, commitment;
      }
      if i > 0 {
        NextExceeds(cs, i, removals);
      } else {
        NothingRemoved(w, cs);
      }
      RemoveOneMore(h, w, removals, id, nextBytes, nextCommitment);
      IdSetAppend(removals, id);
      nextBytes := nextBytes - RecordBytes(w[id]);
      nextCommitment := Xor(nextCommitment, RecordCommitment(h, w[id]));
      removals := removals + [id];
    }
    assert cs[..|cs|] == cs;
    r := Some(removals);
  }

  lemma {:induction false} NothingRemoved(w: Writes, cs: seq<Completion>)
    ensures IdSet([]) == {} == Named(cs[..0]) && w - IdSet([]) == w
  {
  }

  lemma {:induction false} RepeatAddsNothing(cs: seq<Completion>, i: nat, id: CommandIdentity)
    requires 0 < i < |cs| && cs[i].0 == id == cs[i - 1].0
    ensures Named(cs[..i]) + {id} == Named(cs[..i])
  {
    assert cs[..i][i - 1].0 == id;
  }

  lemma {:induction false} RemovalDelta(hc: HaCodec, w: Writes, removals: seq<CommandIdentity>)
    requires CanonicalIds(removals) && |removals| <= MAX_ACCEPTED_WRITES
    ensures ValidDelta(hc, SealedDelta(hc, [], removals))
    ensures ApplyDelta(w, SealedDelta(hc, [], removals)) == w - IdSet(removals)
  {
    assert w - IdSet(removals) + map[] == w - IdSet(removals);
  }

  lemma {:induction false} CompletionPlanIsGood(hc: HaCodec, l: Lifecycle, cs: seq<Completion>,
                                                removals: seq<CommandIdentity>, p: Plan)
    requires Inv(hc.hashes, l) && CompleteAll(l, cs) == Some(p.next) && p.next.writes == l.writes - IdSet(removals)
    requires CanonicalIds(removals) && |removals| <= MAX_ACCEPTED_WRITES
    requires Summarised(hc.hashes, p.next.writes, p.bytes, p.commitment)
    requires p.upserts == [] && p.removals == removals
    ensures GoodPlan(hc, l.writes, p)
  {
    hide Inv, CompleteAll, ValidDelta, ApplyDelta, SealedDelta, IdSet, CanonicalIds;
    CompleteKeepsInv(hc.hashes, l, cs);
    RemovalDelta(hc, l.writes, removals);
  }

  /** Plans one completion batch. */
  method PlanComplete(hc: HaCodec, l: Lifecycle, bytes: nat, commitment: Digest, completions: seq<Completion>)
    returns (r: Option<Plan>)
    requires Inv(hc.hashes, l) && Summarised(hc.hashes, l.writes, bytes, commitment)
    requires 0 < |completions| <= MAX_ACCEPTED_WRITES
    ensures r.Some? <==> CompleteAll(l, completions).Some?
    ensures r.Some? ==> GoodPlan(hc, l.writes, r.value) && r.value.next == CompleteAll(l, completions).value
  {
    hide Inv, GoodPlan, Summarised, Named, IdSet, Completable;
    var canonical := SortCompletions(completions);
    SameElements(canonical, completions, l.writes);
    var removals, nextBytes, nextCommitment := FoldRemovals(hc.hashes, l.writes, bytes, commitment, canonical);
    if removals.None? {
      return None;
    }
    var p := Plan(l.(writes := l.writes - IdSet(removals.value)), nextBytes, nextCommitment, [], removals.value);
    CompletionPlanIsGood(hc, l, completions, removals.value, p);
    return Some(p);
  }
}
