/**
 Completing a batch again and again: requests that time out, fail or crash at any
 point, and what a final undisturbed request makes of them. A batch whose writes
 are no longer all pending is applied and kept; that case is stated exactly.
 */
module CompletionRetries {
  import opened HaTypes
  import opened HaLifecycle
  import opened HaManifest
  import opened GlobalCompletion
  import opened OrderedModel
  import opened CoordinatorModel
  import opened CoordinatorRuns

  /** One attempt at a request: how driving went, and whether a release that
      followed was stored. */
  datatype Try = Try(script: seq<Attempt>, cleaned: bool)

  function AfterTries(h: Hashes, s: Stores, q: Request, tries: seq<Try>): Stores
    decreases |tries|
  {
    if tries == [] then s
    else
      var n := |tries| - 1;
      AfterCompletion(h, AfterTries(h, s, q, tries[..n]), q, tries[n].script, tries[n].cleaned)
  }

  /** Either nothing was released yet, or exactly the batch, after it was applied. */
  ghost predicate Between(s: Stores, q: Request, t: Stores) {
    && Advanced(s.ordered, t.ordered)
    && (t.lifecycle == s.lifecycle
        || (t.lifecycle == ReleasedOf(s.lifecycle, q.commands) && IsApplied(t.ordered, q.reference)))
  }

  /** A released batch is left alone by every further request. */
  lemma {:induction false} ReleasedStays(h: Hashes, s: Stores, q: Request, t: Stores, script: seq<Attempt>,
                                         cleaned: bool)
    requires Proceeds(h, s, q) && t.lifecycle == ReleasedOf(s.lifecycle, q.commands)
    ensures PresenceOf(h, t.lifecycle, q.commands).Released? && AfterCompletion(h, t, q, script, cleaned) == t
  {
    hide PresenceOf, ReleasedOf, Drive, AllPending;
    ReleaseIsIdempotent(h, s.lifecycle, q.commands);
  }

  lemma {:induction false} AdvancedTransitive(a: Ordered, b: Ordered, c: Ordered)
    requires Advanced(a, b) && Advanced(b, c)
    ensures Advanced(a, c)
  {
  }

  lemma {:induction false} TryStaysBetween(h: Hashes, s: Stores, q: Request, t: Stores, a: Try)
    requires Proceeds(h, s, q) && Between(s, q, t)
    ensures Between(s, q, AfterCompletion(h, t, q, a.script, a.cleaned))
  {
    hide PresenceOf, ReleasedOf, Drive, AllPending, IsApplied, AfterCompletion;
    CompletionAdvances(h, t, q, a.script, a.cleaned);
    AdvancedTransitive(s.ordered, t.ordered, AfterCompletion(h, t, q, a.script, a.cleaned).ordered);
    if t.lifecycle != s.lifecycle {
      ReleasedStays(h, s, q, t, a.script, a.cleaned);
    }
  }

  /** However many requests were cut short, and wherever. */
  lemma {:induction false} TriesStayBetween(h: Hashes, s: Stores, q: Request, tries: seq<Try>)
    requires Sound(s.ordered) && Proceeds(h, s, q)
    ensures Between(s, q, AfterTries(h, s, q, tries))
    decreases |tries|
  {
    hide AfterCompletion, Proceeds, IsApplied;
    if tries != [] {
      var n := |tries| - 1;
      TriesStayBetween(h, s, q, tries[..n]);
      TryStaysBetween(h, s, q, AfterTries(h, s, q, tries[..n]), tries[n]);
    }
  }

  /** Nothing is left to do: every request succeeds and changes nothing. */
  ghost predicate Finished(h: Hashes, s: Stores, q: Request) {
    && (forall script, cleaned :: AfterCompletion(h, s, q, script, cleaned) == s)
    && (forall outcome, released :: Succeeds(h, s, q, outcome, released))
  }

  lemma {:induction false} ReleasedIsFinished(h: Hashes, s: Stores, q: Request, t: Stores)
    requires Proceeds(h, s, q) && t.lifecycle == ReleasedOf(s.lifecycle, q.commands)
    requires t.ordered.contract == s.ordered.contract && IsApplied(t.ordered, q.reference)
    ensures Finished(h, t, q)
  {
    hide PresenceOf, ReleasedOf, AllPending, IsApplied, AfterCompletion;
    forall script, cleaned ensures AfterCompletion(h, t, q, script, cleaned) == t {
      ReleasedStays(h, s, q, t, script, cleaned);
    }
    ReleasedStays(h, s, q, t, [], false);
  }

  /** After any number of requests cut short anywhere, a request that reaches the
      applied milestone and stores the release succeeds and leaves exactly the
      writes of one undisturbed request; every request after that succeeds and
      changes nothing. */
  lemma {:induction false} RetryCompletes(h: Hashes, s: Stores, q: Request, tries: seq<Try>, script: seq<Attempt>)
    requires Sound(s.ordered) && Proceeds(h, s, q) && AllPending(s.lifecycle, q.commands)
    requires DriveFor(AfterTries(h, s, q, tries), q, script).outcome.Reached?
    ensures var t := AfterTries(h, s, q, tries);
            var u := AfterCompletion(h, t, q, script, true);
            && Succeeds(h, t, q, Reached, true)
            && u.lifecycle == ReleasedOf(s.lifecycle, q.commands) && IsApplied(u.ordered, q.reference)
            && Finished(h, u, q)
  {
    hide PresenceOf, ReleasedOf, AllPending, IsApplied, Drive, Finished;
    var t := AfterTries(h, s, q, tries);
    TriesStayBetween(h, s, q, tries);
    if t.lifecycle == s.lifecycle {
      DriveOutcome(t.ordered, t.ordered, false, q.reference, script);
    } else {
      ReleasedStays(h, s, q, t, script, true);
    }
    ReleasedIsFinished(h, s, q, AfterCompletion(h, t, q, script, true));
  }

  /** A request that does not match its reference, is empty, was made under another
      contract or asks to wait too long changes nothing; but for the wait it fails
      however often it is tried. */
  lemma {:induction false} RefusedRequests(h: Hashes, s: Stores, q: Request, script: seq<Attempt>, cleaned: bool)
    ensures !q.matches || q.commands == [] || q.contract != s.ordered.contract || q.timeout > 300 ==>
              AfterCompletion(h, s, q, script, cleaned) == s
    ensures !q.matches || q.commands == [] || q.contract != s.ordered.contract ==>
              forall outcome, released :: !Succeeds(h, s, q, outcome, released)
  {
    hide PresenceOf, Drive;
  }

  /** A request that reaches the applied milestone releases its batch, and
      succeeds, if and only if every write of the batch is still pending;
      otherwise the batch is applied and the whole lifecycle kept. */
  lemma {:induction false} ReleasedExactlyWhenPending(h: Hashes, s: Stores, q: Request, script: seq<Attempt>)
    requires Sound(s.ordered) && Proceeds(h, s, q) && DriveFor(s, q, script).outcome.Reached?
    ensures var t := AfterCompletion(h, s, q, script, true);
            && IsApplied(t.ordered, q.reference)
            && (Succeeds(h, s, q, Reached, true) <==> AllPending(s.lifecycle, q.commands))
            && t.lifecycle == (if AllPending(s.lifecycle, q.commands) then ReleasedOf(s.lifecycle, q.commands)
                               else s.lifecycle)
            && (PresenceOf(h, t.lifecycle, q.commands).Released? <==> AllPending(s.lifecycle, q.commands))
  {
    hide PresenceOf, ReleasedOf, AllPending, IsApplied, Drive;
    DriveOutcome(s.ordered, s.ordered, false, q.reference, script);
    ReleaseIsIdempotent(h, s.lifecycle, q.commands);
  }

  /** The failing family: a write of the batch is recertified for a cutover before
      the batch is applied. The request applies the batch and fails; the write
      survives the activation as its translation, pending under the target, with
      the reference applied; and the request is refused from then on. */
  lemma {:induction false} AppliedButKept(h: Hashes, s: Stores, q: Request, script: seq<Attempt>, i: nat, m: Manifest)
    requires Recoverable(h, s) && StoresAgree(s) && Proceeds(h, s, q) && DriveFor(s, q, script).outcome.Reached?
    requires IsManifestOf(h, s.lifecycle, m) && AllResolved(s.lifecycle.writes)
    requires i < |q.commands| && q.commands[i].identity in s.lifecycle.writes
    requires s.lifecycle.writes[q.commands[i].identity].disposition.Recertified?
    requires Quiescent(DriveFor(s, q, script).stored)
    ensures var k := q.commands[i].identity;
            var t := AfterCompletion(h, s, q, script, true);
            var u := AfterActivation(h, t, m, m.cutover.membership, Both);
            && !Succeeds(h, s, q, Reached, true) && t.lifecycle == s.lifecycle && IsApplied(u.ordered, q.reference)
            && u.ordered.contract == m.cutover.to && k in u.lifecycle.writes
            && u.lifecycle.writes[k].command == s.lifecycle.writes[k].disposition.command
            && u.lifecycle.writes[k].commandHash == s.lifecycle.writes[k].disposition.commandHash
            && u.lifecycle.writes[k].contract == m.cutover.to && u.lifecycle.writes[k].disposition.Pending?
            && forall outcome, released :: !Succeeds(h, u, q, outcome, released)
  {
    hide Inv, PresenceOf, IsApplied, Drive, ActivateCutover, Sound;
    ReleasedExactlyWhenPending(h, s, q, script);
    var t := AfterCompletion(h, s, q, script, true);
    CompletionAdvances(h, s, q, script, true);
    InvRecords(h, s.lifecycle);
    CrashIsRepaired(h, t, m, Both);
    SameOrder(t.ordered, AfterActivation(h, t, m, m.cutover.membership, Both).ordered, q.reference);
  }
}
