/**
 Planning the moves that replace the whole write map: cancelling or activating
 a cutover, and installing the accepted writes of another replica.
 */
module HaCutover {
  import opened Wrappers
  import opened HaTypes
  import opened HaLifecycle
  import opened HaRuns
  import opened HaReload
  import opened HaPersist
  import opened HaManifest
  import opened HaPlans
  import opened HaStore

  lemma {:induction false} WritesBounded(h: Hashes, l: Lifecycle)
    requires Inv(h, l)
    ensures |l.writes| <= MAX_ACCEPTED_WRITES
  {
  }

  /** Returns every source-contract write to pending. */
  method PlanCancel(hc: HaCodec, l: Lifecycle) returns (r: Option<Plan>)
    requires Inv(hc.hashes, l)
    ensures r.Some? <==> CancelCutover(l).Some?
    ensures r.Some? ==> GoodPlan(hc, l.writes, r.value) && r.value.next == CancelCutover(l).value
  {
    hide Inv, GoodPlan;
    if l.cutover.None? {
      return None;
    }
    var from := l.cutover.value.from;
    var w := l.writes;
    var rest := l.writes.Keys;
    while rest != {}
      invariant rest <= l.writes.Keys && w.Keys == l.writes.Keys
      invariant forall k :: k in w ==> w[k] == if k in rest then l.writes[k] else Unresolved(l.writes, from)[k]
      decreases rest
    {
      var k :| k in rest;
      if w[k].contract == from {
        w := w[k := w[k].(disposition := Pending)];
      }
      rest := rest - {k};
    }
    assert w == Unresolved(l.writes, from);
    CancelKeepsInv(hc.hashes, l);
    WritesBounded(hc.hashes, l);
    var p := PlanState(hc, l.writes, Lifecycle(l.contract, w, None));
    return Some(p);
  }

  /** Checks that every resolution repeats what the engine recorded. */
  method ConfirmAll(w: Writes, rs: seq<Resolution>) returns (ok: bool)
    ensures ok <==> forall i :: 0 <= i < |rs| ==> Confirms(w, rs[i])
  {
    for i := 0 to |rs|
      invariant forall j :: 0 <= j < i ==> Confirms(w, rs[j])
    {
      var r := rs[i];
      if r.identity !in w || w[r.identity].commandHash != r.commandHash || w[r.identity].disposition != r.disposition {
        assert !Confirms(w, rs[i]);
        return false;
      }
    }
    return true;
  }

  /** Carries out the resolutions on a copy of the writes. */
  method CarryOut(w: Writes, rs: seq<Resolution>) returns (out: Writes)
    ensures out == ApplyResolutions(w, rs)
  {
    out := w;
    for i := 0 to |rs|
      invariant out == ApplyResolutions(w, rs[..i])
    {
      assert rs[..i + 1][..i] == rs[..i];
      var d := rs[i].disposition;
      match d {
        case Recertified(_, _, _, _) =>
          if rs[i].identity in out {
            out := out[rs[i].identity := Promoted(out[rs[i].identity], d)];
          }
        case Aborted(_, _) =>
          out := out - {rs[i].identity};
        case Pending =>
      }
    }
    assert rs[..|rs|] == rs;
  }

  /** Counts the writes accepted under one route. */
  method CountRoute(w: Writes, route: nat) returns (count: nat)
    ensures count == |OfRoute(w, route)|
  {
    count := 0;
    var rest := w.Keys;
    ghost var seen: set<CommandIdentity> := {};
    while rest != {}
      invariant rest <= w.Keys && count == |seen|
      invariant forall k :: k in seen <==> k in OfRoute(w, route) && k !in rest
      decreases rest
    {
      var k :| k in rest;
      if w[k].contract.route == route {
        count := count + 1;
        seen := seen + {k};
      }
      rest := rest - {k};
    }
    assert seen == OfRoute(w, route);
  }

  /** Checks a manifest against the engine and plans the target state. */
  method PlanActivation(hc: HaCodec, l: Lifecycle, m: Manifest, now: Membership) returns (r: Option<Plan>)
    requires Inv(hc.hashes, l)
    ensures r.Some? <==> ActivateCutover(hc.hashes, l, m, now).Some?
    ensures r.Some? ==> GoodPlan(hc, l.writes, r.value) && r.value.next == ActivateCutover(hc.hashes, l, m, now).value
  {
    hide Inv, GoodPlan, ValidManifest, Confirms, OfRoute;
    var valid := ValidateManifest(hc.hashes, m);
    if !valid || l.cutover != Some(m.cutover) || l.contract != m.cutover.from || l.contract.spec != m.spec
       || now != m.cutover.membership {
      return None;
    }
    var expected := CountRoute(l.writes, m.cutover.from.route);
    if |m.resolutions| != expected {
      return None;
    }
    var confirmed := ConfirmAll(l.writes, m.resolutions);
    if !confirmed {
      return None;
    }
    var w := CarryOut(l.writes, m.resolutions);
    ActivateKeepsInv(hc.hashes, l, m, now);
    WritesBounded(hc.hashes, l);
    var p := PlanState(hc, l.writes, Lifecycle(m.cutover.to, w, None));
    return Some(p);
  }

  /** One more record of an ordered list adds its bytes to the total. */
  lemma {:induction false} ListedBytesGrow(h: Hashes, rs: seq<WriteRecord>, i: nat)
    requires i < |rs| && CanonicalRecords(rs[..i + 1])
    ensures TotalBytes(ByIdentity(rs[..i + 1])) == TotalBytes(ByIdentity(rs[..i])) + RecordBytes(rs[i])
  {
    assert rs[..i + 1][..i] == rs[..i];
    var id := rs[i].command.identity;
    if id in ByIdentity(rs[..i]) {
      ByIdentityOk(rs[..i], id);
    }
    SummariesInsert(h, ByIdentity(rs[..i]), id, rs[i]);
  }

  /** Validates the accepted writes of another replica, remembering only the
      previous identity and the bytes so far. */
  method ValidateIncoming(h: Hashes, contract: Contract, cutover: Option<Cutover>, rs: seq<WriteRecord>)
    returns (ok: bool)
    ensures ok == ValidIncoming(h, contract, cutover, rs)
  {
    hide RecordOk, ValidCutover;
    if |rs| > MAX_ACCEPTED_WRITES || !ValidCutover(contract, cutover) {
      return false;
    }
    var total := 0;
    for i := 0 to |rs|
      invariant CanonicalRecords(rs[..i])
      invariant forall j :: 0 <= j < i ==> RecordOk(h, contract, cutover, rs[j].command.identity, rs[j])
      invariant total == TotalBytes(ByIdentity(rs[..i]))
    {
      if !RecordOk(h, contract, cutover, rs[i].command.identity, rs[i]) {
        return false;
      }
      if i > 0 && !Precedes(rs[i - 1].command.identity, rs[i].command.identity) {
        return false;
      }
      RecordsExtend(rs, i);
      ListedBytesGrow(h, rs, i);
      total := total + RecordBytes(rs[i]);
    }
    assert rs[..|rs|] == rs;
    return total <= MAX_ACCEPTED_COMMAND_BYTES;
  }

  lemma {:induction false} RecordsExtend(rs: seq<WriteRecord>, i: nat)
    requires i < |rs| && CanonicalRecords(rs[..i])
    requires i > 0 ==> Precedes(rs[i - 1].command.identity, rs[i].command.identity)
    ensures CanonicalRecords(rs[..i + 1])
  {
    forall a, b | 0 <= a < b < i + 1
      ensures Precedes(rs[a].command.identity, rs[b].command.identity)
    {
      if b == i && a < i - 1 {
        assert Precedes(rs[..i][a].command.identity, rs[..i][i - 1].command.identity);
        PrecedesTransitive(rs[a].command.identity, rs[i - 1].command.identity, rs[i].command.identity);
      } else if b < i {
        assert Precedes(rs[..i][a].command.identity, rs[..i][b].command.identity);
      }
    }
  }

  /** A local write differs from the incoming one of the same identity. */
  predicate Conflicts(w: Writes, r: WriteRecord) {
    r.command.identity in w && w[r.command.identity] != r
  }

  /** Adds the incoming writes that are missing; a conflict refuses all. */
  method MergeIncoming(w: Writes, rs: seq<WriteRecord>) returns (r: Option<Writes>)
    requires CanonicalRecords(rs)
    ensures r.Some? <==> forall k :: k in ByIdentity(rs) && k in w ==> w[k] == ByIdentity(rs)[k]
    ensures r.Some? ==> r.value == ByIdentity(rs) + w
  {
    for i := 0 to |rs|
      invariant forall j :: 0 <= j < i ==> !Conflicts(w, rs[j])
    {
      if Conflicts(w, rs[i]) {
        ByIdentityHas(rs, i);
        return None;
      }
    }
    forall k | k in ByIdentity(rs) && k in w ensures w[k] == ByIdentity(rs)[k] {
      ByIdentityOk(rs, k);
      var i :| 0 <= i < |rs| && rs[i] == ByIdentity(rs)[k];
      assert !Conflicts(w, rs[i]);
    }
    var merged := w;
    for i := 0 to |rs|
      invariant merged == ByIdentity(rs[..i]) + w
    {
      assert rs[..i + 1][..i] == rs[..i];
      if rs[i].command.identity !in merged {
        merged := merged[rs[i].command.identity := rs[i]];
      } else if rs[i].command.identity !in w {
        ByIdentityOk(rs[..i], rs[i].command.identity);
        assert false;
      }
    }
    assert rs[..|rs|] == rs;
    return Some(merged);
  }

  /** A canonical list maps each identity to its own record. */
  lemma {:induction false} ByIdentityHas(rs: seq<WriteRecord>, i: nat)
    requires CanonicalRecords(rs) && i < |rs|
    ensures rs[i].command.identity in ByIdentity(rs) && ByIdentity(rs)[rs[i].command.identity] == rs[i]
  {
    if i < |rs| - 1 {
      assert Precedes(rs[i].command.identity, rs[|rs| - 1].command.identity);
      ByIdentityHas(rs[..|rs| - 1], i);
    }
  }

  /** Merges the accepted writes of a recovery manifest of the same contract. */
  method PlanInstall(hc: HaCodec, l: Lifecycle, rs: seq<WriteRecord>,
                     cutover: Option<Cutover>) returns (r: Option<Plan>)
    requires Inv(hc.hashes, l)
    ensures r.Some? <==> InstallWrites(hc.hashes, l, rs, cutover).Some?
    ensures r.Some? ==>
              GoodPlan(hc, l.writes, r.value) && r.value.next == InstallWrites(hc.hashes, l, rs, cutover).value
  {
    hide Inv, GoodPlan, ValidIncoming;
    var valid := ValidateIncoming(hc.hashes, l.contract, cutover, rs);
    if !valid || (l.cutover.Some? && l.cutover != cutover) {
      return None;
    }
    IncomingCanonical(hc.hashes, l.contract, cutover, rs);
    var merged := MergeIncoming(l.writes, rs);
    if merged.None? || |merged.value| > MAX_ACCEPTED_WRITES {
      return None;
    }
    var bytes := SumCommandBytes(merged.value);
    if bytes > MAX_ACCEPTED_COMMAND_BYTES {
      return None;
    }
    InstallKeepsInv(hc.hashes, l, rs, cutover);
    WritesBounded(hc.hashes, l);
    var p := PlanState(hc, l.writes, Lifecycle(l.contract, merged.value, cutover));
    return Some(p);
  }

  lemma {:induction false} IncomingCanonical(h: Hashes, contract: Contract, cutover: Option<Cutover>,
                                             rs: seq<WriteRecord>)
    requires ValidIncoming(h, contract, cutover, rs)
    ensures CanonicalRecords(rs)
  {
  }
}
