/**
 Releasing accepted writes once their batch is globally applied: a batch must be
 wholly retained or wholly released, and the lifecycle lets go only after the
 ordered engine reports the batch applied.
 */
module GlobalCompletion {
  import opened Wrappers
  import opened Digests
  import opened HaTypes
  import opened HaLifecycle
  import opened HaPersist
  import opened HaStore
  import opened HaCompletion
  import opened HaCutover
  import opened FiniteSets

  /** Where a batch stands with the lifecycle. */
  datatype Presence = Refused | Retained | Released

  predicate CommandFits(h: Hashes, l: Lifecycle, c: Command) {
    ValidCommand(c) && (c.identity in l.writes ==> l.writes[c.identity].commandHash == h.command(c))
  }

  /** One identity never stands for two different commands. */
  predicate NoClash(h: Hashes, cs: seq<Command>) {
    forall i, j :: 0 <= i < j < |cs| && cs[i].identity == cs[j].identity ==> h.command(cs[i]) == h.command(cs[j])
  }

  function PresenceOf(h: Hashes, l: Lifecycle, cs: seq<Command>): Presence {
    if !NoClash(h, cs) || exists i :: 0 <= i < |cs| && !CommandFits(h, l, cs[i]) then Refused
    else if forall i :: 0 <= i < |cs| ==> cs[i].identity in l.writes then Retained
    else if forall i :: 0 <= i < |cs| ==> cs[i].identity !in l.writes then Released
    else Refused
  }

  /** A batch is retained or released exactly when its commands are valid, repeat
      an identity only with the same hash, and the lifecycle holds all of them, by
      their hashes, or none. */
  lemma {:induction false} PresenceMeans(h: Hashes, l: Lifecycle, cs: seq<Command>)
    ensures var sound := (forall i :: 0 <= i < |cs| ==>
                            cs[i].identity.sequence >= 1 && 1 <= |cs[i].bytes| <= MAX_APPLICATION_COMMAND_BYTES)
                         && (forall i, j :: 0 <= i < j < |cs| && cs[i].identity == cs[j].identity ==>
                               h.command(cs[i]) == h.command(cs[j]));
            && (PresenceOf(h, l, cs).Retained? <==>
                  sound && forall i :: 0 <= i < |cs| ==>
                    cs[i].identity in l.writes && l.writes[cs[i].identity].commandHash == h.command(cs[i]))
            && (PresenceOf(h, l, cs).Released? <==>
                  sound && cs != [] && forall i :: 0 <= i < |cs| ==> cs[i].identity !in l.writes)
  {
    if cs != [] {
      assert cs[0].identity in l.writes || cs[0].identity !in l.writes;
    }
  }

  function BatchIds(cs: seq<Command>): set<CommandIdentity> {
    set i | 0 <= i < |cs| :: cs[i].identity
  }

  /** The completions collected from a prefix of the batch. */
  ghost predicate Collected(h: Hashes, cs: seq<Command>, completions: map<CommandIdentity, Digest>) {
    && completions.Keys == BatchIds(cs)
    && forall i :: 0 <= i < |cs| ==> completions[cs[i].identity] == h.command(cs[i])
  }

  lemma {:induction false} BatchIdsAppend(cs: seq<Command>, n: nat)
    requires n < |cs|
    ensures BatchIds(cs[..n + 1]) == BatchIds(cs[..n]) + {cs[n].identity}
  {
    forall k | k in BatchIds(cs[..n + 1]) ensures k in BatchIds(cs[..n]) + {cs[n].identity} {
      var i :| 0 <= i < n + 1 && cs[..n + 1][i].identity == k;
      if i < n {
        assert cs[..n][i].identity == k;
      }
    }
    forall k | k in BatchIds(cs[..n]) ensures k in BatchIds(cs[..n + 1]) {
      var i :| 0 <= i < n && cs[..n][i].identity == k;
      assert cs[..n + 1][i].identity == k;
    }
    assert cs[..n + 1][n].identity == cs[n].identity;
  }

  /** How many commands of a prefix the lifecycle retains. */
  function PresentCount(l: Lifecycle, cs: seq<Command>): (n: nat)
    ensures n <= |cs|
    ensures n == |cs| <==> forall i :: 0 <= i < |cs| ==> cs[i].identity in l.writes
    ensures n == 0 <==> forall i :: 0 <= i < |cs| ==> cs[i].identity !in l.writes
  {
    if cs == [] then 0
    else
      var last := |cs| - 1;
      PresentCount(l, cs[..last]) + (if cs[last].identity in l.writes then 1 else 0)
  }

  lemma {:induction false} PresentCountNext(l: Lifecycle, cs: seq<Command>, i: nat)
    requires i < |cs|
    ensures PresentCount(l, cs[..i + 1]) == PresentCount(l, cs[..i]) + (if cs[i].identity in l.writes then 1 else 0)
  {
    assert cs[..i + 1][..i] == cs[..i];
  }

  /** Scans the batch once, counting present and absent commands. */
  method Inspect(h: Hashes, l: Lifecycle, cs: seq<Command>)
    returns (p: Presence, completions: map<CommandIdentity, Digest>)
    ensures p == PresenceOf(h, l, cs)
    ensures p.Retained? ==> Collected(h, cs, completions)
  {
    hide BatchIds, Collected, NoClash, PresenceOf, CommandFits, ValidCommand, PresentCount;
    completions := map[];
    var present, absent := 0, 0;
    NothingCollected(h, l, cs);
    for i := 0 to |cs|
      invariant Collected(h, cs[..i], completions)
      invariant NoClash(h, cs[..i]) && forall j :: 0 <= j < i ==> CommandFits(h, l, cs[j])
      invariant present == PresentCount(l, cs[..i]) && present + absent == i
    {
      PresentCountNext(l, cs, i);
      var hash := h.command(cs[i]);
      var id := cs[i].identity;
      MisfitRefused(h, l, cs, i);
      if !ValidCommand(cs[i]) {
        return Refused, completions;
      }
      if id in completions && completions[id] != hash {
        ClashFound(h, l, cs, i, completions);
        return Refused, completions;
      }
      if id in l.writes {
        if l.writes[id].commandHash != hash {
          return Refused, completions;
        }
        present := present + 1;
      } else {
        absent := absent + 1;
      }
      StillNoClash(h, cs, i, completions);
      CollectOne(h, cs, i, completions);
      completions := completions[id := hash];
    }
    assert cs[..|cs|] == cs;
    PresenceByCount(h, l, cs);
    p := if present != 0 && absent != 0 then Refused else if absent != 0 then Released else Retained;
  }

  lemma {:induction false} NothingCollected(h: Hashes, l: Lifecycle, cs: seq<Command>)
    ensures Collected(h, cs[..0], map[]) && NoClash(h, cs[..0]) && PresentCount(l, cs[..0]) == 0
  {
  }

  lemma {:induction false} MisfitRefused(h: Hashes, l: Lifecycle, cs: seq<Command>, i: nat)
    requires i < |cs|
    ensures CommandFits(h, l, cs[i]) <==>
              && ValidCommand(cs[i])
              && (cs[i].identity in l.writes ==> l.writes[cs[i].identity].commandHash == h.command(cs[i]))
    ensures !CommandFits(h, l, cs[i]) ==> PresenceOf(h, l, cs) == Refused
  {
  }

  lemma {:induction false} CollectOne(h: Hashes, cs: seq<Command>, n: nat, completions: map<CommandIdentity, Digest>)
    requires n < |cs| && Collected(h, cs[..n], completions)
    requires cs[n].identity in completions ==> completions[cs[n].identity] == h.command(cs[n])
    ensures Collected(h, cs[..n + 1], completions[cs[n].identity := h.command(cs[n])])
  {
    BatchIdsAppend(cs, n);
    var next := completions[cs[n].identity := h.command(cs[n])];
    forall i | 0 <= i < n + 1 ensures next[cs[i].identity] == h.command(cs[i]) {
      if i < n {
        assert cs[..n][i] == cs[i];
        assert cs[..n][i].identity in BatchIds(cs[..n]);
      }
    }
  }

  lemma {:induction false} PresenceByCount(h: Hashes, l: Lifecycle, cs: seq<Command>)
    requires NoClash(h, cs) && forall i :: 0 <= i < |cs| ==> CommandFits(h, l, cs[i])
    ensures PresenceOf(h, l, cs) == if PresentCount(l, cs) == |cs| then Retained
                                    else if PresentCount(l, cs) == 0 then Released else Refused
  {
  }

  lemma {:induction false} ClashFound(h: Hashes, l: Lifecycle, cs: seq<Command>, n: nat,
                                      completions: map<CommandIdentity, Digest>)
    requires n < |cs| && Collected(h, cs[..n], completions)
    requires cs[n].identity in completions && completions[cs[n].identity] != h.command(cs[n])
    ensures PresenceOf(h, l, cs) == Refused
  {
    assert cs[n].identity in BatchIds(cs[..n]);
    var i :| 0 <= i < n && cs[..n][i].identity == cs[n].identity;
    assert h.command(cs[..n][i]) != h.command(cs[n]);
  }

  lemma {:induction false} StillNoClash(h: Hashes, cs: seq<Command>, n: nat, completions: map<CommandIdentity, Digest>)
    requires n < |cs| && Collected(h, cs[..n], completions) && NoClash(h, cs[..n])
    requires cs[n].identity in completions ==> completions[cs[n].identity] == h.command(cs[n])
    ensures NoClash(h, cs[..n + 1])
  {
    forall i, j | 0 <= i < j < n + 1 && cs[i].identity == cs[j].identity
      ensures h.command(cs[i]) == h.command(cs[j])
    {
      if j < n {
        assert h.command(cs[..n][i]) == h.command(cs[..n][j]);
      } else {
        assert cs[..n][i].identity in BatchIds(cs[..n]);
      }
    }
  }

  /** Lists collected completions in identity order. */
  method ListCompletions(completions: map<CommandIdentity, Digest>) returns (listed: seq<Completion>)
    ensures Named(listed) == completions.Keys && |listed| == |completions|
    ensures forall i :: 0 <= i < |listed| ==> listed[i].0 in completions && listed[i].1 == completions[listed[i].0]
  {
    var ids := ListIdentities(completions.Keys);
    listed := [];
    for i := 0 to |ids|
      invariant |listed| == i
      invariant forall j :: 0 <= j < i ==> ids[j] in completions && listed[j] == (ids[j], completions[ids[j]])
    {
      assert ids[i] in IdSet(ids);
      listed := listed + [(ids[i], completions[ids[i]])];
    }
    forall k | k in completions ensures k in Named(listed) {
      assert k in IdSet(ids);
      var i :| 0 <= i < |ids| && ids[i] == k;
      assert listed[i].0 == k;
    }
  }

  /** Every write of the batch is still pending. */
  predicate AllPending(l: Lifecycle, cs: seq<Command>) {
    forall i :: 0 <= i < |cs| ==> cs[i].identity in l.writes && l.writes[cs[i].identity].disposition.Pending?
  }

  /** The lifecycle without the writes of the batch. */
  function ReleasedOf(l: Lifecycle, cs: seq<Command>): Lifecycle {
    l.(writes := l.writes - BatchIds(cs))
  }

  /** The completions collected from a retained batch are accepted if and only if
      every write of it is pending, and then release exactly the batch. */
  lemma {:induction false} BatchCompletes(h: Hashes, l: Lifecycle, cs: seq<Command>,
                                          completions: map<CommandIdentity, Digest>, listed: seq<Completion>)
    requires Inv(h, l) && PresenceOf(h, l, cs).Retained? && Collected(h, cs, completions)
    requires Named(listed) == completions.Keys && |listed| == |completions|
    requires forall i :: 0 <= i < |listed| ==> listed[i].0 in completions && listed[i].1 == completions[listed[i].0]
    ensures CompleteAll(l, listed) == if AllPending(l, cs) then Some(ReleasedOf(l, cs)) else None
  {
    hide Inv, Named;
    BatchFits(h, l, cs, completions);
    assert forall i :: 0 <= i < |cs| ==> CommandFits(h, l, cs[i]);
    if AllPending(l, cs) {
      forall i | 0 <= i < |listed| ensures Completable(l.writes, listed[i]) {
        var j :| 0 <= j < |cs| && cs[j].identity == listed[i].0;
        assert CommandFits(h, l, cs[j]);
      }
    } else {
      var j :| 0 <= j < |cs| && !(cs[j].identity in l.writes && l.writes[cs[j].identity].disposition.Pending?);
      var i := ListedAt(listed, cs[j].identity, completions);
      assert !Completable(l.writes, listed[i]);
    }
  }

  lemma {:induction false} ListedAt(listed: seq<Completion>, k: CommandIdentity,
                                    completions: map<CommandIdentity, Digest>) returns (i: nat)
    requires Named(listed) == completions.Keys && k in completions
    ensures i < |listed| && listed[i].0 == k
  {
    assert k in Named(listed);
    i :| 0 <= i < |listed| && listed[i].0 == k;
  }

  lemma {:induction false} BatchFits(h: Hashes, l: Lifecycle, cs: seq<Command>,
                                     completions: map<CommandIdentity, Digest>)
    requires Inv(h, l) && PresenceOf(h, l, cs).Retained? && Collected(h, cs, completions)
    ensures |completions| <= MAX_ACCEPTED_WRITES && forall i :: 0 <= i < |cs| ==> cs[i].identity in completions
  {
    hide Inv;
    forall k | k in completions ensures k in l.writes {
      var i :| 0 <= i < |cs| && cs[i].identity == k;
    }
    SubsetSize(completions.Keys, l.writes.Keys);
    assert |completions.Keys| == |completions| && |l.writes.Keys| == |l.writes|;
    WritesBounded(h, l);
    forall i | 0 <= i < |cs| ensures cs[i].identity in completions {
      assert cs[i].identity in BatchIds(cs);
    }
  }

  /** Releasing a retained batch makes it released, so a repeated call finds
      nothing left to do. */
  lemma {:induction false} ReleaseIsIdempotent(h: Hashes, l: Lifecycle, cs: seq<Command>)
    requires PresenceOf(h, l, cs).Retained? && cs != []
    ensures ReleasedOf(l, cs) != l && PresenceOf(h, ReleasedOf(l, cs), cs).Released?
  {
    var after := ReleasedOf(l, cs);
    forall i | 0 <= i < |cs| ensures CommandFits(h, after, cs[i]) && cs[i].identity !in after.writes {
      assert CommandFits(h, l, cs[i]);
      assert cs[i].identity in BatchIds(cs);
    }
    assert cs[0].identity !in after.writes;
  }
}
