/**
 Durability over whole runs. For every sequence of transactions, checkpoints,
 snapshot replacements, shutdowns and reopens, with every append and compaction
 stopping wherever it may, the retained log replays without rejection to the
 state after the last complete group.
 */
module LogRuns {
  import opened Wrappers
  import opened Arithmetic
  import opened LogTables
  import opened LogRecovery
  import opened LogGroups
  import opened LogHandle

  /** One directory: either no handle is open on it or one is. */
  datatype World = Down(first: nat, log: seq<Record>) | Up(handle: Handle)

  datatype Event =
    | Transacted(ops: seq<Op>, append: AppendFate, checkpoint: CheckpointFate)
    | Checkpointed(fate: CheckpointFate)
    | Replaced(identity: Identity, snapshot: State, fate: CheckpointFate)
    | ShutDown(synced: bool)
    | Reopened(abort: AppendFate, checkpoint: CheckpointFate)

  function LogOf(w: World): seq<Record> {
    if w.Up? then w.handle.log else w.log
  }

  function FirstOf(w: World): nat {
    if w.Up? then w.handle.first else w.first
  }

  /** Staging admits only well-formed operations into a transaction. */
  ghost predicate Stageable(setup: Setup, ops: seq<Op>) {
    forall i :: 0 <= i < |ops| ==> StageableOp(ops[i], setup.config.maxValueBytes)
  }

  ghost predicate ValidEvent(setup: Setup, e: Event) {
    e.Transacted? ==> Stageable(setup, e.ops)
  }

  /** A crash loses the handle, so reopening is possible in every world. */
  ghost function Next(setup: Setup, w: World, e: Event): World
    requires setup.Valid()
  {
    match e
    case Reopened(abort, checkpoint) =>
      var o := Open(setup, FirstOf(w), LogOf(w), abort, checkpoint);
      if o.handle.Some? then Up(o.handle.value) else Down(o.first, o.log)
    case Transacted(ops, append, checkpoint) =>
      if w.Down? then w else Up(Transact(setup, w.handle, ops, append, checkpoint).handle)
    case Checkpointed(fate) =>
      if w.Down? then w else Up(Checkpoint(setup, w.handle, fate).handle)
    case Replaced(identity, snapshot, fate) =>
      if w.Down? then w else Up(Replace(setup, w.handle, identity, snapshot, fate).handle)
    case ShutDown(synced) =>
      if w.Down? then w else Up(Shutdown(w.handle, synced).handle)
  }

  /** What the directory is meant to hold, independent of records: the state
      after the last complete group, and whether there was a checkpoint yet. */
  datatype Durable = Durable(state: State, initialized: bool)

  /** All records of the group made it to the disk. */
  ghost predicate GroupSurvives(setup: Setup, body: Bytes, fate: AppendFate)
    requires setup.Valid()
  {
    ChunkCountOk(setup, body) && (fate.Failed? ==> fate.survivors > ChunkCount(setup, body))
  }

  ghost predicate CheckpointSurvives(setup: Setup, s: State, fate: CheckpointFate)
    requires setup.Valid()
  {
    && CheckpointFits(setup, s.revision, s.tables) && fate.sealed
    && GroupSurvives(setup, CheckpointBytes(setup, s.revision, s.tables), fate.append)
  }

  /** The transaction is in the log after the event, acknowledged or not. */
  ghost predicate Takes(setup: Setup, w: World, d: Durable, ops: seq<Op>, append: AppendFate)
    requires setup.Valid()
  {
    && w.Up? && Writable(w.handle) && TransactionFits(setup, d.state, ops)
    && GroupSurvives(setup, TransactionBytes(setup, d.state, ops), append)
  }

  /** The durable state after an event. */
  ghost function NextDurable(setup: Setup, w: World, d: Durable, e: Event): Durable
    requires setup.Valid()
  {
    match e
    case Transacted(ops, append, _) =>
      if Takes(setup, w, d, ops, append) then d.(state := After(d.state, ops)) else d
    case Replaced(identity, snapshot, fate) =>
      if w.Up? && Writable(w.handle) && identity == setup.identity
         && CheckpointSurvives(setup, snapshot, fate)
      then Durable(snapshot, true)
      else d
    case Checkpointed(_) => d
    case ShutDown(_) => d
    case Reopened(abort, checkpoint) =>
      if d.initialized || !CheckpointSurvives(setup, d.state, checkpoint)
         || (Replay(setup, Start(), LogOf(w)).Ok?
             && Replay(setup, Start(), LogOf(w)).value.pending.Some? && abort.Failed?)
      then d
      else d.(initialized := true)
  }

  /** The log replays to the durable state; an unpoisoned handle holds that very
      state, its log ends on a group boundary and it knows the next sequence. */
  ghost predicate Inv(setup: Setup, w: World, d: Durable) {
    && Replays(setup, LogOf(w), d)
    && (w.Up? && !w.handle.poisoned ==> InSync(setup, w.handle, d))
  }

  ghost predicate Replays(setup: Setup, log: seq<Record>, d: Durable) {
    var r := Replay(setup, Start(), log);
    r.Ok? && r.value.state == d.state && r.value.initialized == d.initialized
  }

  ghost predicate InSync(setup: Setup, h: Handle, d: Durable) {
    && Settled(setup, h.log, d)
    && h.state == d.state && d.initialized
    && h.nextSequence == h.first + |h.log|
  }

  /** The log replays to the durable state with nothing pending. */
  ghost predicate Settled(setup: Setup, log: seq<Record>, d: Durable) {
    Replays(setup, log, d) && Replay(setup, Start(), log).value.pending.None?
  }

  /** Appending any part of a group to a settled log either commits its body or
      changes nothing that replay can see. */
  lemma {:induction false} AppendedPart(setup: Setup, log: seq<Record>, d: Durable, groupId: nat, b: Body,
                                        fate: AppendFate,
                                        committed: Durable)
    requires setup.Valid() && Settled(setup, log, d)
    requires ChunkCountOk(setup, setup.codec.encode(b))
    requires |setup.codec.encode(b)| <= setup.MaxBody(KindOf(b))
    requires Commits(setup, d, b, committed)
    ensures var g := Group(setup, KindOf(b), groupId, setup.codec.encode(b));
            && (GroupSurvives(setup, setup.codec.encode(b), fate)
                ==> Survivors(g, fate) == g && Settled(setup, log + g, committed))
            && (!GroupSurvives(setup, setup.codec.encode(b), fate)
                ==> Replays(setup, log + Survivors(g, fate), d))
  {
    var body := setup.codec.encode(b);
    var g := Group(setup, KindOf(b), groupId, body);
    var r := Replay(setup, Start(), log).value;
    var part := Survivors(g, fate);
    ReplaySplit(setup, Start(), log, part);
    if GroupSurvives(setup, body, fate) {
      assert part == g;
      GroupCommits(setup, r, groupId, b);
    } else if fate.survivors == 0 {
      assert part == [];
    } else {
      PrefixLeavesPending(setup, r, KindOf(b), groupId, body, fate.survivors);
    }
  }

  /** Committing `b` on top of `d` gives `after`, whatever was replayed before. */
  ghost predicate Commits(setup: Setup, d: Durable, b: Body, after: Durable) {
    forall n: nat :: CommitBody(setup, Recovered(d.state, None, d.initialized, n), b).Ok? &&
      var out := CommitBody(setup, Recovered(d.state, None, d.initialized, n), b).value;
      out.state == after.state && out.initialized == after.initialized && out.pending.None?
  }

  lemma {:induction false} TransactionCommits(setup: Setup, d: Durable, ops: seq<Op>)
    requires setup.Valid() && d.initialized && d.state.revision < U64_MAX && Stageable(setup, ops)
    ensures Commits(setup, d, TransactionBody(d.state.revision, d.state.revision + 1, ops),
                    d.(state := After(d.state, ops)))
  {
  }

  lemma {:induction false} CheckpointCommits(setup: Setup, d: Durable, s: State)
    requires setup.Valid() && ValidTables(s.tables, setup.config.maxValueBytes)
    ensures Commits(setup, d, CheckpointBody(setup.identity, s.revision, s.tables), Durable(s, true))
  {
  }

  /** A lone checkpoint group replays to its state from scratch. */
  lemma {:induction false} CompactedLog(setup: Setup, groupId: nat, s: State)
    requires setup.Valid() && ValidTables(s.tables, setup.config.maxValueBytes)
    requires CheckpointFits(setup, s.revision, s.tables)
    requires ChunkCountOk(setup, CheckpointBytes(setup, s.revision, s.tables))
    ensures Settled(setup, Group(setup, CheckpointGroup, groupId, CheckpointBytes(setup, s.revision, s.tables)),
                    Durable(s, true))
  {
    var b := CheckpointBody(setup.identity, s.revision, s.tables);
    GroupCommits(setup, Start(), groupId, b);
  }

  /** What a checkpoint of `s` may leave behind when `after` is then durable. */
  ghost predicate CheckpointLeaves(setup: Setup, h: Handle, after: Durable, w: Outcome) {
    && Replays(setup, w.handle.log, after)
    && (!w.handle.poisoned ==>
          && Settled(setup, w.handle.log, after)
          && w.handle.nextSequence == w.handle.first + |w.handle.log|
          && (!w.ok ==> w.handle == h))
    && w.handle.state == h.state
    && w.handle.closed == h.closed
  }

  ghost function AfterCheckpoint(setup: Setup, d: Durable, s: State, fate: CheckpointFate): Durable
    requires setup.Valid()
  {
    if CheckpointSurvives(setup, s, fate) then Durable(s, true) else d
  }

  /** A checkpoint either installs the given state or leaves the durable state
      alone; compaction cannot tell the difference. */
  lemma {:induction false} CheckpointStep(setup: Setup, h: Handle, d: Durable, s: State, fate: CheckpointFate)
    requires setup.Valid() && Settled(setup, h.log, d) && h.nextSequence == h.first + |h.log|
    ensures CheckpointLeaves(setup, h, AfterCheckpoint(setup, d, s, fate),
                             WriteCheckpoint(setup, h, s.revision, s.tables, fate))
    ensures WriteCheckpoint(setup, h, s.revision, s.tables, fate).ok ==> CheckpointSurvives(setup, s, fate)
  {
    if CheckpointFits(setup, s.revision, s.tables) && fate.sealed
       && ChunkCountOk(setup, CheckpointBytes(setup, s.revision, s.tables)) {
      CheckpointAppended(setup, h, d, s, fate);
    }
  }

  lemma {:induction false} CheckpointAppended(setup: Setup, h: Handle, d: Durable, s: State, fate: CheckpointFate)
    requires setup.Valid() && Settled(setup, h.log, d) && h.nextSequence == h.first + |h.log|
    requires CheckpointFits(setup, s.revision, s.tables) && fate.sealed
    requires ChunkCountOk(setup, CheckpointBytes(setup, s.revision, s.tables))
    ensures CheckpointLeaves(setup, h, AfterCheckpoint(setup, d, s, fate),
                             WriteCheckpoint(setup, h, s.revision, s.tables, fate))
  {
    var body := CheckpointBytes(setup, s.revision, s.tables);
    var b := CheckpointBody(setup.identity, s.revision, s.tables);
    var g := Group(setup, CheckpointGroup, s.revision, body);
    assert KindOf(b) == CheckpointGroup && setup.codec.encode(b) == body;
    CheckpointCommits(setup, d, s);
    AppendedPart(setup, h.log, d, s.revision, b, fate.append, Durable(s, true));
    if fate.append.Acknowledged? {
      CompactedLog(setup, s.revision, s);
      var p := Persist(setup, h, CheckpointGroup, s.revision, body, fate.append).handle;
      assert p.log == h.log + g;
      assert p.log[h.nextSequence - p.first..] == g;
      assert DropBelow(p, h.nextSequence).log == g;
    }
  }

  lemma {:induction false} MaybeCheckpointStep(setup: Setup, h: Handle, d: Durable, fate: CheckpointFate)
    requires setup.Valid() && InSync(setup, h, d)
    ensures Inv(setup, Up(MaybeCheckpoint(setup, h, fate)), d)
  {
    CheckpointStep(setup, h, d, h.state, fate);
  }

  lemma {:induction false} TransactStep(setup: Setup, h: Handle, d: Durable, ops: seq<Op>, append: AppendFate,
                                        checkpoint: CheckpointFate)
    requires setup.Valid() && Inv(setup, Up(h), d) && Stageable(setup, ops)
    ensures var e := Transacted(ops, append, checkpoint);
            Inv(setup, Next(setup, Up(h), e), NextDurable(setup, Up(h), d, e))
  {
    hide Replay, Group, GroupBytes, MaybeCheckpoint, ChunkCount, ApplyAll, Stageable;
    if Writable(h) && TransactionFits(setup, h.state, ops) {
      var b := TransactionBody(h.state.revision, h.state.revision + 1, ops);
      var after := d.(state := After(d.state, ops));
      TransactionCommits(setup, d, ops);
      AppendedPart(setup, h.log, d, h.state.revision + 1, b, append, after);
      if append.Acknowledged? {
        var body := TransactionBytes(setup, h.state, ops);
        var p := Persist(setup, h, TransactionGroup, h.state.revision + 1, body, append);
        var bytes := GroupBytes(setup, Group(setup, TransactionGroup, h.state.revision + 1, body));
        var committed := p.handle.(state := After(h.state, ops),
                                   transactionsSince := SaturatingAdd(h.transactionsSince, 1),
                                   bytesSince := SaturatingAdd(h.bytesSince, bytes));
        MaybeCheckpointStep(setup, committed, after, checkpoint);
      }
    }
  }

  lemma {:induction false} ReopenStep(setup: Setup, w: World, d: Durable, abort: AppendFate, checkpoint: CheckpointFate)
    requires setup.Valid() && Inv(setup, w, d)
    ensures var e := Reopened(abort, checkpoint);
            Inv(setup, Next(setup, w, e), NextDurable(setup, w, d, e))
  {
    var log, first := LogOf(w), FirstOf(w);
    var r := Replay(setup, Start(), log).value;
    CleanedLog(setup, log, d, abort);
    var cleaned := if r.pending.Some? then log + Survivors([AbortOf(r.pending.value)], abort) else log;
    if r.pending.None? || abort.Acknowledged? {
      CheckpointStep(setup, FreshHandle(first, cleaned, r.state), d, d.state, checkpoint);
    }
  }

  /** Aborting a pending tail, or failing to, does not change what replays. */
  lemma {:induction false} CleanedLog(setup: Setup, log: seq<Record>, d: Durable, abort: AppendFate)
    requires setup.Valid() && Replays(setup, log, d)
    ensures var r := Replay(setup, Start(), log).value;
            var cleaned := if r.pending.Some? then log + Survivors([AbortOf(r.pending.value)], abort) else log;
            && Replays(setup, cleaned, d)
            && (r.pending.None? || abort.Acknowledged? ==> Settled(setup, cleaned, d))
  {
    var r := Replay(setup, Start(), log).value;
    if r.pending.Some? {
      AbortClears(setup, log, r);
      assert log + [] == log;
    }
  }

  /** Every event keeps the invariant, whatever its fate. */
  lemma {:induction false} StepKeepsInv(setup: Setup, w: World, d: Durable, e: Event)
    requires setup.Valid() && Inv(setup, w, d) && ValidEvent(setup, e)
    ensures Inv(setup, Next(setup, w, e), NextDurable(setup, w, d, e))
  {
    match e {
      case Reopened(abort, checkpoint) =>
        ReopenStep(setup, w, d, abort, checkpoint);
      case Transacted(ops, append, checkpoint) =>
        if w.Up? {
          TransactStep(setup, w.handle, d, ops, append, checkpoint);
        }
      case Checkpointed(fate) =>
        if w.Up? && Writable(w.handle) {
          CheckpointStep(setup, w.handle, d, d.state, fate);
        }
      case Replaced(identity, snapshot, fate) =>
        if w.Up? && Writable(w.handle) && identity == setup.identity {
          CheckpointStep(setup, w.handle, d, snapshot, fate);
        }
      case ShutDown(_) =>
    }
  }

  /** World and durable state after a run. */
  ghost function Run(setup: Setup, w: World, d: Durable, events: seq<Event>): (World, Durable)
    requires setup.Valid()
    decreases |events|
  {
    if events == [] then (w, d)
    else Run(setup, Next(setup, w, events[0]), NextDurable(setup, w, d, events[0]), events[1..])
  }

  lemma {:induction false} RunKeepsInv(setup: Setup, w: World, d: Durable, events: seq<Event>)
    requires setup.Valid() && Inv(setup, w, d)
    requires forall i :: 0 <= i < |events| ==> ValidEvent(setup, events[i])
    ensures Inv(setup, Run(setup, w, d, events).0, Run(setup, w, d, events).1)
    decreases |events|
  {
    if events != [] {
      StepKeepsInv(setup, w, d, events[0]);
      RunKeepsInv(setup, Next(setup, w, events[0]), NextDurable(setup, w, d, events[0]), events[1..]);
    }
  }

  /** What a successful reopen needs beyond a durable abort record: a checkpoint
      in the log already, or room for the first one and no failure in writing it. */
  ghost predicate Opens(setup: Setup, d: Durable, checkpoint: CheckpointFate)
    requires setup.Valid()
  {
    d.initialized
    || (CheckpointSurvives(setup, d.state, checkpoint) && checkpoint.append.Acknowledged? && checkpoint.compacted)
  }

  /** The records of a directory once its incomplete tail, if any, is aborted. */
  ghost function Aborted(setup: Setup, log: seq<Record>): seq<Record>
    requires Replay(setup, Start(), log).Ok?
  {
    var pending := Replay(setup, Start(), log).value.pending;
    if pending.Some? then log + [AbortOf(pending.value)] else log
  }

  lemma {:induction false} ReopenIsExact(setup: Setup, w: World, d: Durable, checkpoint: CheckpointFate)
    requires setup.Valid() && Inv(setup, w, d)
    ensures var o := Open(setup, FirstOf(w), LogOf(w), Acknowledged, checkpoint);
            && (o.handle.Some? <==> Opens(setup, d, checkpoint))
            && (o.handle.Some? ==> o.handle.value.state == d.state && Settled(setup, o.log, Durable(d.state, true)))
  {
    var first, log := FirstOf(w), LogOf(w);
    var r := Replay(setup, Start(), log).value;
    CleanedLog(setup, log, d, Acknowledged);
    var h := FreshHandle(first, Aborted(setup, log), r.state);
    CheckpointStep(setup, h, d, d.state, checkpoint);
  }

  /** Recovery of every reachable directory accepts the log and returns exactly
      the durable state. Aborting the incomplete tail and recovering again gives
      that state with nothing pending, and a reopen succeeds exactly when it
      should, in that state, with the log on a group boundary. */
  lemma {:induction false} RecoveryIsExact(setup: Setup, events: seq<Event>)
    requires setup.Valid()
    requires forall i :: 0 <= i < |events| ==> ValidEvent(setup, events[i])
    ensures var (w, d) := Run(setup, Down(0, []), Durable(EMPTY_STATE, false), events);
            && Replays(setup, LogOf(w), d)
            && Settled(setup, Aborted(setup, LogOf(w)), d)
            && forall checkpoint ::
                 var o := Open(setup, FirstOf(w), LogOf(w), Acknowledged, checkpoint);
                 && (o.handle.Some? <==> Opens(setup, d, checkpoint))
                 && (o.handle.Some? ==>
                       o.handle.value.state == d.state && Settled(setup, o.log, Durable(d.state, true)))
  {
    var empty := Down(0, []);
    RunKeepsInv(setup, empty, Durable(EMPTY_STATE, false), events);
    var (w, d) := Run(setup, empty, Durable(EMPTY_STATE, false), events);
    CleanedLog(setup, LogOf(w), d, Acknowledged);
    forall checkpoint: CheckpointFate
      ensures var o := Open(setup, FirstOf(w), LogOf(w), Acknowledged, checkpoint);
              && (o.handle.Some? <==> Opens(setup, d, checkpoint))
              && (o.handle.Some? ==>
                    o.handle.value.state == d.state && Settled(setup, o.log, Durable(d.state, true)))
    {
      ReopenIsExact(setup, w, d, checkpoint);
    }
  }

  /** An acknowledged write is durable, and a refused one that leaves the handle
      writable changed nothing. */
  lemma {:induction false} AcknowledgedIsDurable(setup: Setup, h: Handle, d: Durable, ops: seq<Op>, append: AppendFate,
                                                 checkpoint: CheckpointFate)
    requires setup.Valid() && Inv(setup, Up(h), d) && Stageable(setup, ops)
    ensures var o := Transact(setup, h, ops, append, checkpoint);
            var after := NextDurable(setup, Up(h), d, Transacted(ops, append, checkpoint));
            && (o.ok ==> after == if ops == [] then d else d.(state := After(d.state, ops)))
            && (!o.ok && Writable(o.handle) ==> o.handle == h && after == d)
  {
    TransactStep(setup, h, d, ops, append, checkpoint);
  }

  /** Operations of the transactions of a run that made it to the log, in order. */
  ghost function TakenOps(setup: Setup, w: World, d: Durable, events: seq<Event>): seq<Op>
    requires setup.Valid()
    decreases |events|
  {
    if events == [] then []
    else
      var e := events[0];
      (if e.Transacted? && Takes(setup, w, d, e.ops, e.append) then e.ops else [])
      + TakenOps(setup, Next(setup, w, e), NextDurable(setup, w, d, e), events[1..])
  }

  ghost predicate NoReplacement(events: seq<Event>) {
    forall i :: 0 <= i < |events| ==> !events[i].Replaced?
  }

  /** Without a snapshot replacement a run only adds to the durable state. */
  lemma {:induction false} RunOnlyAdds(setup: Setup, w: World, d: Durable, events: seq<Event>)
    requires setup.Valid() && NoReplacement(events)
    ensures var d' := Run(setup, w, d, events).1;
            && d'.state.tables == ApplyAll(d.state.tables, TakenOps(setup, w, d, events))
            && d'.state.revision >= d.state.revision
    decreases |events|
  {
    hide Replay, Open, Takes, Transact, Checkpoint, Replace, Shutdown;
    if events != [] {
      var e := events[0];
      var taken := if e.Transacted? && Takes(setup, w, d, e.ops, e.append) then e.ops else [];
      var w1, d1 := Next(setup, w, e), NextDurable(setup, w, d, e);
      RunOnlyAdds(setup, w1, d1, events[1..]);
      assert d1.state.tables == ApplyAll(d.state.tables, taken);
      ApplyAllSplit(d.state.tables, taken, TakenOps(setup, w1, d1, events[1..]));
    }
  }

  /** Once acknowledged, a transaction is part of what every later recovery
      returns, whatever transactions, checkpoints, crashes and reopens follow, as
      long as no snapshot replaces the whole state: the recovered tables are the
      old ones with its operations and then those of later transactions applied. */
  lemma {:induction false} AcknowledgedSurvives(setup: Setup, h: Handle, d: Durable, ops: seq<Op>, append: AppendFate,
                                                checkpoint: CheckpointFate, later: seq<Event>)
    requires setup.Valid() && Inv(setup, Up(h), d) && Stageable(setup, ops) && ops != []
    requires Transact(setup, h, ops, append, checkpoint).ok && NoReplacement(later)
    requires forall i :: 0 <= i < |later| ==> ValidEvent(setup, later[i])
    ensures var e := Transacted(ops, append, checkpoint);
            var w1, d1 := Next(setup, Up(h), e), NextDurable(setup, Up(h), d, e);
            var (w, d2) := Run(setup, w1, d1, later);
            && Replays(setup, LogOf(w), d2)
            && d2.state.tables == ApplyAll(ApplyAll(d.state.tables, ops), TakenOps(setup, w1, d1, later))
            && d2.state.revision > d.state.revision
  {
    hide Next, Inv, Run, NextDurable, Transact;
    var e := Transacted(ops, append, checkpoint);
    var w1, d1 := Next(setup, Up(h), e), NextDurable(setup, Up(h), d, e);
    AcknowledgedIsDurable(setup, h, d, ops, append, checkpoint);
    StepKeepsInv(setup, Up(h), d, e);
    RunKeepsInv(setup, w1, d1, later);
    RunOnlyAdds(setup, w1, d1, later);
    InvReplays(setup, Run(setup, w1, d1, later).0, Run(setup, w1, d1, later).1);
  }

  lemma {:induction false} InvReplays(setup: Setup, w: World, d: Durable)
    requires Inv(setup, w, d)
    ensures Replays(setup, LogOf(w), d)
  {
  }
}
