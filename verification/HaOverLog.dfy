/**
 The lifecycle on top of the embedded log: each durable write of the engine is
 one transaction of the log store, which may stop after any number of its
 records. Recovering the log and loading the lifecycle from the recovered tables
 gives the state before the write or the state after it, over every run.
 */
module HaOverLog {
  import opened Wrappers
  import opened LogTables
  import opened LogRecovery
  import opened LogHandle
  import opened HaTypes
  import opened HaLifecycle
  import opened HaStore
  import opened HaReload
  import opened HaPersist
  import HaEngine
  import Runs = LogRuns

  /** The log directory with its durable contents, and the lifecycle they store. */
  datatype Node = Node(world: Runs.World, durable: Runs.Durable, layout: Layout)

  datatype Event =
    | Commits(plan: Plan, ops: seq<Op>, append: AppendFate, checkpoint: CheckpointFate)
    | Checkpoints(fate: CheckpointFate)
    | ShutsDown(synced: bool)
    | Restarts(abort: AppendFate, checkpoint: CheckpointFate)

  ghost predicate Valid(setup: Setup, hc: HaCodec, n: Node) {
    && Runs.Inv(setup, n.world, n.durable)
    && Stored(hc, n.durable.state.tables, n.layout.base, n.layout.deltas, n.layout.state)
  }

  /** While its log accepts writes the engine plans from the stored state, and
      writes what its plan says. */
  ghost predicate ValidEvent(hc: HaCodec, n: Node, e: Event) {
    e.Commits? && n.world.Up? && Writable(n.world.handle) ==>
      && GoodPlan(hc, n.layout.state.writes, e.plan)
      && (IsDeltaWrite(hc, n.layout, e.plan, e.ops) || IsCheckpointWrite(hc, e.plan, e.ops))
  }

  /** What the log sees. Operations that do not pass the staging checks never
      reach it. */
  ghost function LogEvent(setup: Setup, e: Event): Option<Runs.Event> {
    match e
    case Commits(_, ops, append, checkpoint) =>
      if Runs.Stageable(setup, ops) then Some(Runs.Transacted(ops, append, checkpoint)) else None
    case Checkpoints(fate) => Some(Runs.Checkpointed(fate))
    case ShutsDown(synced) => Some(Runs.ShutDown(synced))
    case Restarts(abort, checkpoint) => Some(Runs.Reopened(abort, checkpoint))
  }

  /** The commit is in the log, whatever the engine was told. */
  ghost predicate Takes(setup: Setup, n: Node, e: Event)
    requires setup.Valid()
  {
    e.Commits? && Runs.Stageable(setup, e.ops) && Runs.Takes(setup, n.world, n.durable, e.ops, e.append)
  }

  ghost predicate Acknowledges(setup: Setup, n: Node, e: Event)
    requires setup.Valid()
  {
    && e.Commits? && Runs.Stageable(setup, e.ops) && n.world.Up?
    && Transact(setup, n.world.handle, e.ops, e.append, e.checkpoint).ok
  }

  ghost function Next(setup: Setup, hc: HaCodec, n: Node, e: Event): Node
    requires setup.Valid()
  {
    var logged := LogEvent(setup, e);
    if logged.None? then n
    else
      Node(Runs.Next(setup, n.world, logged.value), Runs.NextDurable(setup, n.world, n.durable, logged.value),
           if Takes(setup, n, e) then NextLayout(hc, n.layout, e.plan, e.ops) else n.layout)
  }

  /** The fate the engine experiences: an acknowledged transaction is stored, and
      an unacknowledged one may be. */
  ghost function FateOf(setup: Setup, n: Node, e: Event): PersistFate
    requires setup.Valid()
  {
    if Acknowledges(setup, n, e) then Persisted else if Takes(setup, n, e) then StoredButFailed else NotStored
  }

  lemma {:induction false} WritesSomething(hc: HaCodec, y: Layout, p: Plan, ops: seq<Op>)
    requires IsDeltaWrite(hc, y, p, ops) || IsCheckpointWrite(hc, p, ops)
    ensures ops != []
  {
    hide PlanMetadata, SealedDelta, RecordOps, IsListing;
  }

  /** The three fates of a durable write are exactly what the log gives: the
      recovered tables are unchanged, or have the operations applied, and an
      acknowledged commit is always the latter. */
  lemma {:induction false} LogGivesFate(setup: Setup, hc: HaCodec, n: Node, e: Event)
    requires setup.Valid() && Valid(setup, hc, n) && ValidEvent(hc, n, e) && e.Commits?
    ensures Next(setup, hc, n, e).durable.state.tables
         == if FateOf(setup, n, e).NotStored? then n.durable.state.tables else ApplyAll(n.durable.state.tables, e.ops)
    ensures Acknowledges(setup, n, e) ==> Takes(setup, n, e)
  {
    hide Stored, GoodPlan, IsDeltaWrite, IsCheckpointWrite, Runs.Inv, Transact, Runs.Takes;
    if Acknowledges(setup, n, e) {
      AcknowledgedTakes(setup, hc, n, e);
    }
  }

  lemma {:induction false} AcknowledgedTakes(setup: Setup, hc: HaCodec, n: Node, e: Event)
    requires setup.Valid() && Valid(setup, hc, n) && ValidEvent(hc, n, e) && Acknowledges(setup, n, e)
    ensures Takes(setup, n, e)
  {
    hide Stored, GoodPlan, IsDeltaWrite, IsCheckpointWrite, Runs.Replays, Runs.Settled;
    WritesSomething(hc, n.layout, e.plan, e.ops);
  }

  /** One event: the log replays to tables that store a lifecycle state, the old
      one or the planned one, and after an acknowledgement the planned one. */
  lemma {:induction false} StepKeepsStored(setup: Setup, hc: HaCodec, n: Node, e: Event)
    requires setup.Valid() && hc.Lawful() && Valid(setup, hc, n) && ValidEvent(hc, n, e)
    ensures Valid(setup, hc, Next(setup, hc, n, e))
    ensures var after := Next(setup, hc, n, e).layout;
            if Takes(setup, n, e) then after.state == e.plan.next else after == n.layout
    ensures Acknowledges(setup, n, e) ==> Next(setup, hc, n, e).layout.state == e.plan.next
  {
    hide Stored, GoodPlan, IsDeltaWrite, IsCheckpointWrite, Runs.Inv, Runs.Next, Transact;
    var logged := LogEvent(setup, e);
    if logged.Some? {
      Runs.StepKeepsInv(setup, n.world, n.durable, logged.value);
      if e.Commits? {
        LogGivesFate(setup, hc, n, e);
      }
      if Takes(setup, n, e) {
        WriteStores(hc, n.durable.state.tables, n.layout, e.plan, e.ops);
      } else {
        TablesStand(setup, n, e);
      }
    }
  }

  /** Without a snapshot replacement only a commit that is taken changes tables. */
  lemma {:induction false} TablesStand(setup: Setup, n: Node, e: Event)
    requires setup.Valid() && LogEvent(setup, e).Some? && !Takes(setup, n, e)
    ensures Runs.NextDurable(setup, n.world, n.durable, LogEvent(setup, e).value).state == n.durable.state
  {
    hide Replay, Runs.Takes;
  }

  ghost function Run(setup: Setup, hc: HaCodec, n: Node, events: seq<Event>): Node
    requires setup.Valid()
    decreases |events|
  {
    if events == [] then n else Next(setup, hc, Run(setup, hc, n, events[..|events| - 1]), events[|events| - 1])
  }

  /** Every event of the run is valid where it happens. */
  ghost predicate ValidRun(setup: Setup, hc: HaCodec, n: Node, events: seq<Event>)
    requires setup.Valid()
  {
    forall i :: 0 <= i < |events| ==> ValidEvent(hc, Run(setup, hc, n, events[..i]), events[i])
  }

  lemma {:induction false} RunKeepsStored(setup: Setup, hc: HaCodec, n: Node, events: seq<Event>)
    requires setup.Valid() && hc.Lawful() && Valid(setup, hc, n) && ValidRun(setup, hc, n, events)
    ensures Valid(setup, hc, Run(setup, hc, n, events))
    decreases |events|
  {
    hide Valid, ValidEvent, Next;
    if events != [] {
      var k := |events| - 1;
      var init := events[..k];
      forall i | 0 <= i < k ensures ValidEvent(hc, Run(setup, hc, n, init[..i]), init[i]) {
        assert init[..i] == events[..i];
      }
      RunKeepsStored(setup, hc, n, init);
      assert ValidEvent(hc, Run(setup, hc, n, events[..k]), events[k]);
      StepKeepsStored(setup, hc, Run(setup, hc, n, init), events[k]);
    }
  }

  /** Recovering the log and then loading the lifecycle gives `l`, or is refused
      when the stored bytes exceed the load bound. */
  ghost predicate RecoversTo(setup: Setup, hc: HaCodec, log: seq<Record>, l: Lifecycle) {
    var r := Replay(setup, Start(), log);
    && r.Ok?
    && forall rs, js :: Scanned(r.value.state.tables, rs, js) ==>
         var loaded := LoadScans(hc, Lookup(r.value.state.tables, METADATA_TABLE, METADATA_KEY), rs, js);
         if WithinLoadBound(r.value.state.tables, rs, js)
         then loaded.Ok? && loaded.value.Some? && loaded.value.value.lifecycle == l
              && loaded.value.value.bytes == TotalBytes(l.writes)
              && loaded.value.value.commitment == Commitment(hc.hashes, l.writes)
         else loaded.Err?
  }

  lemma {:induction false} ValidRecovers(setup: Setup, hc: HaCodec, n: Node)
    requires hc.Lawful() && Valid(setup, hc, n)
    ensures RecoversTo(setup, hc, Runs.LogOf(n.world), n.layout.state)
  {
    hide Stored, LoadScans, Scanned, WithinLoadBound, Replay, Runs.InSync;
    var tables := n.durable.state.tables;
    forall rs, js | Scanned(tables, rs, js)
      ensures LoadScans(hc, Lookup(tables, METADATA_TABLE, METADATA_KEY), rs, js)
           == if WithinLoadBound(tables, rs, js)
              then Ok(Some(Loaded(n.layout.state, TotalBytes(n.layout.state.writes),
                                  Commitment(hc.hashes, n.layout.state.writes), |n.layout.deltas|, ValueBytes(js))))
              else Err
    {
      LoadsWhatWasStored(hc, tables, n.layout.base, n.layout.deltas, n.layout.state, rs, js);
    }
  }

  /** After every run of commits, checkpoints, shutdowns, crashes and restarts,
      and one more commit that stops anywhere, recovery and loading give the
      lifecycle before that commit or after it, and after it if the engine was
      told so. */
  lemma {:induction false} CommitIsAtomic(setup: Setup, hc: HaCodec, n: Node, events: seq<Event>, e: Event)
    requires setup.Valid() && hc.Lawful() && Valid(setup, hc, n) && ValidRun(setup, hc, n, events)
    requires ValidEvent(hc, Run(setup, hc, n, events), e) && e.Commits?
    ensures var before := Run(setup, hc, n, events);
            var log := Runs.LogOf(Next(setup, hc, before, e).world);
            && RecoversTo(setup, hc, Runs.LogOf(before.world), before.layout.state)
            && (RecoversTo(setup, hc, log, before.layout.state) || RecoversTo(setup, hc, log, e.plan.next))
            && (Acknowledges(setup, before, e) ==> RecoversTo(setup, hc, log, e.plan.next))
  {
    hide Valid, ValidEvent, Next, Takes, Acknowledges, RecoversTo;
    RunKeepsStored(setup, hc, n, events);
    var before := Run(setup, hc, n, events);
    ValidRecovers(setup, hc, before);
    StepKeepsStored(setup, hc, before, e);
    ValidRecovers(setup, hc, Next(setup, hc, before, e));
  }

  /** The operations a new engine writes first. */
  ghost function FirstOps(hc: HaCodec, contract: Contract): seq<Op> {
    var p := Plan(Fresh(contract), 0, hc.hashes.zero, [], []);
    DeltaOps(hc, 0, hc.delta(SealedDelta(hc, [], [])), hc.metadata(PlanMetadata(hc, p, 1)))
  }

  /** A first open of a store without tables, stopped anywhere, leaves no tables,
      so that loading finds nothing, or a valid node with the empty state. */
  lemma {:induction false} FirstCommitIsAtomic(setup: Setup, hc: HaCodec, w: Runs.World, d: Runs.Durable,
                                               contract: Contract, append: AppendFate, checkpoint: CheckpointFate)
    requires setup.Valid() && hc.Lawful() && Runs.Inv(setup, w, d) && d.state.tables == map[] && ValidContract(contract)
    requires Runs.Stageable(setup, FirstOps(hc, contract))
    ensures var e := Runs.Transacted(FirstOps(hc, contract), append, checkpoint);
            var n := Node(Runs.Next(setup, w, e), Runs.NextDurable(setup, w, d, e),
                          Layout(map[], [SealedDelta(hc, [], [])], Fresh(contract)));
            if Runs.Takes(setup, w, d, FirstOps(hc, contract), append) then Valid(setup, hc, n)
            else n.durable.state.tables == map[] && LoadScans(hc, None, [], []) == Ok(None)
  {
    hide Stored, DeltaOps, PlanMetadata, SealedDelta, Runs.Inv, Runs.Next, Runs.Takes, Runs.Stageable;
    Runs.StepKeepsInv(setup, w, d, Runs.Transacted(FirstOps(hc, contract), append, checkpoint));
    HaEngine.FirstDelta(hc, contract);
  }
}
