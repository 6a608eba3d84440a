/**
 The reducer that applies globally finalized records about high-availability
 groups: registrations, and sealed state references that must form one chain per
 group. Checkpoints apply as a whole or not at all, and the state survives a
 snapshot unchanged.
 */
module ParallelNetworks {
  import opened Wrappers
  import opened Arithmetic

  type Hash = nat
  type GroupId = nat

  const REFERENCE_VERSION: nat := 1
  const SNAPSHOT_VERSION: nat := 1
  const MIN_HA_NODES: nat := 2

  /** Fixed identity of a group; `slots` counts its members, `depth` its mutable epochs. */
  datatype Registration = Registration(scope: GroupId, group: GroupId, slots: nat, depth: nat,
                                       membership: Hash, parameters: Hash, hash: Hash)

  datatype ReferenceBody = ReferenceBody(version: nat, scope: GroupId, registration: Hash, group: GroupId,
                                         sequence: nat, previous: Option<Hash>, membership: Hash, parameters: Hash,
                                         active: set<nat>, confirmed: set<nat>, sealedNonce: nat, sealingNonce: nat,
                                         contents: Hash)

  datatype Reference = Reference(hash: Hash, body: ReferenceBody)

  datatype NetworkEvent = Register(registration: Registration) | Publish(reference: Reference)

  datatype CheckpointBody = CheckpointBody(group: GroupId, nonce: nat, previousNonce: Option<nat>, previousHash: Hash,
                                           deltaCount: nat, deltaRoot: Hash)

  datatype Checkpoint = Checkpoint(hash: Hash, body: CheckpointBody)

  /** The commitments the reducer recomputes, and what makes a registration valid. */
  datatype Commitments = Commitments(validRegistration: Registration -> bool, reference: ReferenceBody -> Hash,
                                     event: NetworkEvent -> Hash, checkpoint: CheckpointBody -> Hash,
                                     delta: seq<Hash> -> Hash, snapshot: Snapshot -> Hash)

  /** The finalized graph: known checkpoints and the payload each vertex commits. */
  datatype Dag = Dag(checkpoints: set<Checkpoint>, payloads: map<Hash, Hash>)

  datatype State = State(scope: GroupId, registrations: map<GroupId, Registration>, heads: map<GroupId, Reference>,
                         checkpoint: Option<(nat, Hash)>)

  datatype Snapshot = Snapshot(version: nat, scope: GroupId, registrations: seq<Registration>, heads: seq<Reference>,
                               nonce: Option<nat>, hash: Option<Hash>, commitment: Hash)

  function Majority(n: nat): nat {
    n / 2 + 1
  }

  predicate ValidReference(c: Commitments, r: Reference, g: Registration) {
    && c.validRegistration(g)
    && r.hash == c.reference(r.body) && r.body.version == REFERENCE_VERSION
    && r.body.scope == g.scope && r.body.registration == g.hash && r.body.group == g.group
    && r.body.membership == g.membership && r.body.parameters == g.parameters
    && r.body.sequence != 0 && (r.body.sequence == 1 <==> r.body.previous.None?)
    && (forall i :: i in r.body.active ==> i < g.slots)
    && |r.body.active| >= MIN_HA_NODES && r.body.confirmed <= r.body.active
    && |r.body.confirmed| >= Majority(|r.body.active|)
    && r.body.sealedNonce + g.depth <= U64_MAX && r.body.sealingNonce >= r.body.sealedNonce + g.depth
  }

  function Saturating(n: nat): nat {
    if n < U64_MAX then n + 1 else U64_MAX
  }

  /** `next` continues the chain that ends in `head`. */
  predicate Continues(head: Reference, next: Reference) {
    && next.body.sequence == Saturating(head.body.sequence)
    && next.body.previous == Some(head.hash)
    && next.body.sealedNonce > head.body.sealedNonce
  }

  predicate Starts(r: Reference) {
    r.body.sequence == 1 && r.body.previous.None?
  }

  function ApplyEvent(c: Commitments, s: State, e: NetworkEvent): Option<State> {
    match e
    case Register(g) =>
      if !c.validRegistration(g) || g.scope != s.scope then None
      else if g.group in s.registrations then (if s.registrations[g.group] == g then Some(s) else None)
      else Some(s.(registrations := s.registrations[g.group := g]))
    case Publish(r) =>
      var group := r.body.group;
      if group !in s.registrations || !ValidReference(c, r, s.registrations[group]) then None
      else if group in s.heads then
        if s.heads[group] == r then Some(s)
        else if Continues(s.heads[group], r) then Some(s.(heads := s.heads[group := r]))
        else None
      else if Starts(r) then Some(s.(heads := s.heads[group := r]))
      else None
  }

  /** The events of the vertices that carry one, in vertex order, if each matches
      the payload its vertex committed. */
  function EventsOf(c: Commitments, dag: Dag, vertices: seq<Hash>, events: map<Hash,
                    NetworkEvent>): Option<seq<NetworkEvent>> {
    if vertices == [] then Some([])
    else
      var v := vertices[|vertices| - 1];
      match EventsOf(c, dag, vertices[..|vertices| - 1], events)
      case None => None
      case Some(es) =>
        if v !in events then Some(es)
        else if v !in dag.payloads || dag.payloads[v] != c.event(events[v]) then None
        else Some(es + [events[v]])
  }

  function ApplyEvents(c: Commitments, s: State, es: seq<NetworkEvent>): Option<State> {
    if es == [] then Some(s)
    else
      match ApplyEvents(c, s, es[..|es| - 1])
      case None => None
      case Some(t) => ApplyEvent(c, t, es[|es| - 1])
  }

  predicate Finalized(c: Commitments, s: State, dag: Dag, cp: Checkpoint, vertices: seq<Hash>) {
    && cp.hash == c.checkpoint(cp.body)
    && cp.body.deltaCount == |vertices| && cp.body.deltaRoot == c.delta(vertices)
    && cp.body.group == s.scope && cp in dag.checkpoints
  }

  /** The checkpoint follows the last applied one, or is the first of all. */
  predicate Contiguous(s: State, cp: Checkpoint) {
    match s.checkpoint
    case Some(last) => cp.body.previousNonce == Some(last.0) && cp.body.previousHash == last.1
    case None => cp.body.nonce == 1 && cp.body.previousNonce == Some(0)
  }

  datatype Delivery = Delivery(dag: Dag, checkpoint: Checkpoint, vertices: seq<Hash>, events: map<Hash, NetworkEvent>)

  /** Applies one delivered checkpoint; `None` is a rejection. */
  function Deliver(c: Commitments, s: State, d: Delivery): Option<State> {
    if !Finalized(c, s, d.dag, d.checkpoint, d.vertices) || !Contiguous(s, d.checkpoint)
       || (exists v :: v in d.events && v !in d.vertices) then None
    else
      match EventsOf(c, d.dag, d.vertices, d.events)
      case None => None
      case Some(es) =>
        (match ApplyEvents(c, s, es)
         case None => None
         case Some(t) => Some(t.(checkpoint := Some((d.checkpoint.body.nonce, d.checkpoint.hash)))))
  }

  function Fresh(scope: GroupId): State {
    State(scope, map[], map[], None)
  }

  /** A rejected delivery changes nothing. */
  function Next(c: Commitments, s: State, d: Delivery): State {
    match Deliver(c, s, d)
    case Some(t) => t
    case None => s
  }

  function Run(c: Commitments, s: State, ds: seq<Delivery>): State
    decreases |ds|
  {
    if ds == [] then s else Next(c, Run(c, s, ds[..|ds| - 1]), ds[|ds| - 1])
  }

  /** Registrations and heads are valid and filed under their own group. */
  predicate Sound(c: Commitments, s: State) {
    && (forall g :: g in s.registrations ==>
          s.registrations[g].group == g && s.registrations[g].scope == s.scope
              && c.validRegistration(s.registrations[g]))
    && (forall g :: g in s.heads ==>
          s.heads[g].body.group == g && g in s.registrations && ValidReference(c, s.heads[g], s.registrations[g]))
  }

  lemma {:induction false} EventKeepsSound(c: Commitments, s: State, e: NetworkEvent)
    requires Sound(c, s) && ApplyEvent(c, s, e).Some?
    ensures Sound(c, ApplyEvent(c, s, e).value) && ApplyEvent(c, s, e).value.scope == s.scope
  {
  }

  lemma {:induction false} EventsKeepSound(c: Commitments, s: State, es: seq<NetworkEvent>)
    requires Sound(c, s) && ApplyEvents(c, s, es).Some?
    ensures Sound(c, ApplyEvents(c, s, es).value) && ApplyEvents(c, s, es).value.scope == s.scope
  {
    if es != [] {
      EventsKeepSound(c, s, es[..|es| - 1]);
      EventKeepsSound(c, ApplyEvents(c, s, es[..|es| - 1]).value, es[|es| - 1]);
    }
  }

  lemma {:induction false} RunKeepsSound(c: Commitments, s: State, ds: seq<Delivery>)
    requires Sound(c, s)
    ensures Sound(c, Run(c, s, ds)) && Run(c, s, ds).scope == s.scope
    decreases |ds|
  {
    if ds != [] {
      var d, t := ds[|ds| - 1], Run(c, s, ds[..|ds| - 1]);
      RunKeepsSound(c, s, ds[..|ds| - 1]);
      if Deliver(c, t, d).Some? {
        EventsKeepSound(c, t, EventsOf(c, d.dag, d.vertices, d.events).value);
      }
    }
  }

  /** What an accepted event list published for one group, repeats left out. */
  function Published(s: State, g: GroupId, es: seq<NetworkEvent>, c: Commitments): seq<Reference> {
    if es == [] then []
    else
      var before := Published(s, g, es[..|es| - 1], c);
      var e := es[|es| - 1];
      match ApplyEvents(c, s, es[..|es| - 1])
      case None => before
      case Some(t) =>
        if e.Publish? && e.reference.body.group == g && !(g in t.heads && t.heads[g] == e.reference)
        then before + [e.reference] else before
  }

  /** Everything a run published for one group, in order. */
  function Chain(c: Commitments, s: State, g: GroupId, ds: seq<Delivery>): seq<Reference>
    decreases |ds|
  {
    if ds == [] then []
    else
      var d, t := ds[|ds| - 1], Run(c, s, ds[..|ds| - 1]);
      var before := Chain(c, s, g, ds[..|ds| - 1]);
      if Deliver(c, t, d).None? then before
      else before + Published(t, g, EventsOf(c, d.dag, d.vertices, d.events).value, c)
  }

  /** Each element continues the one before it. */
  predicate Linked(chain: seq<Reference>) {
    forall i :: 0 < i < |chain| ==> Continues(chain[i - 1], chain[i])
  }

  /** The chain starts the group's history and ends in its current head. */
  predicate HeadOf(s: State, g: GroupId, chain: seq<Reference>) {
    && (g in s.heads <==> chain != [])
    && (chain != [] ==> Starts(chain[0]) && s.heads[g] == chain[|chain| - 1])
    && Linked(chain)
  }

  lemma {:induction false} LinkedAppend(a: seq<Reference>, r: Reference)
    requires Linked(a) && (a != [] ==> Continues(a[|a| - 1], r))
    ensures Linked(a + [r])
  {
  }

  lemma {:induction false} PublishedExtends(c: Commitments, s: State, g: GroupId, es: seq<NetworkEvent>,
                                            chain: seq<Reference>)
    requires HeadOf(s, g, chain) && ApplyEvents(c, s, es).Some?
    ensures HeadOf(ApplyEvents(c, s, es).value, g, chain + Published(s, g, es, c))
  {
    if es == [] {
      assert chain + [] == chain;
    } else {
      var init, e := es[..|es| - 1], es[|es| - 1];
      PublishedExtends(c, s, g, init, chain);
      var soFar := chain + Published(s, g, init, c);
      var t := ApplyEvents(c, s, init).value;
      if e.Publish? && e.reference.body.group == g && !(g in t.heads && t.heads[g] == e.reference) {
        LinkedAppend(soFar, e.reference);
        assert chain + Published(s, g, es, c) == soFar + [e.reference];
      } else {
        assert chain + Published(s, g, es, c) == soFar;
      }
    }
  }

  /** Over every run each group's published references form one contiguous chain
      from sequence one, sealed nonces strictly rising, ending in its head. */
  lemma {:induction false} HeadsFormOneChain(c: Commitments, scope: GroupId, g: GroupId, ds: seq<Delivery>)
    ensures HeadOf(Run(c, Fresh(scope), ds), g, Chain(c, Fresh(scope), g, ds))
    decreases |ds|
  {
    if ds != [] {
      var d, t := ds[|ds| - 1], Run(c, Fresh(scope), ds[..|ds| - 1]);
      HeadsFormOneChain(c, scope, g, ds[..|ds| - 1]);
      if Deliver(c, t, d).Some? {
        PublishedExtends(c, t, g, EventsOf(c, d.dag, d.vertices, d.events).value, Chain(c, Fresh(scope), g,
                                                                                        ds[..|ds| - 1]));
      }
    }
  }

  /** Along a linked chain sequences count up by one until they saturate, and
      sealed nonces rise strictly. */
  lemma {:induction false} ChainCounts(chain: seq<Reference>, i: nat)
    requires Linked(chain) && i < |chain| && Starts(chain[0])
    ensures chain[i].body.sequence == if i < U64_MAX then i + 1 else U64_MAX
    ensures forall j :: 0 <= j < i ==> chain[j].body.sealedNonce < chain[i].body.sealedNonce
  {
    if i > 0 {
      ChainCounts(chain, i - 1);
      assert Continues(chain[i - 1], chain[i]);
    }
  }

  /** The checkpoints a run accepted, in order. */
  function Accepted(c: Commitments, s: State, ds: seq<Delivery>): seq<Checkpoint>
    decreases |ds|
  {
    if ds == [] then []
    else
      var before := Accepted(c, s, ds[..|ds| - 1]);
      if Deliver(c, Run(c, s, ds[..|ds| - 1]), ds[|ds| - 1]).Some? then before + [ds[|ds| - 1].checkpoint] else before
  }

  predicate Follows(a: Checkpoint, b: Checkpoint) {
    b.body.previousNonce == Some(a.body.nonce) && b.body.previousHash == a.hash
  }

  /** Accepted checkpoints start at nonce one and each names the one before it. */
  lemma {:induction false} CheckpointsAreContiguous(c: Commitments, scope: GroupId, ds: seq<Delivery>)
    ensures var cps := Accepted(c, Fresh(scope), ds);
            && (forall i :: 0 < i < |cps| ==> Follows(cps[i - 1], cps[i]))
            && (cps != [] ==> cps[0].body.nonce == 1 && cps[0].body.previousNonce == Some(0))
            && Run(c, Fresh(scope), ds).checkpoint
               == if cps == [] then None else Some((cps[|cps| - 1].body.nonce, cps[|cps| - 1].hash))
    decreases |ds|
  {
    if ds != [] {
      CheckpointsAreContiguous(c, scope, ds[..|ds| - 1]);
    }
  }

  predicate RegistrationsInOrder(rs: seq<Registration>) {
    forall i, j :: 0 <= i < j < |rs| ==> rs[i].group < rs[j].group
  }

  predicate HeadsInOrder(rs: seq<Reference>) {
    forall i, j :: 0 <= i < j < |rs| ==> rs[i].body.group < rs[j].body.group
  }

  function RegistrationMap(rs: seq<Registration>): map<GroupId, Registration> {
    if rs == [] then map[] else RegistrationMap(rs[..|rs| - 1])[rs[|rs| - 1].group := rs[|rs| - 1]]
  }

  function HeadMap(rs: seq<Reference>): map<GroupId, Reference> {
    if rs == [] then map[] else HeadMap(rs[..|rs| - 1])[rs[|rs| - 1].body.group := rs[|rs| - 1]]
  }

  predicate ValidSnapshot(c: Commitments, p: Snapshot) {
    && p.version == SNAPSHOT_VERSION && (p.nonce.Some? <==> p.hash.Some?)
    && p.commitment == c.snapshot(p.(commitment := 0))
    && RegistrationsInOrder(p.registrations) && HeadsInOrder(p.heads)
    && (forall i :: 0 <= i < |p.registrations| ==>
          c.validRegistration(p.registrations[i]) && p.registrations[i].scope == p.scope)
    && (forall i :: 0 <= i < |p.heads| ==>
          var g := p.heads[i].body.group;
          g in RegistrationMap(p.registrations) && ValidReference(c, p.heads[i], RegistrationMap(p.registrations)[g]))
  }

  /** The state a snapshot describes. */
  function Restored(p: Snapshot): State {
    State(p.scope, RegistrationMap(p.registrations), HeadMap(p.heads),
          if p.nonce.Some? && p.hash.Some? then Some((p.nonce.value, p.hash.value)) else None)
  }

  /** `p` lists this state in group order and commits to it. */
  predicate IsSnapshotOf(c: Commitments, s: State, p: Snapshot) {
    && p.version == SNAPSHOT_VERSION && p.scope == s.scope
    && RegistrationsInOrder(p.registrations) && HeadsInOrder(p.heads)
    && (forall g :: g in s.registrations ==> s.registrations[g] in p.registrations)
    && (forall i :: 0 <= i < |p.registrations| ==>
          p.registrations[i].group in s.registrations
              && s.registrations[p.registrations[i].group] == p.registrations[i])
    && (forall g :: g in s.heads ==> s.heads[g] in p.heads)
    && (forall i :: 0 <= i < |p.heads| ==>
          p.heads[i].body.group in s.heads && s.heads[p.heads[i].body.group] == p.heads[i])
    && p.nonce == (if s.checkpoint.Some? then Some(s.checkpoint.value.0) else None)
    && p.hash == (if s.checkpoint.Some? then Some(s.checkpoint.value.1) else None)
    && p.commitment == c.snapshot(p.(commitment := 0))
  }

  lemma {:induction false} RegistrationMapAt(rs: seq<Registration>, g: GroupId)
    ensures g in RegistrationMap(rs) <==> exists i :: 0 <= i < |rs| && rs[i].group == g
    ensures g in RegistrationMap(rs) ==> RegistrationMap(rs)[g] in rs && RegistrationMap(rs)[g].group == g
  {
    if rs != [] {
      var init := rs[..|rs| - 1];
      RegistrationMapAt(init, g);
      if i :| 0 <= i < |rs| && rs[i].group == g && i < |rs| - 1 {
        assert init[i].group == g;
      }
      if g in RegistrationMap(init) {
        var i :| 0 <= i < |init| && init[i].group == g;
        assert rs[i].group == g;
      }
    }
  }

  lemma {:induction false} HeadMapAt(rs: seq<Reference>, g: GroupId)
    ensures g in HeadMap(rs) <==> exists i :: 0 <= i < |rs| && rs[i].body.group == g
    ensures g in HeadMap(rs) ==> HeadMap(rs)[g] in rs && HeadMap(rs)[g].body.group == g
  {
    if rs != [] {
      var init := rs[..|rs| - 1];
      HeadMapAt(init, g);
      if i :| 0 <= i < |rs| && rs[i].body.group == g && i < |rs| - 1 {
        assert init[i].body.group == g;
      }
      if g in HeadMap(init) {
        var i :| 0 <= i < |init| && init[i].body.group == g;
        assert rs[i].body.group == g;
      }
    }
  }

  lemma {:induction false} RegistrationsRestored(c: Commitments, s: State, p: Snapshot)
    requires Sound(c, s) && IsSnapshotOf(c, s, p)
    ensures RegistrationMap(p.registrations) == s.registrations
  {
    forall g: GroupId
      ensures g in RegistrationMap(p.registrations) <==> g in s.registrations
      ensures g in s.registrations ==> RegistrationMap(p.registrations)[g] == s.registrations[g]
    {
      RegistrationMapAt(p.registrations, g);
      if g in s.registrations {
        var i :| 0 <= i < |p.registrations| && p.registrations[i] == s.registrations[g];
        assert p.registrations[i].group == g;
        var j :| 0 <= j < |p.registrations| && p.registrations[j] == RegistrationMap(p.registrations)[g];
      }
    }
  }

  lemma {:induction false} HeadsRestored(c: Commitments, s: State, p: Snapshot)
    requires Sound(c, s) && IsSnapshotOf(c, s, p)
    ensures HeadMap(p.heads) == s.heads
  {
    forall g: GroupId
      ensures g in HeadMap(p.heads) <==> g in s.heads
      ensures g in s.heads ==> HeadMap(p.heads)[g] == s.heads[g]
    {
      HeadMapAt(p.heads, g);
      if g in s.heads {
        var i :| 0 <= i < |p.heads| && p.heads[i] == s.heads[g];
        assert p.heads[i].body.group == g;
        var j :| 0 <= j < |p.heads| && p.heads[j] == HeadMap(p.heads)[g];
      }
    }
  }

  /** The snapshot of a sound state validates and restores exactly that state. */
  lemma {:induction false} SnapshotRestores(c: Commitments, s: State, p: Snapshot)
    requires Sound(c, s) && IsSnapshotOf(c, s, p)
    ensures ValidSnapshot(c, p) && Restored(p) == s
  {
    RegistrationsRestored(c, s, p);
    HeadsRestored(c, s, p);
  }

  /** In a strictly ordered list every entry is the one filed under its group. */
  lemma {:induction false} RegistrationFiled(rs: seq<Registration>, i: nat)
    requires RegistrationsInOrder(rs) && i < |rs|
    ensures rs[i].group in RegistrationMap(rs) && RegistrationMap(rs)[rs[i].group] == rs[i]
  {
    RegistrationMapAt(rs, rs[i].group);
    var j :| 0 <= j < |rs| && rs[j] == RegistrationMap(rs)[rs[i].group];
  }

  lemma {:induction false} HeadFiled(rs: seq<Reference>, i: nat)
    requires HeadsInOrder(rs) && i < |rs|
    ensures rs[i].body.group in HeadMap(rs) && HeadMap(rs)[rs[i].body.group] == rs[i]
  {
    HeadMapAt(rs, rs[i].body.group);
    var j :| 0 <= j < |rs| && rs[j] == HeadMap(rs)[rs[i].body.group];
  }

  /** Whatever snapshot validates restores a sound state, of which it is the snapshot. */
  lemma {:induction false} ValidSnapshotIsSound(c: Commitments, p: Snapshot)
    requires ValidSnapshot(c, p)
    ensures Sound(c, Restored(p)) && IsSnapshotOf(c, Restored(p), p)
  {
    hide ValidReference, RegistrationMap, HeadMap;
    forall g: GroupId | g in RegistrationMap(p.registrations)
      ensures RegistrationMap(p.registrations)[g].group == g && RegistrationMap(p.registrations)[g] in p.registrations
    {
      RegistrationMapAt(p.registrations, g);
    }
    forall g: GroupId | g in HeadMap(p.heads)
      ensures HeadMap(p.heads)[g].body.group == g && HeadMap(p.heads)[g] in p.heads
    {
      HeadMapAt(p.heads, g);
    }
    forall i | 0 <= i < |p.registrations|
      ensures p.registrations[i].group in RegistrationMap(p.registrations)
      ensures RegistrationMap(p.registrations)[p.registrations[i].group] == p.registrations[i]
    {
      RegistrationFiled(p.registrations, i);
    }
    forall i | 0 <= i < |p.heads|
      ensures p.heads[i].body.group in HeadMap(p.heads) && HeadMap(p.heads)[p.heads[i].body.group] == p.heads[i]
    {
      HeadFiled(p.heads, i);
    }
  }

  lemma {:induction false} RunSplit(c: Commitments, s: State, a: seq<Delivery>, b: seq<Delivery>)
    ensures Run(c, s, a + b) == Run(c, Run(c, s, a), b)
    decreases |b|
  {
    if b == [] {
      assert a + b == a;
    } else {
      RunSplit(c, s, a, b[..|b| - 1]);
      assert (a + b)[..|a + b| - 1] == a + b[..|b| - 1];
    }
  }

  /** Restoring a snapshot mid-run and replaying the rest is the uninterrupted run. */
  lemma {:induction false} RestoreThenReplay(c: Commitments, scope: GroupId, a: seq<Delivery>, b: seq<Delivery>,
                                             p: Snapshot)
    requires IsSnapshotOf(c, Run(c, Fresh(scope), a), p)
    ensures ValidSnapshot(c, p) && Run(c, Restored(p), b) == Run(c, Fresh(scope), a + b)
  {
    RunKeepsSound(c, Fresh(scope), a);
    SnapshotRestores(c, Run(c, Fresh(scope), a), p);
    RunSplit(c, Fresh(scope), a, b);
  }
}
