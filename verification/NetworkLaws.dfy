/**
 What the parallel-network reducer accepts, stated over the records: the fields a
 published reference must carry against the current head, what makes a delivered
 checkpoint applicable, and how each group's history links up over every run.
 */
module NetworkLaws {
  import opened Wrappers
  import opened Arithmetic
  import opened ParallelNetworks

  /** The reference is genuine and belongs to the registered group: its hash, its
      identity, a confirmed majority of at least two active slots, and a sealed
      epoch old enough to be beyond change. */
  ghost predicate Genuine(c: Commitments, r: Reference, g: Registration) {
    && c.validRegistration(g) && r.hash == c.reference(r.body) && r.body.version == 1
    && r.body.scope == g.scope && r.body.group == g.group && r.body.registration == g.hash
    && r.body.membership == g.membership && r.body.parameters == g.parameters
    && r.body.sequence >= 1 && (r.body.previous.None? <==> r.body.sequence == 1)
    && (forall i :: i in r.body.active ==> i < g.slots) && |r.body.active| >= 2
    && r.body.confirmed <= r.body.active && 2 * |r.body.confirmed| > |r.body.active|
    && r.body.sealedNonce + g.depth <= U64_MAX && r.body.sealedNonce + g.depth <= r.body.sealingNonce
  }

  lemma {:induction false} GenuineExactly(c: Commitments, r: Reference, g: Registration)
    ensures ValidReference(c, r, g) <==> Genuine(c, r, g)
  {
  }

  /** A published reference is accepted exactly when its group is registered, it is
      genuine, and it is the current head again, continues that head by sequence,
      hash and a later sealed epoch, or opens the history of a group without one. */
  lemma {:induction false} PublishesExactly(c: Commitments, s: State, r: Reference)
    ensures var g := r.body.group;
            ApplyEvent(c, s, Publish(r)).Some? <==>
              && g in s.registrations && Genuine(c, r, s.registrations[g])
              && if g in s.heads
                 then s.heads[g] == r
                      || (&& r.body.previous == Some(s.heads[g].hash)
                          && r.body.sealedNonce > s.heads[g].body.sealedNonce
                          && r.body.sequence == (if s.heads[g].body.sequence < U64_MAX
                                                 then s.heads[g].body.sequence + 1 else U64_MAX))
                 else r.body.sequence == 1 && r.body.previous.None?
    ensures ApplyEvent(c, s, Publish(r)).Some? ==>
              var t := ApplyEvent(c, s, Publish(r)).value;
              && t.scope == s.scope && t.registrations == s.registrations && t.checkpoint == s.checkpoint
              && t.heads == s.heads[r.body.group := r]
  {
    var g := r.body.group;
    if g in s.registrations {
      GenuineExactly(c, r, s.registrations[g]);
    }
    if g in s.heads && s.heads[g] == r {
      assert s.heads[g := r] == s.heads;
    }
  }

  /** A registration is accepted exactly when it is valid for this scope and its
      group is not registered otherwise. */
  lemma {:induction false} RegistersExactly(c: Commitments, s: State, g: Registration)
    ensures ApplyEvent(c, s, Register(g)).Some? <==>
              && c.validRegistration(g) && g.scope == s.scope
              && (g.group in s.registrations ==> s.registrations[g.group] == g)
    ensures ApplyEvent(c, s, Register(g)).Some? ==>
              ApplyEvent(c, s, Register(g)).value == s.(registrations := s.registrations[g.group := g])
  {
    if g.group in s.registrations && s.registrations[g.group] == g {
      assert s.registrations[g.group := g] == s.registrations;
    }
  }

  /** The events of the vertices that carry one, the first vertex first. */
  ghost function Carried(vertices: seq<Hash>, events: map<Hash, NetworkEvent>): seq<NetworkEvent> {
    if vertices == [] then []
    else (if vertices[0] in events then [events[vertices[0]]] else []) + Carried(vertices[1..], events)
  }

  lemma {:induction false} CarriedLast(vertices: seq<Hash>, events: map<Hash, NetworkEvent>)
    requires vertices != []
    ensures var n := |vertices| - 1;
            Carried(vertices, events)
            == Carried(vertices[..n], events) + (if vertices[n] in events then [events[vertices[n]]] else [])
  {
    var n := |vertices| - 1;
    if n == 0 {
      assert vertices[1..] == [] && vertices[..n] == [];
    } else {
      CarriedLast(vertices[1..], events);
      assert vertices[..n][1..] == vertices[1..][..n - 1];
    }
  }

  lemma {:induction false} EventsMean(c: Commitments, dag: Dag, vertices: seq<Hash>, events: map<Hash, NetworkEvent>)
    ensures EventsOf(c, dag, vertices, events).Some? <==>
              forall i :: 0 <= i < |vertices| && vertices[i] in events ==>
                vertices[i] in dag.payloads && dag.payloads[vertices[i]] == c.event(events[vertices[i]])
    ensures EventsOf(c, dag, vertices, events).Some? ==>
              EventsOf(c, dag, vertices, events).value == Carried(vertices, events)
  {
    if vertices != [] {
      var n := |vertices| - 1;
      EventsMean(c, dag, vertices[..n], events);
      CarriedLast(vertices, events);
      assert forall i :: 0 <= i < n ==> vertices[..n][i] == vertices[i];
    }
  }

  /** A delivered checkpoint is applied exactly when it is a known checkpoint of
      this scope with its own hash and the announced vertices, follows the last one
      applied or is the first of all, every event belongs to a listed vertex that
      committed it, and the events apply in vertex order. It then becomes the last
      one applied. */
  lemma {:induction false} DeliversExactly(c: Commitments, s: State, d: Delivery)
    ensures var cp, vs := d.checkpoint, d.vertices;
            Deliver(c, s, d).Some? <==>
              && cp.hash == c.checkpoint(cp.body) && cp in d.dag.checkpoints && cp.body.group == s.scope
              && cp.body.deltaCount == |vs| && cp.body.deltaRoot == c.delta(vs)
              && (if s.checkpoint.Some?
                  then cp.body.previousNonce == Some(s.checkpoint.value.0)
                       && cp.body.previousHash == s.checkpoint.value.1
                  else cp.body.nonce == 1 && cp.body.previousNonce == Some(0))
              && (forall v :: v in d.events ==>
                    v in vs && v in d.dag.payloads && d.dag.payloads[v] == c.event(d.events[v]))
              && ApplyEvents(c, s, Carried(vs, d.events)).Some?
    ensures Deliver(c, s, d).Some? ==>
              Deliver(c, s, d).value
              == ApplyEvents(c, s, Carried(d.vertices, d.events)).value
                 .(checkpoint := Some((d.checkpoint.body.nonce, d.checkpoint.hash)))
  {
    EventsMean(c, d.dag, d.vertices, d.events);
    if forall v :: v in d.events ==> v in d.vertices {
      forall v | v in d.events ensures exists i :: 0 <= i < |d.vertices| && d.vertices[i] == v {
      }
    }
  }

  /** Events apply one after the other, and one refusal refuses them all. */
  lemma {:induction false} AppliesInOrder(c: Commitments, s: State, es: seq<NetworkEvent>)
    requires es != []
    ensures ApplyEvents(c, s, es) == match ApplyEvent(c, s, es[0])
                                     case None => None
                                     case Some(t) => ApplyEvents(c, t, es[1..])
  {
    var n := |es| - 1;
    if n == 0 {
      assert es[..0] == [] && es[1..] == [];
    } else {
      AppliesInOrder(c, s, es[..n]);
      assert es[..n][1..] == es[1..][..n - 1];
    }
  }

  lemma {:induction false} EventsKeepRegistrations(c: Commitments, s: State, es: seq<NetworkEvent>, g: GroupId)
    requires g in s.registrations && ApplyEvents(c, s, es).Some?
    ensures var t := ApplyEvents(c, s, es).value;
            g in t.registrations && t.registrations[g] == s.registrations[g]
  {
    if es != [] {
      EventsKeepRegistrations(c, s, es[..|es| - 1], g);
    }
  }

  /** Once registered, a group keeps its registration over every run. */
  lemma {:induction false} RegistrationIsPermanent(c: Commitments, s: State, ds: seq<Delivery>, g: GroupId)
    requires g in s.registrations
    ensures g in Run(c, s, ds).registrations && Run(c, s, ds).registrations[g] == s.registrations[g]
    decreases |ds|
  {
    if ds != [] {
      var n := |ds| - 1;
      RegistrationIsPermanent(c, s, ds[..n], g);
      var t, d := Run(c, s, ds[..n]), ds[n];
      if Deliver(c, t, d).Some? {
        EventsKeepRegistrations(c, t, EventsOf(c, d.dag, d.vertices, d.events).value, g);
      }
    }
  }

  /** Over every run each group's history is one chain: the first reference has
      sequence one and no predecessor, every later one names the hash of the one
      before it, sequences count up by one until they saturate, sealed epochs rise
      strictly, and the last one is the current head. */
  lemma {:induction false} HistoryLinksUp(c: Commitments, scope: GroupId, g: GroupId, ds: seq<Delivery>)
    ensures var chain := Chain(c, Fresh(scope), g, ds);
            var s := Run(c, Fresh(scope), ds);
            && (g in s.heads <==> chain != [])
            && (chain != [] ==> s.heads[g] == chain[|chain| - 1])
            && (chain != [] ==> chain[0].body.sequence == 1 && chain[0].body.previous.None?)
            && (forall i :: 0 < i < |chain| ==> chain[i].body.previous == Some(chain[i - 1].hash))
            && (forall i :: 0 <= i < |chain| ==>
                  chain[i].body.sequence == (if i < U64_MAX then i + 1 else U64_MAX))
            && (forall i, j :: 0 <= i < j < |chain| ==> chain[i].body.sealedNonce < chain[j].body.sealedNonce)
  {
    var chain := Chain(c, Fresh(scope), g, ds);
    HeadsFormOneChain(c, scope, g, ds);
    forall i | 0 < i < |chain| ensures chain[i].body.previous == Some(chain[i - 1].hash) {
      assert Continues(chain[i - 1], chain[i]);
    }
    forall i | 0 <= i < |chain|
      ensures chain[i].body.sequence == (if i < U64_MAX then i + 1 else U64_MAX)
      ensures forall j :: 0 <= j < i ==> chain[j].body.sealedNonce < chain[i].body.sealedNonce
    {
      ChainCounts(chain, i);
    }
  }

  /** In every reachable state every head is a genuine reference of its registered
      group. */
  lemma {:induction false} HeadsAreGenuine(c: Commitments, scope: GroupId, ds: seq<Delivery>, g: GroupId)
    ensures var s := Run(c, Fresh(scope), ds);
            g in s.heads ==>
              && g in s.registrations && s.registrations[g].group == g && s.registrations[g].scope == scope
              && Genuine(c, s.heads[g], s.registrations[g])
  {
    var s := Run(c, Fresh(scope), ds);
    RunKeepsSound(c, Fresh(scope), ds);
    if g in s.heads {
      GenuineExactly(c, s.heads[g], s.registrations[g]);
    }
  }
}
