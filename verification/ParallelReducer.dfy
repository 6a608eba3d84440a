/**
 The reducer object. A delivered checkpoint is worked out on a copy that replaces
 the state only when everything in it was accepted.
 */
module ParallelReducer {
  import opened Wrappers
  import opened ParallelNetworks

  class Reducer {
    const c: Commitments
    const scope: GroupId
    var registrations: map<GroupId, Registration>
    var heads: map<GroupId, Reference>
    var checkpoint: Option<(nat, Hash)>

    constructor (c: Commitments, s: State)
      ensures this.c == c && View() == s
    {
      this.c := c;
      scope := s.scope;
      registrations, heads, checkpoint := s.registrations, s.heads, s.checkpoint;
    }

    ghost function View(): State
      reads this
    {
      State(scope, registrations, heads, checkpoint)
    }

    /** Applies one event in place. */
    method Apply(e: NetworkEvent) returns (ok: bool)
      modifies this
      ensures ok == ApplyEvent(c, old(View()), e).Some?
      ensures View() == if ok then ApplyEvent(c, old(View()), e).value else old(View())
    {
      match e {
        case Register(g) =>
          if !c.validRegistration(g) || g.scope != scope {
            return false;
          }
          if g.group in registrations {
            return registrations[g.group] == g;
          }
          registrations := registrations[g.group := g];
          return true;
        case Publish(r) =>
          var group := r.body.group;
          if group !in registrations || !ValidReference(c, r, registrations[group]) {
            return false;
          }
          if group in heads {
            if heads[group] == r {
              return true;
            }
            if !Continues(heads[group], r) {
              return false;
            }
          } else if !Starts(r) {
            return false;
          }
          heads := heads[group := r];
          return true;
      }
    }

    /** Applies a whole checkpoint, or leaves the reducer untouched. */
    method ApplyGlobalCheckpoint(d: Delivery) returns (r: Option<seq<NetworkEvent>>)
      modifies this
      ensures r.Some? <==> Deliver(c, old(View()), d).Some?
      ensures View() == Next(c, old(View()), d)
      ensures r.Some? ==> Some(r.value) == EventsOf(c, d.dag, d.vertices, d.events)
    {
      hide ApplyEvent, ApplyEvents, EventsOf;
      if d.checkpoint.hash != c.checkpoint(d.checkpoint.body)
         || d.checkpoint.body.deltaCount != |d.vertices| || d.checkpoint.body.deltaRoot != c.delta(d.vertices)
         || d.checkpoint.body.group != scope || d.checkpoint !in d.dag.checkpoints
         || !Contiguous(State(scope, registrations, heads, checkpoint), d.checkpoint)
         || (exists v :: v in d.events && v !in d.vertices) {
        return None;
      }
      var next := new Reducer(c, State(scope, registrations, heads, checkpoint));
      var applied := next.ApplyVertices(d);
      if applied.None? {
        return None;
      }
      registrations, heads := next.registrations, next.heads;
      ScopeKept(c, old(View()), applied.value);
      checkpoint := Some((d.checkpoint.body.nonce, d.checkpoint.hash));
      return applied;
    }

    /** Applies the events of the vertices in order; on a refusal the object is
        left part way and is to be thrown away. */
    method ApplyVertices(d: Delivery) returns (r: Option<seq<NetworkEvent>>)
      modifies this
      ensures var es := EventsOf(c, d.dag, d.vertices, d.events);
              && (r.Some? <==> es.Some? && ApplyEvents(c, old(View()), es.value).Some?)
              && (r.Some? ==> es == r && ApplyEvents(c, old(View()), es.value) == Some(View()))
    {
      hide ApplyEvent;
      var applied: seq<NetworkEvent> := [];
      for i := 0 to |d.vertices|
        invariant EventsOf(c, d.dag, d.vertices[..i], d.events) == Some(applied)
        invariant ApplyEvents(c, old(View()), applied) == Some(View())
      {
        assert d.vertices[..i + 1][..i] == d.vertices[..i];
        var v := d.vertices[i];
        if v !in d.events {
          continue;
        }
        if v !in d.dag.payloads || d.dag.payloads[v] != c.event(d.events[v]) {
          EventsRefused(c, d, i + 1);
          return None;
        }
        var ok := Apply(d.events[v]);
        assert (applied + [d.events[v]])[..|applied|] == applied;
        if !ok {
          RejectedEvent(c, old(View()), d, i + 1);
          return None;
        }
        applied := applied + [d.events[v]];
      }
      assert d.vertices[..|d.vertices|] == d.vertices;
      return Some(applied);
    }

    /** Lists the state in group order and commits to it. */
    method TakeSnapshot() returns (p: Snapshot)
      requires Sound(c, View())
      ensures IsSnapshotOf(c, View(), p) && ValidSnapshot(c, p)
    {
      hide Sound, ValidSnapshot, ValidReference;
      GroupsMatch(c, View());
      var rs := ListRegistrations(registrations);
      var hs := ListHeads(heads);
      var nonce := if checkpoint.Some? then Some(checkpoint.value.0) else None;
      var hash := if checkpoint.Some? then Some(checkpoint.value.1) else None;
      var unsealed := Snapshot(SNAPSHOT_VERSION, scope, rs, hs, nonce, hash, 0);
      p := unsealed.(commitment := c.snapshot(unsealed));
      assert p.(commitment := 0) == unsealed;
      SnapshotRestores(c, View(), p);
    }
  }

  lemma {:induction false} GroupsMatch(c: Commitments, s: State)
    requires Sound(c, s)
    ensures forall g :: g in s.registrations ==> s.registrations[g].group == g
    ensures forall g :: g in s.heads ==> s.heads[g].body.group == g
  {
  }

  /** Registrations in group order. */
  method ListRegistrations(m: map<GroupId, Registration>) returns (rs: seq<Registration>)
    requires forall g :: g in m ==> m[g].group == g
    ensures RegistrationsInOrder(rs) && forall g :: g in m ==> m[g] in rs
    ensures forall i :: 0 <= i < |rs| ==> rs[i].group in m && m[rs[i].group] == rs[i]
  {
    rs := [];
    var rest := m.Keys;
    while rest != {}
      invariant rest <= m.Keys && RegistrationsInOrder(rs)
      invariant forall i :: 0 <= i < |rs| ==> rs[i].group in m && rs[i].group !in rest && m[rs[i].group] == rs[i]
      invariant forall g :: g in m && g !in rest ==> m[g] in rs
      invariant forall i, g :: 0 <= i < |rs| && g in rest ==> rs[i].group < g
      decreases rest
    {
      var g := LeastGroup(rest);
      rs := rs + [m[g]];
      rest := rest - {g};
    }
  }

  /** State heads in group order. */
  method ListHeads(m: map<GroupId, Reference>) returns (rs: seq<Reference>)
    requires forall g :: g in m ==> m[g].body.group == g
    ensures HeadsInOrder(rs) && forall g :: g in m ==> m[g] in rs
    ensures forall i :: 0 <= i < |rs| ==> rs[i].body.group in m && m[rs[i].body.group] == rs[i]
  {
    rs := [];
    var rest := m.Keys;
    while rest != {}
      invariant rest <= m.Keys && HeadsInOrder(rs)
      invariant forall i :: 0 <= i < |rs| ==>
        rs[i].body.group in m && rs[i].body.group !in rest && m[rs[i].body.group] == rs[i]
      invariant forall g :: g in m && g !in rest ==> m[g] in rs
      invariant forall i, g :: 0 <= i < |rs| && g in rest ==> rs[i].body.group < g
      decreases rest
    {
      var g := LeastGroup(rest);
      rs := rs + [m[g]];
      rest := rest - {g};
    }
  }

  method LeastGroup(groups: set<GroupId>) returns (least: GroupId)
    requires groups != {}
    ensures least in groups && forall x: GroupId :: x in groups ==> least <= x
  {
    least :| least in groups;
    var rest := groups;
    while rest != {}
      invariant rest <= groups && least in groups
      invariant forall x: GroupId :: x in groups ==> x in rest || least <= x
      decreases rest
    {
      var g: GroupId :| g in rest;
      if g < least {
        least := g;
      }
      rest := rest - {g};
    }
  }

  /** A vertex whose event is refused refuses the delivery. */
  lemma {:induction false} EventsRefused(c: Commitments, d: Delivery, n: nat)
    requires n <= |d.vertices| && EventsOf(c, d.dag, d.vertices[..n], d.events).None?
    ensures EventsOf(c, d.dag, d.vertices, d.events).None?
    decreases |d.vertices| - n
  {
    if n < |d.vertices| {
      assert d.vertices[..n + 1][..n] == d.vertices[..n];
      EventsRefused(c, d, n + 1);
    } else {
      assert d.vertices[..n] == d.vertices;
    }
  }

  lemma {:induction false} RejectedEvent(c: Commitments, s: State, d: Delivery, n: nat)
    requires n <= |d.vertices| && EventsOf(c, d.dag, d.vertices[..n], d.events).Some?
    requires ApplyEvents(c, s, EventsOf(c, d.dag, d.vertices[..n], d.events).value).None?
    ensures var es := EventsOf(c, d.dag, d.vertices, d.events);
            es.Some? ==> ApplyEvents(c, s, es.value).None?
    decreases |d.vertices| - n
  {
    if n < |d.vertices| {
      assert d.vertices[..n + 1][..n] == d.vertices[..n];
      var es, next := EventsOf(c, d.dag, d.vertices[..n], d.events), EventsOf(c, d.dag, d.vertices[..n + 1], d.events);
      if next.None? {
        EventsRefused(c, d, n + 1);
      } else {
        assert next.value != es.value ==> next.value[..|next.value| - 1] == es.value;
        RejectedEvent(c, s, d, n + 1);
      }
    } else {
      assert d.vertices[..n] == d.vertices;
    }
  }

  lemma {:induction false} ScopeKept(c: Commitments, s: State, es: seq<NetworkEvent>)
    requires ApplyEvents(c, s, es).Some?
    ensures ApplyEvents(c, s, es).value.scope == s.scope
  {
    if es != [] {
      ScopeKept(c, s, es[..|es| - 1]);
    }
  }

  /** Checks the registrations, remembering only the previous group. */
  method ValidateRegistrations(c: Commitments, scope: GroupId, rs: seq<Registration>)
    returns (ok: bool, registrations: map<GroupId, Registration>)
    ensures ok <==>
              && RegistrationsInOrder(rs)
              && forall i :: 0 <= i < |rs| ==> c.validRegistration(rs[i]) && rs[i].scope == scope
    ensures ok ==> registrations == RegistrationMap(rs)
  {
    registrations := map[];
    for i := 0 to |rs|
      invariant RegistrationsInOrder(rs[..i]) && registrations == RegistrationMap(rs[..i])
      invariant forall j :: 0 <= j < i ==> c.validRegistration(rs[j]) && rs[j].scope == scope
    {
      assert rs[..i + 1][..i] == rs[..i];
      if !c.validRegistration(rs[i]) || rs[i].scope != scope || (i > 0 && rs[i - 1].group >= rs[i].group) {
        return false, registrations;
      }
      forall a | 0 <= a < i ensures rs[a].group < rs[i].group {
        assert a < i - 1 ==> rs[..i][a].group < rs[..i][i - 1].group;
      }
      registrations := registrations[rs[i].group := rs[i]];
    }
    assert rs[..|rs|] == rs;
    ok := true;
  }

  /** Checks the state heads against the registrations. */
  method ValidateHeads(c: Commitments, registrations: map<GroupId, Registration>, rs: seq<Reference>) returns (ok: bool)
    ensures ok <==> HeadsInOrder(rs)
                    && forall i :: 0 <= i < |rs| ==>
                         rs[i].body.group in registrations && ValidReference(c, rs[i], registrations[rs[i].body.group])
  {
    hide ValidReference;
    for i := 0 to |rs|
      invariant HeadsInOrder(rs[..i])
      invariant forall j :: 0 <= j < i ==>
        rs[j].body.group in registrations && ValidReference(c, rs[j], registrations[rs[j].body.group])
    {
      if i > 0 && rs[i - 1].body.group >= rs[i].body.group {
        return false;
      }
      if rs[i].body.group !in registrations || !ValidReference(c, rs[i], registrations[rs[i].body.group]) {
        return false;
      }
      forall a | 0 <= a < i ensures rs[a].body.group < rs[i].body.group {
        assert a < i - 1 ==> rs[..i][a].body.group < rs[..i][i - 1].body.group;
      }
    }
    assert rs[..|rs|] == rs;
    return true;
  }

  /** Checks a whole snapshot. */
  method ValidateSnapshot(c: Commitments, p: Snapshot) returns (ok: bool)
    ensures ok == ValidSnapshot(c, p)
  {
    hide ValidReference, RegistrationsInOrder, HeadsInOrder, RegistrationMap;
    if p.version != SNAPSHOT_VERSION || p.nonce.Some? != p.hash.Some?
       || p.commitment != c.snapshot(p.(commitment := 0)) {
      return false;
    }
    var listed, registrations := ValidateRegistrations(c, p.scope, p.registrations);
    if !listed {
      return false;
    }
    ok := ValidateHeads(c, registrations, p.heads);
  }

  /** Restores a reducer from a snapshot that validates. */
  method FromSnapshot(c: Commitments, p: Snapshot) returns (r: Option<Reducer>)
    ensures r.Some? <==> ValidSnapshot(c, p)
    ensures r.Some? ==> fresh(r.value) && r.value.c == c && r.value.View() == Restored(p) && Sound(c, r.value.View())
  {
    hide ValidSnapshot, Sound;
    var valid := ValidateSnapshot(c, p);
    if !valid {
      return None;
    }
    ValidSnapshotIsSound(c, p);
    var reducer := new Reducer(c, Restored(p));
    return Some(reducer);
  }
}
