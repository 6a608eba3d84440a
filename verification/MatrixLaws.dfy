/**
 When a quorum round passes, stated over the updates alone: whose messages were
 last recorded as valid, and how many of each node's column and row that makes.
 */
module MatrixLaws {
  import opened FiniteSets
  import opened QuorumSelection
  import opened MessageMatrix

  /** The last update in the cell was a valid receipt; without one only a node's
      own cell counts. */
  predicate Received(nodes: seq<PubKey>, us: seq<Update>, r: nat, c: nat) {
    match LastRecorded(nodes, us, r, c)
    case Some(u) => u.valid && (u.status == DispatchReceived || u.status == EchoReceived || u.status == NodeSelf)
    case None => r == c
  }

  predicate Dispatched(nodes: seq<PubKey>, us: seq<Update>, r: nat, c: nat) {
    match LastRecorded(nodes, us, r, c)
    case Some(u) => u.valid && u.status == DispatchReceived
    case None => false
  }

  /** Nodes from whose row the column of `i` has a receipt. */
  ghost function Column(nodes: seq<PubKey>, us: seq<Update>, i: nat, n: nat): set<nat> {
    set r | 0 <= r < n && Received(nodes, us, r, i)
  }

  ghost function Row(nodes: seq<PubKey>, us: seq<Update>, i: nat, n: nat): set<nat> {
    set c | 0 <= c < n && Received(nodes, us, i, c)
  }

  /** More than two thirds of the node's column and of its row are received, and
      its dispatch arrived unless it is this node. */
  ghost predicate NodePasses(nodes: seq<PubKey>, selfIndex: nat, us: seq<Update>, i: nat) {
    && |Column(nodes, us, i, |nodes|)| >= |nodes| - |nodes| / 3
    && |Row(nodes, us, i, |nodes|)| >= |nodes| - |nodes| / 3
    && (i == selfIndex || exists r :: 0 <= r < |nodes| && Dispatched(nodes, us, r, i))
  }

  ghost function Passing(nodes: seq<PubKey>, selfIndex: nat, us: seq<Update>, n: nat): set<nat> {
    set i | 0 <= i < n && NodePasses(nodes, selfIndex, us, i)
  }

  /** A cell counts exactly when its last update was a valid receipt. */
  lemma {:induction false} CellCounts(s: State, nodes: seq<PubKey>, selfKey: PubKey, us: seq<Update>, r: nat, c: nat)
    requires IsInitial(s, nodes, selfKey) && r < |nodes| && c < |nodes|
    ensures Counts(Run(s, us).matrix[r][c]) <==> Received(nodes, us, r, c)
    ensures Run(s, us).matrix[r][c] == DispatchReceived <==> Dispatched(nodes, us, r, c)
  {
    LastUpdateDecides(s, nodes, selfKey, us, r, c);
  }

  lemma {:induction false} ColumnSize(s: State, nodes: seq<PubKey>, selfKey: PubKey, us: seq<Update>, i: nat, n: nat)
    requires IsInitial(s, nodes, selfKey) && i < |nodes| && n <= |nodes|
    ensures ColumnCount(Run(s, us).matrix, i, n) == |Column(nodes, us, i, n)|
  {
    hide IsInitial, Received, Counts, Run;
    if n == 0 {
      assert Column(nodes, us, i, n) == {};
    } else {
      ColumnSize(s, nodes, selfKey, us, i, n - 1);
      CellCounts(s, nodes, selfKey, us, n - 1, i);
      assert Column(nodes, us, i, n)
          == Column(nodes, us, i, n - 1) + (if Received(nodes, us, n - 1, i) then {n - 1} else {});
    }
  }

  lemma {:induction false} RowSize(s: State, nodes: seq<PubKey>, selfKey: PubKey, us: seq<Update>, i: nat, n: nat)
    requires IsInitial(s, nodes, selfKey) && i < |nodes| && n <= |nodes|
    ensures RowCount(Run(s, us).matrix[i], n) == |Row(nodes, us, i, n)|
  {
    hide IsInitial, Received, Counts, Run;
    if n == 0 {
      assert Row(nodes, us, i, n) == {};
    } else {
      RowSize(s, nodes, selfKey, us, i, n - 1);
      CellCounts(s, nodes, selfKey, us, i, n - 1);
      assert Row(nodes, us, i, n)
          == Row(nodes, us, i, n - 1) + (if Received(nodes, us, i, n - 1) then {n - 1} else {});
    }
  }

  /** The status a node is recomputed to, by its receipts: passed as `NodePasses`
      says, void when its column has neither the receipts nor its dispatch and its row
      has neither or both, and pending otherwise. */
  lemma {:induction false} StatusExactly(s: State, nodes: seq<PubKey>, selfKey: PubKey, us: seq<Update>, i: nat)
    requires IsInitial(s, nodes, selfKey) && i < |nodes|
    ensures Recomputed(Run(s, us), i).NodePassed? <==> NodePasses(nodes, s.selfIndex, us, i)
    ensures Recomputed(Run(s, us), i).NodeVoid? <==>
              && |Column(nodes, us, i, |nodes|)| < |nodes| - |nodes| / 3
              && i != s.selfIndex && (forall r :: 0 <= r < |nodes| ==> !Dispatched(nodes, us, r, i))
              && (|Row(nodes, us, i, |nodes|)| < |nodes| - |nodes| / 3
                  <==> forall c :: 0 <= c < |nodes| ==> !Dispatched(nodes, us, i, c))
    ensures Recomputed(Run(s, us), i) in {NodePassed, NodeVoid, NodePending}
  {
    var t, n := Run(s, us), |nodes|;
    hide IsInitial, Run, Received, Dispatched, Column, Row, ColumnCount, RowCount;
    ColumnSize(s, nodes, selfKey, us, i, n);
    RowSize(s, nodes, selfKey, us, i, n);
    forall r | 0 <= r < n
      ensures t.matrix[r][i] == DispatchReceived <==> Dispatched(nodes, us, r, i)
      ensures t.matrix[i][r] == DispatchReceived <==> Dispatched(nodes, us, i, r)
    {
      CellCounts(s, nodes, selfKey, us, r, i);
      CellCounts(s, nodes, selfKey, us, i, r);
    }
  }

  lemma {:induction false} PassedCountIsSize(status: seq<Status>, passing: set<nat>)
    requires forall i: nat :: i in passing <==> i < |status| && status[i].NodePassed?
    ensures PassedCount(status) == |passing|
  {
    if status == [] {
      assert passing == {};
    } else {
      var n := |status| - 1;
      PassedCountIsSize(status[..n], passing - {n});
      if status[n].NodePassed? {
        assert passing == (passing - {n}) + {n};
      } else {
        assert passing == passing - {n};
      }
    }
  }

  lemma {:induction false} PassingSize(s: State, nodes: seq<PubKey>, selfKey: PubKey, us: seq<Update>)
    requires IsInitial(s, nodes, selfKey)
    ensures PassedCount(AllRecomputed(Run(s, us), |nodes|)) == |Passing(nodes, s.selfIndex, us, |nodes|)|
  {
    var n := |nodes|;
    var all := AllRecomputed(Run(s, us), n);
    hide IsInitial, NodePasses, Run, Recomputed, PassedCount;
    forall i: nat | i < n ensures NodePasses(nodes, s.selfIndex, us, i) <==> all[i].NodePassed? {
      StatusExactly(s, nodes, selfKey, us, i);
    }
    PassedCountIsSize(all, Passing(nodes, s.selfIndex, us, n));
  }

  /** After any updates the verdict is true exactly when more than two thirds of
      the nodes pass by their receipts, but for a lone key before its first update,
      where it is false. */
  lemma {:induction false} VerdictExactly(s: State, nodes: seq<PubKey>, selfKey: PubKey, us: seq<Update>)
    requires IsInitial(s, nodes, selfKey)
    ensures Verdict(Run(s, us)) <==>
              && |Passing(nodes, s.selfIndex, us, |nodes|)| >= |nodes| - |nodes| / 3
              && !(|nodes| == 1 && Touched(nodes, us) == {})
  {
    VerdictIsFullVerdict(s, nodes, selfKey, us);
    PassingSize(s, nodes, selfKey, us);
    if |nodes| == 1 && Touched(nodes, us) == {} {
      RunKeepsCached(s, nodes, selfKey, us);
      LoneNode(Run(s, us), us);
    }
  }

  /** Every dispatch reached this node and every other node echoed every sender,
      as far as the last record of each goes. */
  ghost predicate EverythingArrived(nodes: seq<PubKey>, selfIndex: nat, us: seq<Update>) {
    forall r, c :: 0 <= r < |nodes| && 0 <= c < |nodes| && r != c ==>
      match LastRecorded(nodes, us, r, c)
      case Some(u) => u.valid && u.status == (if r == selfIndex then DispatchReceived else EchoReceived)
      case None => false
  }

  lemma {:induction false} ArrivedPasses(nodes: seq<PubKey>, selfIndex: nat, us: seq<Update>, i: nat)
    requires EverythingArrived(nodes, selfIndex, us) && i < |nodes| && selfIndex < |nodes|
    requires forall k :: 0 <= k < |nodes| ==> LastRecorded(nodes, us, k, k).None?
    ensures NodePasses(nodes, selfIndex, us, i)
  {
    hide LastRecorded;
    var n := |nodes|;
    forall k: nat | k < n ensures k in Column(nodes, us, i, n) && k in Row(nodes, us, i, n) {
    }
    assert Column(nodes, us, i, n) == UpTo(n) && Row(nodes, us, i, n) == UpTo(n);
    if i != selfIndex {
      assert Dispatched(nodes, us, selfIndex, i);
    }
  }

  /** Once every dispatch and every echo has arrived, the round passes. */
  lemma {:induction false} FullRoundPasses(s: State, nodes: seq<PubKey>, selfKey: PubKey, us: seq<Update>)
    requires IsInitial(s, nodes, selfKey) && |nodes| >= 2 && selfKey in nodes
    requires EverythingArrived(nodes, s.selfIndex, us)
    requires forall i :: 0 <= i < |nodes| ==> LastRecorded(nodes, us, i, i).None?
    ensures Verdict(Run(s, us))
  {
    var n := |nodes|;
    VerdictExactly(s, nodes, selfKey, us);
    assert s.selfIndex < n;
    hide LastRecorded, EverythingArrived, NodePasses, Verdict, Run, IsInitial;
    forall i: nat | i < n ensures NodePasses(nodes, s.selfIndex, us, i) {
      ArrivedPasses(nodes, s.selfIndex, us, i);
    }
    assert Passing(nodes, s.selfIndex, us, n) == UpTo(n);
  }
}
