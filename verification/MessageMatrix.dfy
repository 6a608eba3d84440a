/**
 The per-round message matrix: cell `[receiver][sender]` records what arrived.
 Each update refreshes the cached status of two nodes only; the verdict is
 proved to be the one a full recomputation gives.
 */
module MessageMatrix {
  import opened Wrappers
  import opened QuorumSelection
  import opened Supermajority

  datatype Status =
    | DispatchReceived | DispatchPending | DispatchVoid
    | EchoReceived | EchoVoid
    | NodePassed | NodePending | NodeVoid | NodeSelf
    | Void

  /** The messages a matrix takes, by the keys that decide their cell. */
  datatype Message =
    | Dispatch(sender: PubKey)
    | EchoReDispatch(sender: PubKey)
    | EchoResponse(sender: PubKey, echoed: PubKey)
    | OtherMessage

  datatype State = State(nodes: seq<PubKey>, selfKey: PubKey, selfIndex: nat,
                         matrix: seq<seq<Status>>, messages: seq<seq<Option<Message>>>, status: seq<Status>)

  /** Square matrices over the quorum, one cached status per node. */
  predicate Shaped(s: State) {
    && |s.matrix| == |s.nodes| && |s.messages| == |s.nodes| && |s.status| == |s.nodes|
    && (forall r :: 0 <= r < |s.matrix| ==> |s.matrix[r]| == |s.nodes|)
    && (forall c :: 0 <= c < |s.messages| ==> |s.messages[c]| == |s.nodes|)
  }

  function InitialCell(selfIndex: nat, r: nat, c: nat): Status {
    if r == c then NodeSelf else if r == selfIndex then DispatchVoid else EchoVoid
  }

  /** First position of a key. */
  function Position(nodes: seq<PubKey>, key: PubKey): (p: Option<nat>)
    ensures p.Some? ==> p.value < |nodes| && nodes[p.value] == key && key !in nodes[..p.value]
    ensures p.None? ==> key !in nodes
  {
    if nodes == [] then None
    else if nodes[0] == key then Some(0)
    else
      match Position(nodes[1..], key)
      case None => None
      case Some(i) => Some(i + 1)
  }

  predicate IsInitial(s: State, nodes: seq<PubKey>, selfKey: PubKey) {
    && s.nodes == nodes && s.selfKey == selfKey && Shaped(s)
    && s.selfIndex == (match Position(nodes, selfKey) case Some(i) => i case None => 0)
    && (forall r, c :: 0 <= r < |nodes| && 0 <= c < |nodes| ==> s.matrix[r][c] == InitialCell(s.selfIndex, r, c))
    && (forall c, r :: 0 <= c < |nodes| && 0 <= r < |nodes| ==> s.messages[c][r] == None)
    && forall i :: 0 <= i < |nodes| ==> s.status[i] == NodeVoid
  }

  predicate Counts(x: Status) {
    x.DispatchReceived? || x.EchoReceived? || x.NodeSelf?
  }

  /** Counted cells among the first `n` of a column. */
  function ColumnCount(m: seq<seq<Status>>, i: nat, n: nat): nat
    requires n <= |m| && forall r :: 0 <= r < |m| ==> i < |m[r]|
  {
    if n == 0 then 0 else ColumnCount(m, i, n - 1) + (if Counts(m[n - 1][i]) then 1 else 0)
  }

  function RowCount(row: seq<Status>, n: nat): nat
    requires n <= |row|
  {
    if n == 0 then 0 else RowCount(row, n - 1) + (if Counts(row[n - 1]) then 1 else 0)
  }

  predicate ColumnDispatch(m: seq<seq<Status>>, i: nat, n: nat)
    requires n <= |m| && forall r :: 0 <= r < |m| ==> i < |m[r]|
  {
    exists r :: 0 <= r < n && m[r][i] == DispatchReceived
  }

  predicate RowDispatch(row: seq<Status>, n: nat)
    requires n <= |row|
  {
    exists c :: 0 <= c < n && row[c] == DispatchReceived
  }

  function AxisStatus(count: nat, dispatch: bool, required: nat): Status {
    if count >= required then (if dispatch then NodePassed else NodePending)
    else if dispatch then NodePending else NodeVoid
  }

  /** The status of node `i` recomputed from its column and its row. */
  function Recomputed(s: State, i: nat): Status
    requires Shaped(s) && i < |s.nodes|
  {
    var n := |s.nodes|;
    var required := SupermajorityCount(n);
    var columnDispatch := i == s.selfIndex || ColumnDispatch(s.matrix, i, n);
    var column := AxisStatus(ColumnCount(s.matrix, i, n), columnDispatch, required);
    var row := AxisStatus(RowCount(s.matrix[i], n), columnDispatch || RowDispatch(s.matrix[i], n), required);
    if column.NodePassed? && row.NodePassed? then NodePassed
    else if column.NodePending? || row.NodePending? then NodePending
    else NodeVoid
  }

  function Refresh(s: State, i: nat): State
    requires Shaped(s) && i < |s.nodes|
  {
    s.(status := s.status[i := Recomputed(s, i)])
  }

  /** Receipts are kept by receiver then sender, messages the other way round. */
  function SetCell(s: State, r: nat, c: nat, x: Status, m: Option<Message>): State
    requires Shaped(s) && r < |s.nodes| && c < |s.nodes|
  {
    s.(matrix := s.matrix[r := s.matrix[r][c := x]], messages := s.messages[c := s.messages[c][r := m]])
  }

  datatype Update = Update(valid: bool, sender: PubKey, receiver: PubKey, status: Status, message: Option<Message>)

  function MarkOf(u: Update): Status {
    if u.valid then u.status else Void
  }

  /** What a message is recorded as: dispatches by their sender at this node, an
      echo by the sender it echoes at the node that sent it. */
  function UpdateFor(selfKey: PubKey, valid: bool, m: Message): Option<Update> {
    match m
    case Dispatch(sender) => Some(Update(valid, sender, selfKey, DispatchReceived, Some(m)))
    case EchoReDispatch(sender) => Some(Update(valid, sender, selfKey, DispatchReceived, Some(m)))
    case EchoResponse(sender, echoed) => Some(Update(valid, echoed, sender, EchoReceived, Some(m)))
    case OtherMessage => None
  }

  /** Records one message and refreshes its sender and its receiver. */
  function Apply(s: State, u: Update): (t: State)
    requires Shaped(s)
    ensures Shaped(t) && t.nodes == s.nodes && t.selfIndex == s.selfIndex
  {
    var sender, receiver := Position(s.nodes, u.sender), Position(s.nodes, u.receiver);
    if sender.None? || receiver.None? then s
    else
      var marked := SetCell(s, receiver.value, sender.value, MarkOf(u), u.message);
      Refresh(Refresh(marked, sender.value), receiver.value)
  }

  function Run(s: State, us: seq<Update>): (t: State)
    requires Shaped(s)
    ensures Shaped(t) && t.nodes == s.nodes && t.selfIndex == s.selfIndex
    decreases |us|
  {
    if us == [] then s else Apply(Run(s, us[..|us| - 1]), us[|us| - 1])
  }

  /** Nodes an update refreshes. */
  function TouchedBy(nodes: seq<PubKey>, u: Update): set<nat> {
    var sender, receiver := Position(nodes, u.sender), Position(nodes, u.receiver);
    if sender.None? || receiver.None? then {} else {sender.value, receiver.value}
  }

  function Touched(nodes: seq<PubKey>, us: seq<Update>): set<nat>
    decreases |us|
  {
    if us == [] then {} else Touched(nodes, us[..|us| - 1]) + TouchedBy(nodes, us[|us| - 1])
  }

  function PassedCount(status: seq<Status>): (n: nat)
    ensures n <= |status|
  {
    if status == [] then 0
    else PassedCount(status[..|status| - 1]) + (if status[|status| - 1].NodePassed? then 1 else 0)
  }

  /** The verdict from the cached statuses. */
  predicate Verdict(s: State) {
    PassedCount(s.status) >= SupermajorityCount(|s.nodes|)
  }

  /** All statuses recomputed from the matrix. */
  function AllRecomputed(s: State, n: nat): (r: seq<Status>)
    requires Shaped(s) && n <= |s.nodes|
    ensures |r| == n && forall i :: 0 <= i < n ==> r[i] == Recomputed(s, i)
  {
    if n == 0 then [] else AllRecomputed(s, n - 1) + [Recomputed(s, n - 1)]
  }

  /** The verdict a full recomputation would give. */
  predicate FullVerdict(s: State)
    requires Shaped(s)
  {
    PassedCount(AllRecomputed(s, |s.nodes|)) >= SupermajorityCount(|s.nodes|)
  }

  /** Touched nodes are cached correctly; the row, column and cache of any other
      node are as they were at the start. */
  predicate Cached(s: State, touched: set<nat>)
    requires Shaped(s)
  {
    forall i: nat :: i < |s.nodes| ==>
      if i in touched then s.status[i] == Recomputed(s, i)
      else s.status[i] == NodeVoid && Untouched(s, i)
  }

  predicate Untouched(s: State, i: nat)
    requires Shaped(s) && i < |s.nodes|
  {
    forall j: nat :: j < |s.nodes| ==>
      s.matrix[i][j] == InitialCell(s.selfIndex, i, j) && s.matrix[j][i] == InitialCell(s.selfIndex, j, i)
  }

  /** Two states with the same row and column of a node give it one status. */
  lemma {:induction false} SameLinesSameStatus(s: State, t: State, i: nat)
    requires Shaped(s) && Shaped(t) && s.nodes == t.nodes && s.selfIndex == t.selfIndex && i < |s.nodes|
    requires s.matrix[i] == t.matrix[i] && forall r :: 0 <= r < |s.nodes| ==> s.matrix[r][i] == t.matrix[r][i]
    ensures Recomputed(s, i) == Recomputed(t, i)
  {
    SameColumn(s.matrix, t.matrix, i, |s.nodes|);
  }

  lemma {:induction false} SameColumn(a: seq<seq<Status>>, b: seq<seq<Status>>, i: nat, n: nat)
    requires n <= |a| && n <= |b|
    requires (forall r :: 0 <= r < |a| ==> i < |a[r]|) && (forall r :: 0 <= r < |b| ==> i < |b[r]|)
    requires forall r :: 0 <= r < n ==> a[r][i] == b[r][i]
    ensures ColumnCount(a, i, n) == ColumnCount(b, i, n)
    ensures ColumnDispatch(a, i, n) == ColumnDispatch(b, i, n)
  {
    if n > 0 {
      SameColumn(a, b, i, n - 1);
    }
  }

  /** Setting a cell leaves the lines of every node but its two alone. */
  lemma {:induction false} CellTouchesTwo(s: State, r: nat, c: nat, x: Status, m: Option<Message>, i: nat)
    requires Shaped(s) && r < |s.nodes| && c < |s.nodes| && i < |s.nodes| && i != r && i != c
    ensures Recomputed(SetCell(s, r, c, x, m), i) == Recomputed(s, i)
    ensures Untouched(s, i) ==> Untouched(SetCell(s, r, c, x, m), i)
  {
    SameLinesSameStatus(s, SetCell(s, r, c, x, m), i);
  }

  /** One update keeps the cache invariant. */
  lemma {:induction false} ApplyKeepsCached(s: State, u: Update, touched: set<nat>)
    requires Shaped(s) && Cached(s, touched)
    ensures Cached(Apply(s, u), touched + TouchedBy(s.nodes, u))
  {
    var sender, receiver := Position(s.nodes, u.sender), Position(s.nodes, u.receiver);
    if sender.None? || receiver.None? {
      assert touched + {} == touched;
    } else {
      var marked := SetCell(s, receiver.value, sender.value, MarkOf(u), u.message);
      var t := Apply(s, u);
      assert t.matrix == marked.matrix;
      forall i: nat | i < |s.nodes|
        ensures Recomputed(t, i) == Recomputed(marked, i)
        ensures i != sender.value && i != receiver.value ==>
                  Recomputed(marked, i) == Recomputed(s, i) && (Untouched(s, i) ==> Untouched(t, i))
      {
        SameLinesSameStatus(marked, t, i);
        SameLinesSameStatus(marked, Refresh(marked, sender.value), i);
        if i != sender.value && i != receiver.value {
          CellTouchesTwo(s, receiver.value, sender.value, MarkOf(u), u.message, i);
        }
      }
    }
  }

  /** After any updates every touched node is cached as recomputation would. */
  lemma {:induction false} RunKeepsCached(s: State, nodes: seq<PubKey>, selfKey: PubKey, us: seq<Update>)
    requires IsInitial(s, nodes, selfKey)
    ensures Cached(Run(s, us), Touched(nodes, us))
    decreases |us|
  {
    if us != [] {
      RunKeepsCached(s, nodes, selfKey, us[..|us| - 1]);
      ApplyKeepsCached(Run(s, us[..|us| - 1]), us[|us| - 1], Touched(nodes, us[..|us| - 1]));
    }
  }

  /** The update is recorded in this cell. */
  predicate Records(nodes: seq<PubKey>, u: Update, r: nat, c: nat) {
    Position(nodes, u.receiver) == Some(r) && Position(nodes, u.sender) == Some(c)
  }

  /** The last update recorded in a cell, if any. */
  function LastRecorded(nodes: seq<PubKey>, us: seq<Update>, r: nat, c: nat): Option<Update>
    decreases |us|
  {
    if us == [] then None
    else if Records(nodes, us[|us| - 1], r, c) then Some(us[|us| - 1])
    else LastRecorded(nodes, us[..|us| - 1], r, c)
  }

  /** After any updates a receipt and the message stored for it come from the same
      update, the last one recorded there; a cell without one is as at the start. */
  lemma {:induction false} LastUpdateDecides(s: State, nodes: seq<PubKey>, selfKey: PubKey, us: seq<Update>,
                                             r: nat, c: nat)
    requires IsInitial(s, nodes, selfKey) && r < |nodes| && c < |nodes|
    ensures var t := Run(s, us);
            match LastRecorded(nodes, us, r, c)
            case Some(u) => t.matrix[r][c] == MarkOf(u) && t.messages[c][r] == u.message
            case None => t.matrix[r][c] == InitialCell(s.selfIndex, r, c) && t.messages[c][r] == None
    decreases |us|
  {
    if us != [] {
      var n := |us| - 1;
      LastUpdateDecides(s, nodes, selfKey, us[..n], r, c);
      CellsAfter(Run(s, us[..n]), us[n], r, c);
    }
  }

  lemma {:induction false} CellsAfter(s: State, u: Update, r: nat, c: nat)
    requires Shaped(s) && r < |s.nodes| && c < |s.nodes|
    ensures var t := Apply(s, u);
            if Records(s.nodes, u, r, c) then t.matrix[r][c] == MarkOf(u) && t.messages[c][r] == u.message
            else t.matrix[r][c] == s.matrix[r][c] && t.messages[c][r] == s.messages[c][r]
  {
    hide Recomputed;
  }

  /** An initial column or row counts its own diagonal cell only. */
  lemma {:induction false} InitialLines(s: State, i: nat, n: nat)
    requires Shaped(s) && i < |s.nodes| && n <= |s.nodes| && Untouched(s, i)
    ensures ColumnCount(s.matrix, i, n) == (if i < n then 1 else 0)
    ensures RowCount(s.matrix[i], n) == (if i < n then 1 else 0)
  {
    if n > 0 {
      InitialLines(s, i, n - 1);
      assert s.matrix[n - 1][i] == InitialCell(s.selfIndex, n - 1, i);
      assert s.matrix[i][n - 1] == InitialCell(s.selfIndex, i, n - 1);
    }
  }

  /** An untouched node of a quorum of two or more would not be passed. */
  lemma {:induction false} UntouchedNotPassed(s: State, i: nat)
    requires Shaped(s) && i < |s.nodes| && Untouched(s, i) && |s.nodes| >= 2
    ensures !Recomputed(s, i).NodePassed?
  {
    InitialLines(s, i, |s.nodes|);
  }

  lemma {:induction false} SamePassedCount(a: seq<Status>, b: seq<Status>)
    requires |a| == |b| && forall i :: 0 <= i < |a| ==> a[i].NodePassed? == b[i].NodePassed?
    ensures PassedCount(a) == PassedCount(b)
  {
    if a != [] {
      SamePassedCount(a[..|a| - 1], b[..|b| - 1]);
    }
  }

  /** The cached verdict is the full one, except for a quorum of one before its
      first update: there recomputation already passes and the cache does not. */
  lemma {:induction false} VerdictIsFullVerdict(s: State, nodes: seq<PubKey>, selfKey: PubKey, us: seq<Update>)
    requires IsInitial(s, nodes, selfKey)
    ensures Verdict(Run(s, us)) == FullVerdict(Run(s, us))
       <==> !(|nodes| == 1 && Touched(nodes, us) == {})
  {
    var t := Run(s, us);
    RunKeepsCached(s, nodes, selfKey, us);
    if |nodes| == 1 && 0 !in Touched(nodes, us) {
      LoneNode(t, us);
      TouchedWithin(nodes, us);
    } else {
      forall i | 0 <= i < |nodes| ensures t.status[i].NodePassed? == AllRecomputed(t, |nodes|)[i].NodePassed? {
        if i !in Touched(nodes, us) {
          UntouchedNotPassed(t, i);
        }
      }
      SamePassedCount(t.status, AllRecomputed(t, |nodes|));
    }
  }

  lemma {:induction false} TouchedWithin(nodes: seq<PubKey>, us: seq<Update>)
    ensures forall i :: i in Touched(nodes, us) ==> i < |nodes|
    decreases |us|
  {
    if us != [] {
      TouchedWithin(nodes, us[..|us| - 1]);
    }
  }

  /** A single untouched node passes on recomputation and not in the cache. */
  lemma {:induction false} LoneNode(t: State, us: seq<Update>)
    requires Shaped(t) && |t.nodes| == 1 && t.selfIndex == 0 && t.status[0] == NodeVoid && Untouched(t, 0)
    ensures !Verdict(t) && FullVerdict(t)
  {
    InitialLines(t, 0, 1);
    assert t.status == [NodeVoid];
    assert AllRecomputed(t, 1) == [NodePassed];
    assert [NodeVoid][..0] == [] && [NodePassed][..0] == [];
  }
}
