/**
 The message matrix as the object the node keeps, updated cell by cell. Every
 method does to its fields what `MessageMatrix` specifies.
 */
module QuorumRegister {
  import opened Wrappers
  import opened QuorumSelection
  import Spec = MessageMatrix
  import opened MessageMatrix
  import opened Supermajority

  class Matrix {
    const nodes: seq<PubKey>
    const selfKey: PubKey
    const selfIndex: nat
    var matrix: seq<seq<Status>>
    var messages: seq<seq<Option<Message>>>
    var status: seq<Status>

    ghost function View(): State
      reads this
    {
      State(nodes, selfKey, selfIndex, matrix, messages, status)
    }

    ghost predicate Valid()
      reads this
    {
      Shaped(View())
    }

    constructor (quorum: seq<PubKey>, selfKey: PubKey)
      ensures Valid() && IsInitial(View(), quorum, selfKey)
    {
      var found := Position(quorum, selfKey);
      var index := if found.Some? then found.value else 0;
      var rows: seq<seq<Status>> := [];
      var stored: seq<seq<Option<Message>>> := [];
      var cached: seq<Status> := [];
      for r := 0 to |quorum|
        invariant |rows| == r && |stored| == r && |cached| == r
        invariant forall i :: 0 <= i < r ==> |stored[i]| == |quorum|
        invariant forall i, j :: 0 <= i < r && 0 <= j < |quorum| ==> stored[i][j] == None
        invariant forall i :: 0 <= i < r ==> |rows[i]| == |quorum| && cached[i] == NodeVoid
        invariant forall i, j :: 0 <= i < r && 0 <= j < |quorum| ==> rows[i][j] == InitialCell(index, i, j)
      {
        var row: seq<Status> := [];
        for c := 0 to |quorum|
          invariant |row| == c && forall j :: 0 <= j < c ==> row[j] == InitialCell(index, r, j)
        {
          if c == r {
            row := row + [NodeSelf];
          } else if r == index {
            row := row + [DispatchVoid];
          } else {
            row := row + [EchoVoid];
          }
        }
        rows := rows + [row];
        stored := stored + [seq(|quorum|, _ => None)];
        cached := cached + [NodeVoid];
      }
      nodes := quorum;
      this.selfKey := selfKey;
      selfIndex := index;
      matrix := rows;
      messages := stored;
      status := cached;
    }

    /** Recomputes one node by scanning its column, then its row. */
    method RefreshNode(i: nat)
      requires Valid() && i < |nodes|
      modifies `status
      ensures Valid() && View() == Refresh(old(View()), i)
    {
      var required := SupermajorityCount(|nodes|);
      var dispatch := false;
      var columnCount := 0;
      for r := 0 to |matrix|
        invariant columnCount == ColumnCount(matrix, i, r)
        invariant dispatch == ((i == selfIndex && selfIndex < r) || ColumnDispatch(matrix, i, r))
      {
        if r == selfIndex && i == selfIndex {
          dispatch := true;
        }
        match matrix[r][i] {
          case DispatchReceived =>
            dispatch := true;
            columnCount := columnCount + 1;
          case EchoReceived => columnCount := columnCount + 1;
          case NodeSelf => columnCount := columnCount + 1;
          case _ =>
        }
      }
      var column := AxisStatus(columnCount, dispatch, required);
      ghost var columnDispatch := dispatch;
      var rowCount := 0;
      for c := 0 to |matrix[i]|
        invariant rowCount == RowCount(matrix[i], c)
        invariant dispatch == (columnDispatch || RowDispatch(matrix[i], c))
      {
        match matrix[i][c] {
          case DispatchReceived =>
            dispatch := true;
            rowCount := rowCount + 1;
          case EchoReceived => rowCount := rowCount + 1;
          case NodeSelf => rowCount := rowCount + 1;
          case _ =>
        }
      }
      var row := AxisStatus(rowCount, dispatch, required);
      var next := if column.NodePassed? && row.NodePassed? then NodePassed
                  else if column.NodePending? || row.NodePending? then NodePending
                  else NodeVoid;
      status := status[i := next];
    }

    /** Counts the nodes cached as passed. */
    method Passed() returns (verdict: bool)
      requires Valid()
      ensures verdict == Verdict(View())
    {
      var count := 0;
      for i := 0 to |status|
        invariant count == PassedCount(status[..i])
      {
        assert status[..i + 1][..i] == status[..i];
        if status[i].NodePassed? {
          count := count + 1;
        }
      }
      assert status[..|status|] == status;
      return count >= SupermajorityCount(|nodes|);
    }

    /** Records one message; unknown keys change nothing and report false. */
    method UpdateCell(u: Update) returns (verdict: bool)
      requires Valid()
      modifies this
      ensures Valid() && View() == Spec.Apply(old(View()), u)
      ensures verdict == (TouchedBy(nodes, u) != {} && Verdict(View()))
    {
      var sender := Position(nodes, u.sender);
      if sender.None? {
        return false;
      }
      var receiver := Position(nodes, u.receiver);
      if receiver.None? {
        return false;
      }
      assert sender.value in TouchedBy(nodes, u);
      matrix := matrix[receiver.value := matrix[receiver.value][sender.value := MarkOf(u)]];
      messages := messages[sender.value := messages[sender.value][receiver.value := u.message]];
      assert View() == SetCell(old(View()), receiver.value, sender.value, MarkOf(u), u.message);
      RefreshNode(sender.value);
      RefreshNode(receiver.value);
      verdict := Passed();
    }

    /** Takes one message; kinds the matrix does not track report false. */
    method Update(valid: bool, message: Message) returns (verdict: bool)
      requires Valid()
      modifies this
      ensures Valid()
      ensures match UpdateFor(selfKey, valid, message)
              case Some(u) => View() == Spec.Apply(old(View()), u)
                              && verdict == (TouchedBy(nodes, u) != {} && Verdict(View()))
              case None => View() == old(View()) && !verdict
    {
      match message {
        case Dispatch(sender) =>
          verdict := UpdateCell(Spec.Update(valid, sender, selfKey, DispatchReceived, Some(message)));
        case EchoReDispatch(sender) =>
          verdict := UpdateCell(Spec.Update(valid, sender, selfKey, DispatchReceived, Some(message)));
        case EchoResponse(sender, echoed) =>
          verdict := UpdateCell(Spec.Update(valid, echoed, sender, EchoReceived, Some(message)));
        case OtherMessage =>
          verdict := false;
      }
    }
  }
}
