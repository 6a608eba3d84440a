/**
 The staged view of a write transaction: a base snapshot and the operations
 staged so far. Reads see the operations in program order; nothing reaches the
 base before the group is durable.
 */
module LogTransaction {
  import opened Wrappers
  import opened LogTables

  class Transaction {
    const base: Tables
    const maxValueBytes: nat
    var operations: seq<Op>

    constructor (base: Tables, maxValueBytes: nat)
      ensures this.base == base && this.maxValueBytes == maxValueBytes
      ensures operations == [] && Valid()
    {
      this.base := base;
      this.maxValueBytes := maxValueBytes;
      operations := [];
    }

    ghost predicate Valid()
      reads this
    {
      forall i :: 0 <= i < |operations| ==> StageableOp(operations[i], maxValueBytes)
    }

    /** The tables this transaction will commit. */
    ghost function View(): Tables
      reads this
    {
      ApplyAll(base, operations)
    }

    /** Newest staged operation first, then the base. */
    method Get(table: string, key: Bytes) returns (r: Result<Option<Bytes>>)
      ensures r == if ValidName(table) && ValidKey(key) then Ok(Lookup(View(), table, key)) else Err
    {
      if !ValidName(table) || !ValidKey(key) {
        return Err;
      }
      var i := |operations|;
      assert operations[..i] == operations;
      while i > 0
        invariant 0 <= i <= |operations|
        invariant Lookup(ApplyAll(base, operations[..i]), table, key) == Lookup(View(), table, key)
      {
        i := i - 1;
        assert operations[..i + 1][..i] == operations[..i];
        var decided := Decides(operations[i], table, key);
        if decided.Some? {
          return Ok(decided.value);
        }
      }
      return Ok(Lookup(base, table, key));
    }

    /** Replays the staged operations over a copy of one table. */
    method Scan(table: string) returns (r: Result<seq<(Bytes, Bytes)>>)
      ensures r.Ok? <==> ValidName(table)
      ensures r.Ok? ==> IsScanOf(r.value, TableOf(View(), table))
    {
      if !ValidName(table) {
        return Err;
      }
      var materialized := TableOf(base, table);
      for i := 0 to |operations|
        invariant materialized == TableOf(ApplyAll(base, operations[..i]), table)
      {
        assert operations[..i + 1][..i] == operations[..i];
        ApplyToTableAgrees(ApplyAll(base, operations[..i]), table, operations[i]);
        materialized := ApplyToTable(materialized, table, operations[i]);
      }
      assert operations[..|operations|] == operations;
      var entries := ScanTable(materialized);
      return Ok(entries);
    }

    /** Staged entries with keys in `[start, end)`. */
    method ScanRange(table: string, start: Bytes, end: Option<Bytes>)
      returns (r: Result<seq<(Bytes, Bytes)>>)
      ensures r.Ok? <==> ValidRange(table, start, end)
      ensures r.Ok? ==>
        IsScanOf(r.value, map k | k in TableOf(View(), table) && InRange(k, start, end)
                                :: TableOf(View(), table)[k])
    {
      if !ValidRange(table, start, end) {
        return Err;
      }
      var all := Scan(table);
      var kept: seq<(Bytes, Bytes)> := [];
      for i := 0 to |all.value|
        invariant InKeyOrder(kept)
        invariant forall j :: 0 <= j < |kept| ==>
          kept[j] in all.value[..i] && InRange(kept[j].0, start, end)
        invariant forall e :: e in all.value[..i] && InRange(e.0, start, end) ==> e in kept
      {
        if InRange(all.value[i].0, start, end) {
          kept := kept + [all.value[i]];
        }
      }
      return Ok(kept);
    }

    /** Appends one operation if it passes the staging checks. */
    method Stage(op: Op) returns (ok: bool)
      requires Valid()
      modifies this
      ensures Valid()
      ensures ok == StageableOp(op, maxValueBytes)
      ensures operations == if ok then old(operations) + [op] else old(operations)
      ensures View() == if ok then Apply(old(View()), op) else old(View())
    {
      ok := StageableOp(op, maxValueBytes);
      if ok {
        operations := operations + [op];
        assert operations[..|operations| - 1] == old(operations);
      }
    }
  }
}
