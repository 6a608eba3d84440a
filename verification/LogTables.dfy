/**
 Ordered byte tables and the operations a transaction stages against them.

 `ApplyAll` is the committed effect of an operation list. The staged point read
 scans the list backwards and the staged scan replays it forwards; both are
 proved to see exactly that effect.
 */
module LogTables {
  import opened Wrappers

  type Byte = x: int | 0 <= x < 256
  type Bytes = seq<Byte>
  type Table = map<Bytes, Bytes>
  type Tables = map<string, Table>

  const MAX_TABLE_NAME_BYTES: nat := 128
  const MAX_KEY_BYTES: nat := 4 * 1024

  /** Lexicographic order on byte strings. */
  predicate Less(a: Bytes, b: Bytes) {
    b != [] && (a == [] || a[0] < b[0] || (a[0] == b[0] && Less(a[1..], b[1..])))
  }

  predicate InRange(key: Bytes, start: Bytes, end: Option<Bytes>) {
    !Less(key, start) && (end.None? || Less(key, end.value))
  }

  predicate ValidNameByte(c: char) {
    'a' <= c <= 'z' || 'A' <= c <= 'Z' || '0' <= c <= '9' || c == '_' || c == '-' || c == '.'
  }

  predicate ValidName(table: string) {
    1 <= |table| <= MAX_TABLE_NAME_BYTES && forall i :: 0 <= i < |table| ==> ValidNameByte(table[i])
  }

  predicate ValidKey(key: Bytes) {
    1 <= |key| <= MAX_KEY_BYTES
  }

  predicate ValidRange(table: string, start: Bytes, end: Option<Bytes>) {
    ValidName(table) && ValidKey(start) && (end.Some? ==> ValidKey(end.value) && Less(start, end.value))
  }

  datatype Op =
    | Insert(table: string, key: Bytes, value: Bytes)
    | Remove(table: string, key: Bytes)
    | RemoveRange(table: string, start: Bytes, end: Option<Bytes>)
    | Clear(table: string)

  /** What staging lets into an operation list. */
  predicate StageableOp(op: Op, maxValueBytes: nat) {
    match op
    case Insert(t, k, v) => ValidName(t) && ValidKey(k) && |v| <= maxValueBytes
    case Remove(t, k) => ValidName(t) && ValidKey(k)
    case RemoveRange(t, s, e) => ValidRange(t, s, e)
    case Clear(t) => ValidName(t)
  }

  /** What recovery demands of a logged operation; range order is not rechecked. */
  predicate RecoverableOp(op: Op, maxValueBytes: nat) {
    match op
    case Insert(t, k, v) => ValidName(t) && ValidKey(k) && |v| <= maxValueBytes
    case Remove(t, k) => ValidName(t) && ValidKey(k)
    case RemoveRange(t, s, e) => ValidName(t) && ValidKey(s) && (e.Some? ==> ValidKey(e.value))
    case Clear(t) => ValidName(t)
  }

  /** The named table, empty when the store has no such table. */
  function TableOf(tables: Tables, name: string): Table {
    if name in tables then tables[name] else map[]
  }

  function Lookup(tables: Tables, name: string, key: Bytes): Option<Bytes> {
    if key in TableOf(tables, name) then Some(TableOf(tables, name)[key]) else None
  }

  /** Committed effect of one operation. Removing keeps an emptied table,
      clearing drops the table itself. */
  function Apply(tables: Tables, op: Op): Tables {
    match op
    case Insert(t, k, v) => tables[t := TableOf(tables, t)[k := v]]
    case Remove(t, k) => if t in tables then tables[t := tables[t] - {k}] else tables
    case RemoveRange(t, s, e) =>
      if t in tables
      then tables[t := map k | k in tables[t] && !InRange(k, s, e) :: tables[t][k]]
      else tables
    case Clear(t) => tables - {t}
  }

  /** Committed effect of an operation list, in program order. */
  function ApplyAll(tables: Tables, ops: seq<Op>): Tables {
    if ops == [] then tables
    else Apply(ApplyAll(tables, ops[..|ops| - 1]), ops[|ops| - 1])
  }

  lemma {:induction false} ApplyAllSplit(tables: Tables, a: seq<Op>, b: seq<Op>)
    ensures ApplyAll(tables, a + b) == ApplyAll(ApplyAll(tables, a), b)
  {
    if b == [] {
      assert a + b == a;
    } else {
      var init, last := b[..|b| - 1], b[|b| - 1];
      ApplyAllSplit(tables, a, init);
      assert (a + b)[..|a + b| - 1] == a + init;
    }
  }

  /** The keys an operation decides: what it leaves there, if it decides. */
  function Decides(op: Op, name: string, key: Bytes): (r: Option<Option<Bytes>>)
    ensures forall tables: Tables ::
      Lookup(Apply(tables, op), name, key)
      == match r case Some(v) => v case None => Lookup(tables, name, key)
  {
    match op
    case Insert(t, k, v) => if t == name && k == key then Some(Some(v)) else None
    case Remove(t, k) => if t == name && k == key then Some(None) else None
    case RemoveRange(t, s, e) => if t == name && InRange(key, s, e) then Some(None) else None
    case Clear(t) => if t == name then Some(None) else None
  }

  /** Removes every key of a range one by one. */
  method RemoveKeysInRange(entries: Table, start: Bytes, end: Option<Bytes>) returns (r: Table)
    ensures r == map k | k in entries && !InRange(k, start, end) :: entries[k]
  {
    var keys := set k | k in entries && InRange(k, start, end);
    r := entries;
    ghost var all := keys;
    while keys != {}
      invariant keys <= all
      invariant r == map k | k in entries && k !in all - keys :: entries[k]
      decreases keys
    {
      var k :| k in keys;
      r := r - {k};
      keys := keys - {k};
    }
  }

  /** Applies a logged operation list to the materialized tables. */
  method ApplyOperations(tables: Tables, ops: seq<Op>) returns (r: Tables)
    ensures r == ApplyAll(tables, ops)
  {
    r := tables;
    for i := 0 to |ops|
      invariant r == ApplyAll(tables, ops[..i])
    {
      assert ops[..i + 1][..i] == ops[..i];
      match ops[i] {
        case Insert(t, k, v) =>
          if t !in r {
            r := r[t := map[]];
          }
          r := r[t := r[t][k := v]];
        case Remove(t, k) =>
          if t in r {
            r := r[t := r[t] - {k}];
          }
        case RemoveRange(t, s, e) =>
          if t in r {
            var kept := RemoveKeysInRange(r[t], s, e);
            r := r[t := kept];
          }
        case Clear(t) =>
          r := r - {t};
      }
    }
    assert ops[..|ops|] == ops;
  }

  /** Effect of one operation on the copy of one table a staged scan keeps. */
  function ApplyToTable(entries: Table, name: string, op: Op): Table {
    match op
    case Insert(t, k, v) => if t == name then entries[k := v] else entries
    case Remove(t, k) => if t == name then entries - {k} else entries
    case RemoveRange(t, s, e) =>
      if t == name then map k | k in entries && !InRange(k, s, e) :: entries[k] else entries
    case Clear(t) => if t == name then map[] else entries
  }

  /** Replaying one table alone gives that table of the full replay. */
  lemma {:induction false} ApplyToTableAgrees(tables: Tables, name: string, op: Op)
    ensures TableOf(Apply(tables, op), name) == ApplyToTable(TableOf(tables, name), name, op)
  {
  }

  /** Entries in strictly increasing key order. */
  ghost predicate InKeyOrder(entries: seq<(Bytes, Bytes)>) {
    forall i, j :: 0 <= i < j < |entries| ==> Less(entries[i].0, entries[j].0)
  }

  /** `entries` lists the table, each entry once, in key order. */
  ghost predicate IsScanOf(entries: seq<(Bytes, Bytes)>, t: Table) {
    && InKeyOrder(entries)
    && (forall i :: 0 <= i < |entries| ==> entries[i].0 in t && t[entries[i].0] == entries[i].1)
    && (forall k :: k in t ==> (k, t[k]) in entries)
  }

  lemma {:induction false} LessIrreflexive(a: Bytes)
    ensures !Less(a, a)
  {
    if a != [] {
      LessIrreflexive(a[1..]);
    }
  }

  lemma {:induction false} LessTransitive(a: Bytes, b: Bytes, c: Bytes)
    requires Less(a, b) && Less(b, c)
    ensures Less(a, c)
  {
    if a != [] && a[0] == b[0] && b[0] == c[0] {
      LessTransitive(a[1..], b[1..], c[1..]);
    }
  }

  lemma {:induction false} LessTotal(a: Bytes, b: Bytes)
    ensures a == b || Less(a, b) || Less(b, a)
  {
    if a != [] && b != [] && a[0] == b[0] {
      LessTotal(a[1..], b[1..]);
      assert a == [a[0]] + a[1..] && b == [b[0]] + b[1..];
    }
  }

  /** Smallest key of a non-empty key set. */
  method LeastKey(keys: set<Bytes>) returns (least: Bytes)
    requires keys != {}
    ensures least in keys
    ensures forall k :: k in keys && k != least ==> Less(least, k)
  {
    least :| least in keys;
    var rest := keys - {least};
    while rest != {}
      invariant rest <= keys && least in keys
      invariant forall k :: k in keys - rest && k != least ==> Less(least, k)
      decreases rest
    {
      var k :| k in rest;
      LessTotal(least, k);
      if Less(k, least) {
        forall x | x in keys - rest && x != least
          ensures Less(k, x)
        {
          LessTransitive(k, least, x);
        }
        least := k;
      }
      rest := rest - {k};
    }
  }

  /** Iterates a table in key order. */
  method ScanTable(t: Table) returns (entries: seq<(Bytes, Bytes)>)
    ensures IsScanOf(entries, t)
  {
    entries := [];
    var rest := t.Keys;
    while rest != {}
      invariant rest <= t.Keys
      invariant InKeyOrder(entries)
      invariant forall i :: 0 <= i < |entries| ==>
        entries[i].0 in t && entries[i].0 !in rest && t[entries[i].0] == entries[i].1
      invariant forall k :: k in t && k !in rest ==> (k, t[k]) in entries
      invariant forall i, k :: 0 <= i < |entries| && k in rest ==> Less(entries[i].0, k)
      decreases rest
    {
      var k := LeastKey(rest);
      entries := entries + [(k, t[k])];
      rest := rest - {k};
    }
  }

  /** A table has only one scan. */
  lemma {:induction false} ScanUnique(a: seq<(Bytes, Bytes)>, b: seq<(Bytes, Bytes)>, t: Table)
    requires IsScanOf(a, t) && IsScanOf(b, t)
    ensures a == b
  {
    if a == [] {
      assert forall k :: k in t ==> (k, t[k]) in a;
      assert t == map[];
    } else {
      assert (a[0].0, t[a[0].0]) in b;
      SameHead(a, b, t);
      ScanTail(a, t);
      ScanTail(b, t);
      ScanUnique(a[1..], b[1..], t - {a[0].0});
      assert a == [a[0]] + a[1..] && b == [b[0]] + b[1..];
    }
  }

  lemma {:induction false} SameHead(a: seq<(Bytes, Bytes)>, b: seq<(Bytes, Bytes)>, t: Table)
    requires IsScanOf(a, t) && IsScanOf(b, t) && a != [] && b != []
    ensures a[0] == b[0]
  {
    AtHead(a, t, b[0].0);
    AtHead(b, t, a[0].0);
    if a[0].0 != b[0].0 {
      LessTransitive(a[0].0, b[0].0, a[0].0);
      LessIrreflexive(a[0].0);
    }
  }

  lemma {:induction false} AtHead(a: seq<(Bytes, Bytes)>, t: Table, k: Bytes)
    requires IsScanOf(a, t) && a != [] && k in t
    ensures k == a[0].0 || Less(a[0].0, k)
  {
    var i :| 0 <= i < |a| && a[i] == (k, t[k]);
  }

  lemma {:induction false} ScanTail(a: seq<(Bytes, Bytes)>, t: Table)
    requires IsScanOf(a, t) && a != []
    ensures IsScanOf(a[1..], t - {a[0].0})
  {
    LessIrreflexive(a[0].0);
    forall k | k in t - {a[0].0}
      ensures (k, t[k]) in a[1..]
    {
      var i :| 0 <= i < |a| && a[i] == (k, t[k]);
      assert a[1..][i - 1] == (k, t[k]);
    }
  }
}
