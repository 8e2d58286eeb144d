/** The telemetry application's rows: `put_row` and `delete_row` of `rust-app/src/storage/table.rs`. */
module Telemetry {
  import opened Types
  import opened Instances
  import opened Storage
  import opened Codec
  import RustTableKeys
  import RowSets

  /** One column name and this row's value for it. */
  datatype Cell = Cell(column: Bytes, value: Value)

  function Columns(cells: seq<Cell>): seq<Bytes> {
    seq(|cells|, i requires 0 <= i < |cells| => cells[i].column)
  }

  ghost predicate AllKeys(columns: seq<Bytes>, inst: Instance) {
    forall i :: 0 <= i < |columns| ==> RustTableKeys.CellKeySpec(columns[i], inst).Key?
  }

  /** `put_many_raw`: every entry in one transaction. */
  function PutMany(data: Env, entries: seq<(Bytes, Bytes)>): Env {
    if entries == [] then data
    else PutMany(data, entries[..|entries| - 1])[entries[|entries| - 1].0 := entries[|entries| - 1].1]
  }

  lemma {:induction false} PutManyKeys(data: Env, entries: seq<(Bytes, Bytes)>, k: Bytes)
    ensures k in PutMany(data, entries) <==> k in data || exists i :: 0 <= i < |entries| && entries[i].0 == k
  {
    if entries != [] {
      var n := |entries| - 1;
      PutManyKeys(data, entries[..n], k);
      assert forall i :: 0 <= i < n ==> entries[..n][i] == entries[i];
    }
  }

  /** The row is complete or absent, as far as `columns` go. */
  ghost predicate AllOrNone(data: Env, columns: seq<Bytes>, inst: Instance)
    requires inst != []
  {
    || (forall i :: 0 <= i < |columns| ==> CellText(columns[i], inst) in data)
    || (forall i :: 0 <= i < |columns| ==> CellText(columns[i], inst) !in data)
  }

  ghost predicate Whole(data: Env, columns: seq<Bytes>) {
    forall inst: Instance :: inst != [] ==> AllOrNone(data, columns, inst)
  }

  /** `put_row`'s first loop: every key, or the first error. */
  method BuildEntries(inst: Instance, cells: seq<Cell>) returns (r: Option<seq<(Bytes, Bytes)>>)
    ensures r == if AllKeys(Columns(cells), inst) then Some(Entries(inst, cells)) else None
  {
    var encoded: seq<(Bytes, Bytes)> := [];
    var i := 0;
    while i < |cells|
      invariant i <= |cells|
      invariant forall j :: 0 <= j < i ==> RustTableKeys.CellKeySpec(cells[j].column, inst).Key?
      invariant encoded == Entries(inst, cells[..i])
    {
      var key := RustTableKeys.CellKey(cells[i].column, inst);
      assert Columns(cells)[i] == cells[i].column;
      if key.Err? {
        return None;
      }
      RustTableKeys.CellKeysAgree(cells[i].column, inst);
      encoded := encoded + [(key.key, Encode(cells[i].value))];
      i := i + 1;
    }
    assert cells[..i] == cells;
    return Some(encoded);
  }

  /** `CacheStore`. */
  class CacheStore {
    var data: Env

    constructor (data: Env)
      ensures this.data == data
    {
      this.data := data;
    }

    /** `put_row`: all keys are built before anything is written; `commit` is LMDB's verdict. */
    method PutRow(inst: Instance, cells: seq<Cell>, commit: bool) returns (ok: bool)
      modifies this
      ensures ok <==> AllKeys(Columns(cells), inst) && commit
      ensures data == if ok then PutMany(old(data), Entries(inst, cells)) else old(data)
      ensures ok ==> forall i :: 0 <= i < |cells| && LastFor(cells, i) ==> HoldsCell(data, inst, cells[i])
      ensures ok ==> forall k :: !RowKey(Columns(cells), inst, k) ==> SameAt(old(data), data, k)
      ensures !ok ==> data == old(data)
    {
      var encoded := BuildEntries(inst, cells);
      if encoded.None? || !commit {
        return false;
      }
      PutManyHolds(data, inst, cells);
      data := PutMany(data, encoded.value);
      return true;
    }

    /** `delete_row`: absent cells are not an error. */
    method DeleteRow(inst: Instance, columns: seq<Bytes>, commit: bool) returns (ok: bool)
      modifies this
      ensures ok <==> AllKeys(columns, inst) && commit
      ensures data == if ok then Deleted(old(data), columns, inst) else old(data)
      ensures ok ==> forall k :: if RowKey(columns, inst, k) then k !in data else SameAt(old(data), data, k)
      ensures !ok ==> data == old(data)
    {
      var keys: seq<Bytes> := [];
      var i := 0;
      while i < |columns|
        invariant i <= |columns| && |keys| == i && data == old(data)
        invariant forall j :: 0 <= j < i ==> RustTableKeys.CellKeySpec(columns[j], inst) == RustTableKeys.Key(keys[j])
      {
        var key := RustTableKeys.CellKey(columns[i], inst);
        if key.Err? {
          return false;
        }
        keys := keys + [key.key];
        i := i + 1;
      }
      if !commit {
        return false;
      }
      ghost var before := data;
      data := data - (set k | k in keys);
      assert data == Deleted(before, columns, inst) by {
        forall k: Bytes ensures k in keys <==> RowKey(columns, inst, k) {
          if k in keys {
            var j :| 0 <= j < |keys| && keys[j] == k;
            assert RustTableKeys.CellKeySpec(columns[j], inst).Key?;
          }
          if RowKey(columns, inst, k) {
            var j :| 0 <= j < |columns| && inst != [] && CellText(columns[j], inst) == k;
            assert keys[j] == k;
          }
        }
      }
      return true;
    }
  }

  function Entries(inst: Instance, cells: seq<Cell>): seq<(Bytes, Bytes)> {
    seq(|cells|, i requires 0 <= i < |cells| =>
      ((if inst == [] then [] else CellText(cells[i].column, inst)), Encode(cells[i].value)))
  }

  ghost predicate RowKey(columns: seq<Bytes>, inst: Instance, k: Bytes) {
    exists i :: 0 <= i < |columns| && inst != [] && CellText(columns[i], inst) == k
  }

  ghost function Deleted(data: Env, columns: seq<Bytes>, inst: Instance): Env {
    map k | k in data && !RowKey(columns, inst, k) :: data[k]
  }

  // ---- what is stored ------------------------------------------------------

  /** No later cell is for the same column. */
  ghost predicate LastFor(cells: seq<Cell>, i: nat)
    requires i < |cells|
  {
    forall j :: i < j < |cells| ==> cells[j].column != cells[i].column
  }

  ghost predicate HoldsCell(data: Env, inst: Instance, c: Cell) {
    && inst != []
    && CellText(c.column, inst) in data
    && data[CellText(c.column, inst)] == Encode(c.value)
  }

  ghost predicate SameAt(before: Env, after: Env, k: Bytes) {
    (k in after <==> k in before) && (k in before ==> after[k] == before[k])
  }

  /** The last entry for a key is what the key holds; other keys are as before. */
  lemma {:induction false} PutManyLookup(data: Env, entries: seq<(Bytes, Bytes)>, k: Bytes, i: int)
    requires -1 <= i < |entries| && (i >= 0 ==> entries[i].0 == k)
    requires forall j :: i < j < |entries| ==> entries[j].0 != k
    ensures i >= 0 ==> k in PutMany(data, entries) && PutMany(data, entries)[k] == entries[i].1
    ensures i < 0 ==> SameAt(data, PutMany(data, entries), k)
  {
    var n := |entries| - 1;
    if i < n {
      assert forall j :: 0 <= j < n ==> entries[..n][j] == entries[j];
      PutManyLookup(data, entries[..n], k, i);
    }
  }

  lemma PutManyHolds(data: Env, inst: Instance, cells: seq<Cell>)
    requires AllKeys(Columns(cells), inst)
    ensures forall i :: 0 <= i < |cells| && LastFor(cells, i) ==> HoldsCell(PutMany(data, Entries(inst, cells)), inst, cells[i])
    ensures forall k :: !RowKey(Columns(cells), inst, k) ==> SameAt(data, PutMany(data, Entries(inst, cells)), k)
  {
    var es := Entries(inst, cells);
    forall i | 0 <= i < |cells| && LastFor(cells, i) ensures HoldsCell(PutMany(data, es), inst, cells[i]) {
      KeyBuilt(cells, inst, i);
      forall j | i < j < |cells| ensures es[j].0 != es[i].0 {
        KeyBuilt(cells, inst, j);
        if es[j].0 == es[i].0 { CellTextInjective(cells[j].column, inst, cells[i].column, inst); }
      }
      PutManyLookup(data, es, es[i].0, i);
    }
    forall k | !RowKey(Columns(cells), inst, k) ensures SameAt(data, PutMany(data, es), k) {
      forall j | 0 <= j < |es| ensures es[j].0 != k {
        KeyBuilt(cells, inst, j);
        assert Columns(cells)[j] == cells[j].column;
      }
      PutManyLookup(data, es, k, -1);
    }
  }

  lemma KeyBuilt(cells: seq<Cell>, inst: Instance, i: nat)
    requires AllKeys(Columns(cells), inst) && i < |cells|
    ensures inst != [] && DotFree(cells[i].column) && Entries(inst, cells)[i].0 == CellText(cells[i].column, inst)
  {
    assert RustTableKeys.CellKeySpec(Columns(cells)[i], inst).Key?;
  }

  // ---- every committed snapshot is whole -----------------------------------

  lemma PutKeepsWhole(data: Env, inst: Instance, cells: seq<Cell>)
    requires Whole(data, Columns(cells)) && AllKeys(Columns(cells), inst) && inst != []
    ensures Whole(PutMany(data, Entries(inst, cells)), Columns(cells))
  {
    var columns, after := Columns(cells), PutMany(data, Entries(inst, cells));
    forall j: Instance | j != [] ensures AllOrNone(after, columns, j) {
      assert AllOrNone(data, columns, j);
      forall i | 0 <= i < |columns|
        ensures CellText(columns[i], j) in after <==> CellText(columns[i], j) in data || j == inst
      {
        PutManyKeys(data, Entries(inst, cells), CellText(columns[i], j));
        assert Entries(inst, cells)[i].0 == CellText(columns[i], inst);
        if e :| 0 <= e < |cells| && Entries(inst, cells)[e].0 == CellText(columns[i], j) {
          assert DotFree(columns[e]) && DotFree(columns[i]);
          CellTextInjective(columns[e], inst, columns[i], j);
        }
      }
    }
  }

  lemma DeleteKeepsWhole(data: Env, inst: Instance, columns: seq<Bytes>)
    requires Whole(data, columns) && AllKeys(columns, inst) && inst != []
    ensures Whole(Deleted(data, columns, inst), columns)
  {
    var after := Deleted(data, columns, inst);
    forall j: Instance | j != [] ensures AllOrNone(after, columns, j) {
      assert AllOrNone(data, columns, j);
      forall i | 0 <= i < |columns|
        ensures CellText(columns[i], j) in after <==> CellText(columns[i], j) in data && j != inst
      {
        if RowKey(columns, inst, CellText(columns[i], j)) {
          var e :| 0 <= e < |columns| && CellText(columns[e], inst) == CellText(columns[i], j);
          assert RustTableKeys.CellKeySpec(columns[e], inst).Key? && RustTableKeys.CellKeySpec(columns[i], inst).Key?;
          CellTextInjective(columns[e], inst, columns[i], j);
        }
      }
    }
  }

  datatype Op = Put(inst: Instance, values: seq<Value>) | Delete(dinst: Instance)

  function CellsOf(columns: seq<Bytes>, values: seq<Value>): seq<Cell>
    requires |values| == |columns|
  {
    seq(|columns|, i requires 0 <= i < |columns| => Cell(columns[i], values[i]))
  }

  /** One committed operation with the table's full column list; a refused key writes nothing. */
  ghost function Step(data: Env, columns: seq<Bytes>, op: Op): Env {
    match op
    case Put(inst, values) =>
      if |values| == |columns| && inst != [] && AllKeys(columns, inst)
      then PutMany(data, Entries(inst, CellsOf(columns, values))) else data
    case Delete(inst) =>
      if inst != [] && AllKeys(columns, inst) then Deleted(data, columns, inst) else data
  }

  ghost function Committed(data: Env, columns: seq<Bytes>, ops: seq<Op>): Env {
    if ops == [] then data else Step(Committed(data, columns, ops[..|ops| - 1]), columns, ops[|ops| - 1])
  }

  /** After any run of full-row writes and deletes, every row is complete or absent. */
  lemma {:induction false} SnapshotsWhole(data: Env, columns: seq<Bytes>, ops: seq<Op>)
    requires Whole(data, columns)
    ensures Whole(Committed(data, columns, ops), columns)
  {
    if ops != [] {
      var n := |ops| - 1;
      SnapshotsWhole(data, columns, ops[..n]);
      var before := Committed(data, columns, ops[..n]);
      match ops[n]
      case Put(inst, values) =>
        if |values| == |columns| && inst != [] && AllKeys(columns, inst) {
          assert Columns(CellsOf(columns, values)) == columns;
          PutKeepsWhole(before, inst, CellsOf(columns, values));
        }
      case Delete(inst) =>
        if inst != [] && AllKeys(columns, inst) { DeleteKeepsWhole(before, inst, columns); }
    }
  }

  /** The operation writes or deletes this row. */
  predicate IsOn(op: Op, inst: Instance) {
    match op
    case Put(i, _) => i == inst
    case Delete(i) => i == inst
  }

  ghost predicate Distinct(columns: seq<Bytes>) {
    forall i, j :: 0 <= i < j < |columns| ==> columns[i] != columns[j]
  }

  /** An operation leaves every cell of other rows alone. */
  lemma StepSparesOthers(data: Env, columns: seq<Bytes>, op: Op, inst: Instance, c: nat)
    requires c < |columns| && AllKeys(columns, inst) && !IsOn(op, inst)
    ensures inst != [] && SameAt(data, Step(data, columns, op), CellText(columns[c], inst))
  {
    assert RustTableKeys.CellKeySpec(columns[c], inst).Key?;
    var k := CellText(columns[c], inst);
    match op
    case Put(i, values) =>
      if |values| == |columns| && i != [] && AllKeys(columns, i) {
        var cells := CellsOf(columns, values);
        assert Columns(cells) == columns;
        OtherRowKey(columns, i, inst, c);
        PutManyHolds(data, i, cells);
      }
    case Delete(i) =>
      if i != [] && AllKeys(columns, i) { OtherRowKey(columns, i, inst, c); }
  }

  lemma OtherRowKey(columns: seq<Bytes>, i: Instance, inst: Instance, c: nat)
    requires c < |columns| && AllKeys(columns, inst) && AllKeys(columns, i) && i != inst && inst != [] && i != []
    ensures !RowKey(columns, i, CellText(columns[c], inst))
  {
    assert RustTableKeys.CellKeySpec(columns[c], inst).Key?;
    if e :| 0 <= e < |columns| && CellText(columns[e], i) == CellText(columns[c], inst) {
      assert RustTableKeys.CellKeySpec(columns[e], i).Key?;
      CellTextInjective(columns[e], i, columns[c], inst);
    }
  }

  /**
   * After any run a row reads as its last operation left it: every cell holds
   * the value put last, or is absent when the row was deleted last.
   */
  lemma {:induction false} LastOperationReads(data: Env, columns: seq<Bytes>, ops: seq<Op>, n: nat, inst: Instance, c: nat)
    requires n < |ops| && IsOn(ops[n], inst) && forall m :: n < m < |ops| ==> !IsOn(ops[m], inst)
    requires c < |columns| && Distinct(columns) && AllKeys(columns, inst)
    requires ops[n].Put? ==> |ops[n].values| == |columns|
    ensures inst != []
    ensures var k, after := CellText(columns[c], inst), Committed(data, columns, ops);
      match ops[n]
      case Put(_, values) => k in after && after[k] == Encode(values[c])
      case Delete(_) => k !in after
  {
    assert RustTableKeys.CellKeySpec(columns[c], inst).Key?;
    var last := |ops| - 1;
    if n < last {
      assert forall m :: 0 <= m < last ==> ops[..last][m] == ops[m];
      LastOperationReads(data, columns, ops[..last], n, inst, c);
      StepSparesOthers(Committed(data, columns, ops[..last]), columns, ops[last], inst, c);
    } else {
      LastStep(Committed(data, columns, ops[..last]), columns, ops[last], inst, c);
    }
  }

  lemma LastStep(data: Env, columns: seq<Bytes>, op: Op, inst: Instance, c: nat)
    requires IsOn(op, inst) && c < |columns| && Distinct(columns) && AllKeys(columns, inst)
    requires op.Put? ==> |op.values| == |columns|
    ensures inst != []
    ensures var k, after := CellText(columns[c], inst), Step(data, columns, op);
      match op
      case Put(_, values) => k in after && after[k] == Encode(values[c])
      case Delete(_) => k !in after
  {
    assert RustTableKeys.CellKeySpec(columns[c], inst).Key?;
    match op
    case Put(_, values) =>
      var cells := CellsOf(columns, values);
      assert Columns(cells) == columns;
      PutManyHolds(data, inst, cells);
      assert LastFor(cells, c);
    case Delete(_) =>
      assert RowKey(columns, inst, CellText(columns[c], inst));
  }

  // ---- a load that reads each column at its own snapshot ---------------------

  /** The row is in the table at a snapshot. */
  ghost predicate Present(data: Env, columns: seq<Bytes>, inst: Instance) {
    ValidInstance(inst) && exists i :: 0 <= i < |columns| && CellText(columns[i], inst) in data
  }

  /** Column `j` is read after the first `times[j]` operations. */
  ghost predicate ReadAt(refs: seq<RowSets.ColumnRef>, data: Env, columns: seq<Bytes>, ops: seq<Op>, times: seq<nat>) {
    && |refs| == |columns| == |times|
    && (forall j :: 0 <= j < |times| ==> times[j] <= |ops|)
    && forall j :: 0 <= j < |refs| ==>
         refs[j].column == columns[j] && refs[j].snapshot.data == Committed(data, columns, ops[..times[j]])
  }

  /**
   * While the application keeps writing and deleting rows, a load reports a row
   * exactly when the row was present at one of the snapshots it read: so every
   * row present throughout, and only rows present at some point.
   */
  lemma ConcurrentLoad(
    rows: seq<Instance>, refs: seq<RowSets.ColumnRef>, data: Env, columns: seq<Bytes>, ops: seq<Op>, times: seq<nat>,
    inst: Instance)
    requires Whole(data, columns) && ReadAt(refs, data, columns, ops, times) && RowSets.IsRowSequence(rows, refs)
    ensures inst in rows <==> exists j :: 0 <= j < |times| && Present(Committed(data, columns, ops[..times[j]]), columns, inst)
  {
    if j :| 0 <= j < |times| && Present(Committed(data, columns, ops[..times[j]]), columns, inst) {
      SnapshotsWhole(data, columns, ops[..times[j]]);
      assert AllOrNone(Committed(data, columns, ops[..times[j]]), columns, inst);
      assert RowSets.HasCell(refs[j], inst);
    }
    if RowSets.HasRow(refs, inst) {
      var j :| 0 <= j < |refs| && RowSets.HasCell(refs[j], inst);
      assert Present(Committed(data, columns, ops[..times[j]]), columns, inst);
    }
  }
}
