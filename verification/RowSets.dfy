/** `src/table_rows.c`, second half: the growable row set and its load. */
module RowSets {
  import opened Types
  import opened Instances
  import opened Storage
  import opened TableKeys
  import Lex

  /** `table_column_ref_t`: a column and the snapshot its environment is read at. */
  datatype ColumnRef = ColumnRef(snapshot: Snapshot, column: Bytes)

  /** The simple specification of a row: some cell of it is present. */
  ghost predicate HasCell(c: ColumnRef, inst: Instance) {
    ValidInstance(inst) && CellText(c.column, inst) in c.snapshot.data
  }

  ghost predicate HasRow(columns: seq<ColumnRef>, inst: Instance) {
    exists i :: 0 <= i < |columns| && HasCell(columns[i], inst)
  }

  /** The rows of a table as a sequence: ascending, no duplicates, exactly the present ones. */
  ghost predicate IsRowSequence(rows: seq<Instance>, columns: seq<ColumnRef>) {
    Lex.Ascending(rows) && forall inst: Instance :: inst in rows <==> HasRow(columns, inst)
  }

  ghost predicate ValidColumns(columns: seq<ColumnRef>) {
    forall i :: 0 <= i < |columns| ==> columns[i].snapshot.Valid()
  }

  // ---- one column ------------------------------------------------------

  /** The rows parsed out of scanned keys, in scan order. */
  function ParsedRows(found: seq<Bytes>, column: Bytes): seq<Instance> {
    if found == [] then []
    else
      var r := Capped(InstanceUnder(column, found[0]));
      (if r.Some? then [r.value] else []) + ParsedRows(found[1..], column)
  }

  lemma {:induction false} ParsedRowsSnoc(found: seq<Bytes>, column: Bytes, key: Bytes)
    ensures ParsedRows(found + [key], column)
         == ParsedRows(found, column) + ParsedRows([key], column)
  {
    assert [key][1..] == [];
    if found != [] {
      assert (found + [key])[1..] == found[1..] + [key];
      ParsedRowsSnoc(found[1..], column, key);
    } else {
      assert found + [key] == [key];
    }
  }

  lemma AppendAssoc(a: seq<Instance>, b: seq<Instance>, c: seq<Instance>)
    ensures a + b + c == a + (b + c)
  {
  }

  lemma {:induction false} ParsedRowsElements(found: seq<Bytes>, column: Bytes, inst: Instance)
    ensures inst in ParsedRows(found, column) <==> ValidInstance(inst) && CellText(column, inst) in found
  {
    if found != [] {
      ParsedRowsElements(found[1..], column, inst);
      InstanceUnderIff(column, found[0], inst);
    }
  }

  lemma ScannedRows(c: ColumnRef, inst: Instance)
    requires c.snapshot.Valid()
    ensures inst in ParsedRows(Carriers(c.snapshot.keys, ColumnPrefix(c.column)), c.column) <==> HasCell(c, inst)
  {
    var found := Carriers(c.snapshot.keys, ColumnPrefix(c.column));
    ParsedRowsElements(found, c.column, inst);
    if ValidInstance(inst) {
      CarriersElements(c.snapshot.keys, ColumnPrefix(c.column), CellText(c.column, inst));
    }
  }

  // ---- all columns -----------------------------------------------------

  ghost function AllParsed(columns: seq<ColumnRef>): seq<Instance> {
    if columns == [] then []
    else
      var n := |columns| - 1;
      AllParsed(columns[..n])
      + ParsedRows(Carriers(columns[n].snapshot.keys, ColumnPrefix(columns[n].column)), columns[n].column)
  }

  ghost function Scanned(columns: seq<ColumnRef>): nat {
    if columns == [] then 0
    else
      var n := |columns| - 1;
      Scanned(columns[..n]) + |Carriers(columns[n].snapshot.keys, ColumnPrefix(columns[n].column))|
  }

  lemma {:induction false} AllParsedElements(columns: seq<ColumnRef>, inst: Instance)
    requires ValidColumns(columns)
    ensures inst in AllParsed(columns) <==> HasRow(columns, inst)
  {
    if columns != [] {
      var n := |columns| - 1;
      AllParsedElements(columns[..n], inst);
      ScannedRows(columns[n], inst);
      HasRowSnoc(columns, inst);
    }
  }

  lemma HasRowSnoc(columns: seq<ColumnRef>, inst: Instance)
    requires columns != []
    ensures var n := |columns| - 1; HasRow(columns, inst) <==> HasRow(columns[..n], inst) || HasCell(columns[n], inst)
  {
    var n := |columns| - 1;
    assert forall i :: 0 <= i < n ==> columns[..n][i] == columns[i];
  }

  /** `rowset_load_column`'s argument checks. */
  function ColumnRc(column: Bytes): Rc {
    if column == [] then Inval else if |column| + 1 > KEY_MAX then TooBig else Ok
  }

  /** Whether LMDB's answers from call `n` on are all successes. */
  ghost predicate NoFaults(faults: nat -> Option<Rc>) {
    forall n :: faults(n).None?
  }

  ghost predicate RealFaults(faults: nat -> Option<Rc>) {
    forall n :: faults(n).Some? ==> faults(n).value != Ok && faults(n).value != NotFound
  }

  /** `struct table_rowset`. */
  class RowSet {
    var rows: array<Instance>
    var count: nat
    var capacity: nat
    var skipped: nat

    ghost predicate Valid()
      reads this
    {
      rows.Length == capacity && count <= capacity
    }

    ghost function Contents(): seq<Instance>
      requires Valid()
      reads this, rows
    {
      rows[..count]
    }

    constructor ()
      ensures Valid() && fresh(rows) && Contents() == [] && skipped == 0
    {
      rows := new Instance[0];
      count, capacity, skipped := 0, 0, 0;
    }

    /** `rowset_push`: doubles the array when it is full. */
    method Push(inst: Instance)
      requires Valid()
      modifies this, rows
      ensures Valid() && (rows == old(rows) || fresh(rows))
      ensures Contents() == old(Contents()) + [inst]
      ensures skipped == old(skipped)
    {
      if count == capacity {
        var next := if capacity == 0 then 16 else capacity * 2;
        var grown := new Instance[next];
        forall i | 0 <= i < count { grown[i] := rows[i]; }
        rows := grown;
        capacity := next;
      }
      assert rows[..count] == old(rows[..count]);
      rows[count] := inst;
      count := count + 1;
    }

    /** One scanned key: push its row, or count it as skipped. */
    method TakeKey(column: Bytes, key: Bytes)
      requires Valid() && Lex.IsPrefix(ColumnPrefix(column), key)
      modifies this, rows
      ensures Valid() && (rows == old(rows) || fresh(rows))
      ensures Contents() == old(Contents()) + ParsedRows([key], column)
      ensures |Contents()| + skipped == |old(Contents())| + old(skipped) + 1
    {
      var inst := InstanceParse(key[|column| + 1..]);
      assert [key][1..] == [];
      if inst.None? {
        skipped := skipped + 1;
      } else {
        Push(inst.value);
      }
    }

    /**
     * `rowset_load_column`: scan, parse, push or count as skipped. `faults(n)`
     * is what LMDB makes of the n-th cursor call of the whole load.
     */
    method LoadColumn(c: ColumnRef, faults: nat -> Option<Rc>, first: nat) returns (rc: Rc, calls: nat)
      requires Valid() && c.snapshot.Valid() && RealFaults(faults)
      modifies this, rows
      ensures Valid() && (rows == old(rows) || fresh(rows))
      ensures ColumnRc(c.column) != Ok ==> rc == ColumnRc(c.column)
      ensures rc != Ok && ColumnRc(c.column) == Ok ==> exists n :: faults(n) == Some(rc)
      ensures rc == Ok ==>
                var found := Carriers(c.snapshot.keys, ColumnPrefix(c.column));
                && Contents() == old(Contents()) + ParsedRows(found, c.column)
                && |Contents()| + skipped == |old(Contents())| + old(skipped) + |found|
    {
      calls := first;
      if c.column == [] {
        return Inval, calls;
      }
      var prefix := c.column + [DOT];
      if |prefix| > KEY_MAX {
        return TooBig, calls;
      }
      var it := new Iter(c.snapshot, prefix);
      ghost var all := Carriers(c.snapshot.keys, prefix);
      ghost var done: seq<Bytes> := [];
      ghost var before, skippedBefore := Contents(), skipped;
      while true
        invariant Valid() && (rows == old(rows) || fresh(rows)) && fresh(it)
        invariant it.Valid() && !it.failed
        invariant done + it.Remaining() == all
        invariant Contents() == before + ParsedRows(done, c.column)
        invariant |Contents()| + skipped == |before| + skippedBefore + |done|
        decreases |it.Remaining()|
      {
        ghost var rest := it.Remaining();
        var key;
        rc, key := it.Next(faults(calls));
        calls := calls + 1;
        if rc == NotFound {
          assert done == all;
          return Ok, calls;
        }
        if rc != Ok {
          return;
        }
        ScanStep(done, rest, prefix, all, c, key);
        TakeKey(c.column, key);
        ParsedRowsSnoc(done, c.column, key);
        AppendAssoc(before, ParsedRows(done, c.column), ParsedRows([key], c.column));
        done := done + [key];
      }
    }

    /** The in-place compaction after the sort. */
    method Dedup()
      requires Valid() && Lex.NonDescending(Contents())
      modifies this`count, rows
      ensures Valid()
      ensures Lex.Ascending(Contents())
      ensures forall inst: Instance :: inst in Contents() <==> inst in old(Contents())
    {
      if count > 1 {
        ghost var sorted := Contents();
        var unique := 1;
        var i := 1;
        while i < count
          invariant Valid() && count == |sorted|
          invariant 1 <= unique <= i <= count
          invariant rows[i..count] == sorted[i..]
          invariant Lex.Ascending(rows[..unique])
          invariant rows[unique - 1] == sorted[i - 1]
          invariant SameElements(rows[..unique], sorted[..i])
        {
          assert rows[i] == rows[i..count][0] == sorted[i];
          var c := InstanceCompare(rows[i], rows[unique - 1]);
          DedupStep(rows[..unique], sorted, i);
          assert rows[i + 1..count] == rows[i..count][1..];
          if c != 0 {
            rows[unique] := rows[i];
            unique := unique + 1;
            assert rows[..unique] == rows[..unique - 1] + [sorted[i]];
          }
          i := i + 1;
        }
        assert sorted[..i] == sorted;
        count := unique;
      }
    }
  }

  ghost predicate SameElements(s: seq<Instance>, t: seq<Instance>) {
    forall inst: Instance :: inst in s <==> inst in t
  }

  /** One turn of the compaction, on values. */
  lemma DedupStep(kept: seq<Instance>, sorted: seq<Instance>, i: nat)
    requires 1 <= i < |sorted| && kept != [] && Lex.Ascending(kept) && Lex.NonDescending(sorted)
    requires kept[|kept| - 1] == sorted[i - 1] && SameElements(kept, sorted[..i])
    ensures sorted[i] == kept[|kept| - 1] ==> SameElements(kept, sorted[..i + 1])
    ensures sorted[i] != kept[|kept| - 1] ==>
              Lex.Ascending(kept + [sorted[i]]) && SameElements(kept + [sorted[i]], sorted[..i + 1])
  {
    var last, x := kept[|kept| - 1], sorted[i];
    assert sorted[..i + 1] == sorted[..i] + [x];
    if x != last {
      Lex.Trichotomy(last, x);
      forall j | 0 <= j < |kept| ensures Lex.Less(kept[j], x) {
        if j < |kept| - 1 { Lex.Transitive(kept[j], last, x); }
      }
    } else {
      assert last in kept;
    }
  }

  lemma ScanStep(done: seq<Bytes>, rest: seq<Bytes>, prefix: Bytes, all: seq<Bytes>, c: ColumnRef, key: Bytes)
    requires done + rest == all && rest != [] && key == rest[0]
    requires prefix == ColumnPrefix(c.column) && all == Carriers(c.snapshot.keys, prefix)
    ensures Lex.IsPrefix(prefix, key)
    ensures InstanceUnder(c.column, key) == ParseDotted(key[|prefix|..])
    ensures done + [key] + rest[1..] == all
  {
    assert all[|done|] == key;
    CarriersElements(c.snapshot.keys, prefix, key);
  }

  // ---- qsort, by its contract -------------------------------------------

  function Insert(x: Instance, s: seq<Instance>): seq<Instance> {
    if s == [] || !Lex.Less(s[0], x) then [x] + s else [s[0]] + Insert(x, s[1..])
  }

  function Sort(s: seq<Instance>): seq<Instance> {
    if s == [] then [] else Insert(s[0], Sort(s[1..]))
  }

  lemma {:induction false} InsertOrdered(x: Instance, s: seq<Instance>)
    requires Lex.NonDescending(s)
    ensures Lex.NonDescending(Insert(x, s)) && multiset(Insert(x, s)) == multiset(s) + multiset{x}
  {
    if s != [] {
      assert s == [s[0]] + s[1..];
      if Lex.Less(s[0], x) {
        InsertOrdered(x, s[1..]);
        NotBelowFirst(x, s, Insert(x, s[1..]));
      } else {
        forall i | 0 <= i < |s| ensures !Lex.Less(s[i], x) {
          if Lex.Less(s[i], x) { BelowFirst(s, i, x); }
        }
      }
    }
  }

  lemma NotBelowFirst(x: Instance, s: seq<Instance>, rest: seq<Instance>)
    requires s != [] && Lex.NonDescending(s) && Lex.Less(s[0], x)
    requires multiset(rest) == multiset(s[1..]) + multiset{x}
    ensures forall i :: 0 <= i < |rest| ==> !Lex.Less(rest[i], s[0])
  {
    if Lex.Less(x, s[0]) { Lex.Transitive(x, s[0], x); }
    Lex.Irreflexive(x);
    forall i | 0 <= i < |rest| ensures !Lex.Less(rest[i], s[0]) {
      assert rest[i] in multiset(rest);
      assert rest[i] == x || rest[i] in s[1..];
    }
  }

  lemma BelowFirst(s: seq<Instance>, i: nat, x: Instance)
    requires i < |s| && Lex.NonDescending(s) && Lex.Less(s[i], x)
    ensures Lex.Less(s[0], x)
  {
    if i > 0 {
      Lex.Trichotomy(s[0], s[i]);
      if s[0] != s[i] { Lex.Transitive(s[0], s[i], x); }
    }
  }

  lemma {:induction false} SortOrdered(s: seq<Instance>)
    ensures Lex.NonDescending(Sort(s)) && multiset(Sort(s)) == multiset(s)
  {
    if s != [] {
      SortOrdered(s[1..]);
      InsertOrdered(s[0], Sort(s[1..]));
      assert s == [s[0]] + s[1..];
    }
  }

  /** An ordered permutation is unique, so it does not matter which sort made it. */
  lemma {:induction false} OrderedUnique(s: seq<Instance>, t: seq<Instance>)
    requires Lex.NonDescending(s) && Lex.NonDescending(t) && multiset(s) == multiset(t)
    ensures s == t
  {
    assert |s| == |multiset(s)| == |multiset(t)| == |t|;
    if s != [] {
      LeastFirst(s, t);
      LeastFirst(t, s);
      Lex.Trichotomy(s[0], t[0]);
      RestMultiset(s);
      RestMultiset(t);
      OrderedUnique(s[1..], t[1..]);
      assert s == [s[0]] + s[1..] && t == [t[0]] + t[1..];
    }
  }

  lemma RestMultiset(s: seq<Instance>)
    requires s != []
    ensures multiset(s[1..]) == multiset(s) - multiset{s[0]}
  {
    assert s == [s[0]] + s[1..];
  }

  lemma LeastFirst(s: seq<Instance>, t: seq<Instance>)
    requires s != [] && t != [] && Lex.NonDescending(t) && multiset(s) == multiset(t)
    ensures !Lex.Less(s[0], t[0])
  {
    assert s[0] in multiset(s);
    assert s[0] in multiset(t);
    var i :| 0 <= i < |t| && t[i] == s[0];
    Lex.Irreflexive(s[0]);
  }

  /** `qsort`'s contract determines its result. */
  lemma SortIsAnySort(s: seq<Instance>, t: seq<Instance>)
    ensures t == Sort(s) <==> Lex.NonDescending(t) && multiset(t) == multiset(s)
  {
    SortOrdered(s);
    if Lex.NonDescending(t) && multiset(t) == multiset(s) { OrderedUnique(t, Sort(s)); }
  }

  /** `qsort` with `compare_instances`: an ordered permutation of the first `n` elements. */
  method Qsort(a: array<Instance>, n: nat)
    requires n <= a.Length
    modifies a
    ensures a[..n] == Sort(old(a[..n]))
  {
    var sorted := Sort(a[..n]);
    SortOrdered(a[..n]);
    assert |sorted| == |multiset(sorted)| == |multiset(a[..n])| == n;
    forall i | 0 <= i < n { a[i] := sorted[i]; }
  }

  lemma SortElements(s: seq<Instance>, inst: Instance)
    ensures inst in Sort(s) <==> inst in s
  {
    SortOrdered(s);
    assert inst in Sort(s) <==> inst in multiset(Sort(s));
    assert inst in s <==> inst in multiset(s);
  }

  // ---- the load ----------------------------------------------------------

  /** What `table_rowset_load` must say about its arguments. */
  function LoadRc(columns: seq<ColumnRef>): Rc {
    if columns == [] then Inval else FirstBad(columns)
  }

  function FirstBad(columns: seq<ColumnRef>): Rc {
    if columns == [] then Ok
    else if ColumnRc(columns[0].column) != Ok then ColumnRc(columns[0].column)
    else FirstBad(columns[1..])
  }

  /** The scan of every column in turn, up to the first error. */
  method LoadColumns(columns: seq<ColumnRef>, faults: nat -> Option<Rc>) returns (rc: Rc, rs: RowSet)
    requires ValidColumns(columns) && RealFaults(faults)
    ensures fresh(rs) && fresh(rs.rows) && rs.Valid()
    ensures rc == Ok ==> FirstBad(columns) == Ok
    ensures NoFaults(faults) ==> rc == FirstBad(columns)
    ensures rc == Ok ==> rs.Contents() == AllParsed(columns) && |rs.Contents()| + rs.skipped == Scanned(columns)
  {
    rs := new RowSet();
    var calls := 0;
    var i := 0;
    assert columns[0..] == columns;
    while i < |columns|
      invariant i <= |columns|
      invariant fresh(rs) && fresh(rs.rows) && rs.Valid()
      invariant rs.Contents() == AllParsed(columns[..i])
      invariant |rs.Contents()| + rs.skipped == Scanned(columns[..i])
      invariant FirstBad(columns) == FirstBad(columns[i..])
    {
      assert columns[..i + 1][..i] == columns[..i] && columns[i..][1..] == columns[i + 1..];
      rc, calls := rs.LoadColumn(columns[i], faults, calls);
      if rc != Ok {
        return;
      }
      i := i + 1;
    }
    assert columns[..i] == columns;
    return Ok, rs;
  }

  /**
   * `table_rowset_load`. A success is the whole, sorted, de-duplicated row set
   * whatever LMDB did; without LMDB errors only bad arguments fail.
   */
  method Load(columns: seq<ColumnRef>, faults: nat -> Option<Rc>) returns (rc: Rc, rs: RowSet)
    requires ValidColumns(columns) && RealFaults(faults)
    ensures rc == Ok ==> LoadRc(columns) == Ok
    ensures NoFaults(faults) ==> rc == LoadRc(columns)
    ensures fresh(rs) && fresh(rs.rows) && rs.Valid()
    ensures rc == Ok ==> IsRowSequence(rs.Contents(), columns)
    ensures rc == Ok ==> forall i, j :: 0 <= i < j < |rs.Contents()| ==> Lex.Precedes(rs.Contents()[i], rs.Contents()[j])
    ensures rc == Ok ==> |AllParsed(columns)| + rs.skipped == Scanned(columns)
  {
    if columns == [] {
      rs := new RowSet();
      return Inval, rs;
    }
    rc, rs := LoadColumns(columns, faults);
    if rc != Ok {
      return;
    }
    ghost var parsed := rs.Contents();
    Qsort(rs.rows, rs.count);
    SortOrdered(parsed);
    rs.Dedup();
    forall inst: Instance ensures inst in rs.Contents() <==> HasRow(columns, inst) {
      SortElements(parsed, inst);
      AllParsedElements(columns, inst);
    }
    Lex.AscendingIff(rs.Contents());
  }

  /** The specification determines the sequence, so equal presence means equal loads. */
  lemma RowSequenceUnique(s: seq<Instance>, t: seq<Instance>, cs: seq<ColumnRef>, ds: seq<ColumnRef>)
    requires IsRowSequence(s, cs) && IsRowSequence(t, ds)
    requires forall inst: Instance :: HasRow(cs, inst) <==> HasRow(ds, inst)
    ensures s == t
  {
    forall x: seq<int> ensures x in s <==> x in t {
      if x in s { var inst: Instance :| inst in s && inst == x; }
      if x in t { var inst: Instance :| inst in t && inst == x; }
    }
    Lex.AscendingUnique(s, t);
  }

  /**
   * In a store whose keys obey the 255-byte limit, an instance is enumerated
   * exactly when the key `table_cell_key` rebuilds for it is present under some
   * column: no enumerated row is a permanent hole.
   */
  lemma RowReachable(rows: seq<Instance>, columns: seq<ColumnRef>, inst: Instance)
    requires IsRowSequence(rows, columns)
    requires forall i :: 0 <= i < |columns| ==> columns[i].column != []
    requires forall i, k :: 0 <= i < |columns| && k in columns[i].snapshot.data ==> |k| <= KEY_MAX
    ensures inst in rows <==>
              exists i :: 0 <= i < |columns|
                && CellKeyRc(columns[i].column, inst, KEY_MAX + 1) == Ok
                && CellText(columns[i].column, inst) in columns[i].snapshot.data
  {
    if inst != [] { DottedLength(inst); }
    if HasRow(columns, inst) {
      var i :| 0 <= i < |columns| && HasCell(columns[i], inst);
      var k := CellText(columns[i].column, inst);
      assert k in columns[i].snapshot.data;
      assert |k| == |columns[i].column| + 1 + |Dotted(inst)|;
      assert CellKeyRc(columns[i].column, inst, KEY_MAX + 1) == Ok;
    }
    if i :| 0 <= i < |columns|
            && CellKeyRc(columns[i].column, inst, KEY_MAX + 1) == Ok
            && CellText(columns[i].column, inst) in columns[i].snapshot.data {
      assert HasCell(columns[i], inst);
    }
  }
}
