/** `rust-app/src/storage/table.rs`, row discovery: the Rust twin of the row set. */
module RustTable {
  import opened Types
  import opened Instances
  import opened Storage
  import opened Utf8
  import RowSets
  import Lex

  /** `instance_of`: strip the column, strip the dot, parse the rest. */
  function InstanceOf(column: Bytes, key: Bytes): Option<Instance> {
    if !Lex.IsPrefix(column, key) then None
    else
      var rest := key[|column|..];
      if rest == [] || rest[0] != DOT then None else ParseDotted(rest[1..])
  }

  lemma InstanceOfAgrees(column: Bytes, key: Bytes)
    ensures InstanceOf(column, key) == InstanceUnder(column, key)
  {
    if |column| < |key| {
      assert key[..|column| + 1] == key[..|column|] + [key[|column|]];
      assert key[..|column|] == key[..|column| + 1][..|column|];
      assert key[|column|..][1..] == key[|column| + 1..];
    }
  }

  /** The rows Rust sees: no limit on the number of sub-identifiers. */
  ghost predicate HasRustRow(data: Env, columns: seq<Bytes>, inst: Instance) {
    inst != [] && exists i :: 0 <= i < |columns| && CellText(columns[i], inst) in data
  }

  ghost predicate IsRustRows(rows: seq<Instance>, data: Env, columns: seq<Bytes>) {
    Lex.Ascending(rows) && forall inst: Instance :: inst in rows <==> HasRustRow(data, columns, inst)
  }

  /** `Vec::dedup` on a sorted vector. */
  function Unique(s: seq<Instance>): seq<Instance> {
    if |s| < 2 then s
    else if s[0] == s[1] then Unique(s[1..])
    else [s[0]] + Unique(s[1..])
  }

  lemma {:induction false} UniqueAscending(s: seq<Instance>)
    requires Lex.NonDescending(s)
    ensures Lex.Ascending(Unique(s)) && RowSets.SameElements(Unique(s), s)
  {
    if |s| >= 2 {
      UniqueAscending(s[1..]);
      var rest := Unique(s[1..]);
      assert s == [s[0]] + s[1..];
      if s[0] != s[1] {
        forall i | 0 <= i < |rest| ensures Lex.Less(s[0], rest[i]) {
          assert rest[i] in s[1..];
          var j :| 0 <= j < |s[1..]| && s[1..][j] == rest[i];
          Lex.Trichotomy(s[0], s[1]);
          Lex.Trichotomy(s[1], s[j + 1]);
          if s[1] != s[j + 1] { Lex.Transitive(s[0], s[1], s[j + 1]); }
        }
      }
    }
  }

  /** Every key under one of the columns is text: a key of the Rust side's database type. */
  ghost predicate Readable(data: Env, columns: seq<Bytes>) {
    forall i, k :: 0 <= i < |columns| && k in data && Lex.IsPrefix(ColumnPrefix(columns[i]), k) ==> IsText(k)
  }

  /** `keys_with_prefix`: one key that is not text makes the whole scan an error. */
  method KeysWithPrefix(snapshot: Snapshot, prefix: Bytes) returns (r: Option<seq<Bytes>>)
    requires snapshot.Valid()
    ensures r == if AllText(Carriers(snapshot.keys, prefix)) then Some(Carriers(snapshot.keys, prefix)) else None
  {
    var entries := Carriers(snapshot.keys, prefix);
    var i := 0;
    while i < |entries|
      invariant i <= |entries|
      invariant forall k :: 0 <= k < i ==> IsText(entries[k])
    {
      if !IsText(entries[i]) {
        return None;
      }
      i := i + 1;
    }
    return Some(entries);
  }

  /** The rows one column's keys name, in scan order. */
  function RowsIn(column: Bytes, keys: seq<Bytes>): seq<Instance> {
    if keys == [] then []
    else
      var n := |keys| - 1;
      RowsIn(column, keys[..n])
      + (if InstanceUnder(column, keys[n]).Some? then [InstanceUnder(column, keys[n]).value] else [])
  }

  lemma {:induction false} RowsInElements(column: Bytes, keys: seq<Bytes>, inst: Instance)
    ensures inst in RowsIn(column, keys) <==> inst != [] && CellText(column, inst) in keys
  {
    if keys != [] {
      var n := |keys| - 1;
      RowsInElements(column, keys[..n], inst);
      InstanceUnderIff(column, keys[n], inst);
      assert keys == keys[..n] + [keys[n]];
    }
  }

  /** `table_rows`' inner loop. */
  method PushRows(rows: seq<Instance>, column: Bytes, keys: seq<Bytes>) returns (r: seq<Instance>)
    ensures r == rows + RowsIn(column, keys)
  {
    r := rows;
    var j := 0;
    while j < |keys|
      invariant j <= |keys|
      invariant r == rows + RowsIn(column, keys[..j])
    {
      var found := InstanceOf(column, keys[j]);
      InstanceOfAgrees(column, keys[j]);
      assert keys[..j + 1][..j] == keys[..j];
      if found.Some? {
        r := r + [found.value];
      }
      j := j + 1;
    }
    assert keys[..j] == keys;
  }

  /** All columns' rows, before sorting. */
  function Collected(snapshot: Snapshot, columns: seq<Bytes>): seq<Instance> {
    if columns == [] then []
    else
      var n := |columns| - 1;
      Collected(snapshot, columns[..n]) + RowsIn(columns[n], Carriers(snapshot.keys, ColumnPrefix(columns[n])))
  }

  lemma {:induction false} CollectedElements(snapshot: Snapshot, columns: seq<Bytes>, inst: Instance)
    requires snapshot.Valid()
    ensures inst in Collected(snapshot, columns) <==> HasRustRow(snapshot.data, columns, inst)
  {
    if columns != [] {
      var n := |columns| - 1;
      CollectedElements(snapshot, columns[..n], inst);
      RowsInElements(columns[n], Carriers(snapshot.keys, ColumnPrefix(columns[n])), inst);
      assert columns[..n + 1] == columns;
      ColumnStep(snapshot, columns, n, inst);
    }
  }

  /**
   * `table_rows`, LMDB errors aside: for every column every prefixed key, then
   * sort and dedup. A key under a column that is not text makes it fail.
   */
  method TableRows(snapshot: Snapshot, columns: seq<Bytes>) returns (r: Option<seq<Instance>>)
    requires snapshot.Valid()
    ensures r.Some? <==> Readable(snapshot.data, columns)
    ensures r.Some? ==> IsRustRows(r.value, snapshot.data, columns)
    ensures r.Some? ==> forall i, j :: 0 <= i < j < |r.value| ==> Lex.Precedes(r.value[i], r.value[j])
  {
    var rows := [];
    var i := 0;
    while i < |columns|
      invariant i <= |columns|
      invariant Readable(snapshot.data, columns[..i])
      invariant rows == Collected(snapshot, columns[..i])
    {
      var keys := KeysWithPrefix(snapshot, columns[i] + [DOT]);
      ReadableStep(snapshot, columns, i);
      if keys.None? {
        return None;
      }
      rows := PushRows(rows, columns[i], keys.value);
      assert columns[..i + 1][..i] == columns[..i];
      i := i + 1;
    }
    assert columns[..i] == columns;
    UniqueSorted(rows);
    forall inst: Instance ensures inst in Unique(RowSets.Sort(rows)) <==> HasRustRow(snapshot.data, columns, inst) {
      RowSets.SortElements(rows, inst);
      CollectedElements(snapshot, columns, inst);
    }
    Lex.AscendingIff(Unique(RowSets.Sort(rows)));
    return Some(Unique(RowSets.Sort(rows)));
  }

  lemma UniqueSorted(rows: seq<Instance>)
    ensures Lex.Ascending(Unique(RowSets.Sort(rows)))
    ensures RowSets.SameElements(Unique(RowSets.Sort(rows)), RowSets.Sort(rows))
  {
    RowSets.SortOrdered(rows);
    UniqueAscending(RowSets.Sort(rows));
  }

  lemma ReadableStep(snapshot: Snapshot, columns: seq<Bytes>, i: nat)
    requires snapshot.Valid() && i < |columns| && Readable(snapshot.data, columns[..i])
    ensures Readable(snapshot.data, columns[..i + 1]) <==> AllText(Carriers(snapshot.keys, ColumnPrefix(columns[i])))
    ensures Readable(snapshot.data, columns) ==> Readable(snapshot.data, columns[..i + 1])
  {
    var found := Carriers(snapshot.keys, ColumnPrefix(columns[i]));
    var upTo := columns[..i + 1];
    assert upTo[i] == columns[i] && forall j :: 0 <= j < i ==> upTo[j] == columns[..i][j];
    forall k: Bytes ensures k in found <==> k in snapshot.data && Lex.IsPrefix(ColumnPrefix(columns[i]), k) {
      CarriersElements(snapshot.keys, ColumnPrefix(columns[i]), k);
    }
    if Readable(snapshot.data, upTo) {
      forall n | 0 <= n < |found| ensures IsText(found[n]) { assert found[n] in found; }
    }
    if AllText(found) {
      forall j, k | 0 <= j < |upTo| && k in snapshot.data && Lex.IsPrefix(ColumnPrefix(upTo[j]), k) ensures IsText(k) {
        if j == i {
          assert k in found;
        } else {
          assert columns[..i][j] == upTo[j];
        }
      }
    }
  }

  lemma ColumnStep(snapshot: Snapshot, columns: seq<Bytes>, i: nat, inst: Instance)
    requires snapshot.Valid() && i < |columns|
    ensures HasRustRow(snapshot.data, columns[..i + 1], inst) <==>
              || HasRustRow(snapshot.data, columns[..i], inst)
              || (inst != [] && CellText(columns[i], inst) in Carriers(snapshot.keys, ColumnPrefix(columns[i])))
  {
    var all := columns[..i + 1];
    assert all[..i] == columns[..i] && all[i] == columns[i];
    assert forall j :: 0 <= j < i ==> all[j] == columns[..i][j];
    if inst != [] {
      CarriersElements(snapshot.keys, ColumnPrefix(columns[i]), CellText(columns[i], inst));
    }
  }

  /** The C column references for the same columns of the same environment. */
  function Refs(snapshot: Snapshot, columns: seq<Bytes>): seq<RowSets.ColumnRef> {
    seq(|columns|, i requires 0 <= i < |columns| => RowSets.ColumnRef(snapshot, columns[i]))
  }

  /** The columns `table_rowset_load` accepts: at least one, each leaving room for its dot in a key. */
  predicate ColumnsAccepted(columns: seq<Bytes>) {
    columns != [] && forall i :: 0 <= i < |columns| ==> 1 <= |columns[i]| <= 254
  }

  lemma {:induction false} AcceptedIff(cs: seq<RowSets.ColumnRef>)
    ensures RowSets.FirstBad(cs) == Ok <==> forall i :: 0 <= i < |cs| ==> 1 <= |cs[i].column| <= KEY_MAX - 1
  {
    if cs != [] {
      AcceptedIff(cs[1..]);
      assert forall i :: 1 <= i < |cs| ==> cs[i] == cs[1..][i - 1];
    }
  }

  /**
   * The two row discoveries, LMDB errors aside, both succeed and return the same
   * sequence exactly when C accepts the columns, every key under a column is
   * text, and no present row has more than 128 sub-identifiers. `rc` and `c` are
   * what `RowSets.Load` returns, `r` what `TableRows` returns.
   */
  lemma RowsAgreeIff(rc: Rc, c: seq<Instance>, r: Option<seq<Instance>>, snapshot: Snapshot, columns: seq<Bytes>)
    requires rc == RowSets.LoadRc(Refs(snapshot, columns))
    requires rc == Ok ==> RowSets.IsRowSequence(c, Refs(snapshot, columns))
    requires r.Some? <==> Readable(snapshot.data, columns)
    requires r.Some? ==> IsRustRows(r.value, snapshot.data, columns)
    ensures rc == Ok && r == Some(c) <==>
              && ColumnsAccepted(columns)
              && Readable(snapshot.data, columns)
              && forall inst: Instance :: HasRustRow(snapshot.data, columns, inst) ==> |inst| <= SUBID_MAX
  {
    LoadAccepts(snapshot, columns);
    if rc == Ok && r.Some? { SequencesAgreeIff(c, r.value, snapshot, columns); }
  }

  lemma LoadAccepts(snapshot: Snapshot, columns: seq<Bytes>)
    ensures RowSets.LoadRc(Refs(snapshot, columns)) == Ok <==> ColumnsAccepted(columns)
  {
    var refs := Refs(snapshot, columns);
    AcceptedIff(refs);
    assert forall i :: 0 <= i < |columns| ==> refs[i].column == columns[i];
  }

  lemma SequencesAgreeIff(c: seq<Instance>, r: seq<Instance>, snapshot: Snapshot, columns: seq<Bytes>)
    requires RowSets.IsRowSequence(c, Refs(snapshot, columns)) && IsRustRows(r, snapshot.data, columns)
    ensures c == r <==> forall inst: Instance :: HasRustRow(snapshot.data, columns, inst) ==> |inst| <= SUBID_MAX
  {
    forall inst: Instance
      ensures inst in c <==> inst in r && |inst| <= SUBID_MAX
    {
      PresenceSame(snapshot, columns, inst);
    }
    if forall inst: Instance :: HasRustRow(snapshot.data, columns, inst) ==> |inst| <= SUBID_MAX {
      forall x: seq<int> ensures x in c <==> x in r {
        if x in c { var inst: Instance :| inst in c && inst == x; }
        if x in r { var inst: Instance :| inst in r && inst == x; }
      }
      Lex.AscendingUnique(c, r);
    }
  }

  /** Of the keys under text columns only those that name no row can fail to be text. */
  lemma SkippedKeysDecide(data: Env, columns: seq<Bytes>)
    requires AllText(columns)
    ensures Readable(data, columns) <==>
              forall i, k ::
                0 <= i < |columns| && k in data && Lex.IsPrefix(ColumnPrefix(columns[i]), k) && InstanceUnder(columns[i], k).None?
                ==> IsText(k)
  {
    forall i, k | 0 <= i < |columns| && InstanceUnder(columns[i], k).Some? ensures IsText(k) {
      var inst := InstanceUnder(columns[i], k).value;
      InstanceUnderIff(columns[i], k, inst);
      CellTextIsText(columns[i], inst);
    }
  }

  lemma CellTextIsText(column: Bytes, inst: Instance)
    requires IsText(column) && inst != []
    ensures IsText(CellText(column, inst))
  {
    DottedIsText(inst);
    AsciiIsText([DOT]);
    TextAppend(column, [DOT]);
    TextAppend(ColumnPrefix(column), Dotted(inst));
  }

  lemma DottedIsText(inst: Instance)
    requires inst != []
    ensures IsText(Dotted(inst))
  {
    DottedAscii(inst);
    AsciiIsText(Dotted(inst));
  }

  lemma {:induction false} DottedAscii(inst: Instance)
    requires inst != []
    ensures forall i :: 0 <= i < |Dotted(inst)| ==> Dotted(inst)[i] < 0x80
  {
    NatOfDigits(inst[0]);
    if |inst| > 1 { DottedAscii(inst[1..]); }
  }

  /** One foreign key is enough: "portDescr.\xFF" hides row 1 from Rust and not from C. */
  lemma ForeignKeyHidesRows(snapshot: Snapshot, value: Bytes)
    requires snapshot.data == map[CellText(Ascii("portDescr"), [1]) := value, Ascii("portDescr") + [DOT, 0xFF] := value]
    ensures RowSets.HasRow(Refs(snapshot, [Ascii("portDescr")]), [1])
    ensures !Readable(snapshot.data, [Ascii("portDescr")])
  {
    var column := Ascii("portDescr");
    var k := column + [DOT, 0xFF];
    assert RowSets.HasCell(Refs(snapshot, [column])[0], [1]);
    assert k == ColumnPrefix(column) + [0xFF];
    AsciiIsText(ColumnPrefix(column));
    TextAppend(ColumnPrefix(column), [0xFF]);
    assert [column][0] == column && Lex.IsPrefix(ColumnPrefix(column), k);
  }

  lemma PresenceSame(snapshot: Snapshot, columns: seq<Bytes>, inst: Instance)
    ensures RowSets.HasRow(Refs(snapshot, columns), inst)
       <==> HasRustRow(snapshot.data, columns, inst) && |inst| <= SUBID_MAX
  {
    var refs := Refs(snapshot, columns);
    if RowSets.HasRow(refs, inst) {
      var i :| 0 <= i < |refs| && RowSets.HasCell(refs[i], inst);
      assert CellText(columns[i], inst) in snapshot.data;
    }
    if HasRustRow(snapshot.data, columns, inst) && |inst| <= SUBID_MAX {
      var i :| 0 <= i < |columns| && CellText(columns[i], inst) in snapshot.data;
      assert RowSets.HasCell(refs[i], inst);
    }
  }

  /** The shared 255-byte key limit bounds every row by 128 sub-identifiers. */
  lemma KeyLimitSuffices(data: Env, columns: seq<Bytes>, inst: Instance)
    requires forall k :: k in data ==> |k| <= KEY_MAX
    requires forall i :: 0 <= i < |columns| ==> columns[i] != []
    requires HasRustRow(data, columns, inst)
    ensures |inst| <= SUBID_MAX
  {
    var i :| 0 <= i < |columns| && CellText(columns[i], inst) in data;
    KeyFitsCaps(columns[i], inst);
  }

  /** So within the key limit C and Rust agree exactly when the columns are acceptable and the keys under them are text. */
  lemma RowsAgreeWithinLimit(rc: Rc, c: seq<Instance>, r: Option<seq<Instance>>, snapshot: Snapshot, columns: seq<Bytes>)
    requires forall k :: k in snapshot.data ==> |k| <= KEY_MAX
    requires rc == RowSets.LoadRc(Refs(snapshot, columns))
    requires rc == Ok ==> RowSets.IsRowSequence(c, Refs(snapshot, columns))
    requires r.Some? <==> Readable(snapshot.data, columns)
    requires r.Some? ==> IsRustRows(r.value, snapshot.data, columns)
    ensures rc == Ok && r == Some(c) <==> ColumnsAccepted(columns) && Readable(snapshot.data, columns)
  {
    RowsAgreeIff(rc, c, r, snapshot, columns);
    if ColumnsAccepted(columns) {
      forall inst: Instance | HasRustRow(snapshot.data, columns, inst) ensures |inst| <= SUBID_MAX {
        KeyLimitSuffices(snapshot.data, columns, inst);
      }
    }
  }

  /** Arguments C refuses and Rust does not: no columns, an empty column, a column that fills a key by itself. */
  lemma RefusedColumns(column: Bytes)
    requires |column| >= 255
    ensures Readable(map[], []) && RowSets.LoadRc(Refs(Snapshot(map[], []), [])) == Inval
    ensures Readable(map[], [[]]) && RowSets.LoadRc(Refs(Snapshot(map[], []), [[]])) == Inval
    ensures Readable(map[], [column]) && RowSets.LoadRc(Refs(Snapshot(map[], []), [column])) == TooBig
  {
    assert Refs(Snapshot(map[], []), [column])[0].column == column;
    assert Refs(Snapshot(map[], []), [[]])[0].column == [];
  }
}
