/**
 * The request-list loops of `handle_portConfigTable` and of the scalar handlers
 * (which net-snmp's serialize helper calls once per varbind), and the row walk
 * behind RESERVE1.
 */
module SetHandler {
  import opened Types
  import opened Instances
  import opened Objects
  import opened Codec
  import opened SetPhases
  import TableKeys
  import RowSets
  import Storage

  /** The rows of this table among the enumerated ones. */
  function TableRows(rows: seq<Instance>): seq<Instance> {
    if rows == [] then []
    else (if IndexValid(rows[0]) then [rows[0]] else []) + TableRows(rows[1..])
  }

  lemma {:induction false} TableRowsElements(rows: seq<Instance>, inst: Instance)
    ensures inst in TableRows(rows) <==> inst in rows && IndexValid(inst)
  {
    if rows != [] { TableRowsElements(rows[1..], inst); }
  }

  /** `struct portConfigTable_loop`. */
  class RowWalk {
    const rows: seq<Instance>
    var next: nat

    ghost predicate Valid() reads this { next <= |rows| }

    ghost function Pending(): seq<Instance>
      requires Valid()
      reads this
    {
      TableRows(rows[next..])
    }

    /** `get_first_data_point`, once the load succeeded. */
    constructor (rows: seq<Instance>)
      ensures Valid() && Pending() == TableRows(rows)
    {
      this.rows := rows;
      next := 0;
      new;
      assert rows[0..] == rows;
    }

    /** `get_next_data_point`: skips instances that are not indexes of this table. */
    method Next() returns (r: Option<Instance>)
      requires Valid()
      modifies this
      ensures Valid()
      ensures r == (if old(Pending()) == [] then None else Some(old(Pending())[0]))
      ensures Pending() == if old(Pending()) == [] then [] else old(Pending())[1..]
    {
      while next < |rows|
        invariant Valid() && Pending() == old(Pending())
        decreases |rows| - next
      {
        var inst := rows[next];
        assert rows[next..][1..] == rows[next + 1..];
        next := next + 1;
        if IndexValid(inst) {
          return Some(inst);
        }
      }
      return None;
    }
  }

  /**
   * Whether the iterator marks a request's row as existing: exactly when the
   * row is present and its instance is an index of the table, unless the
   * enumeration failed, and then never.
   */
  method FindContext(config: Storage.Snapshot, cache: Storage.Snapshot, inst: Instance, faults: nat -> Option<Rc>)
    returns (walk: bool, context: bool)
    requires config.Valid() && cache.Valid() && RowSets.RealFaults(faults)
    ensures context <==> walk && PortRow(Store(config.data, cache.data), inst) && IndexValid(inst)
    ensures RowSets.NoFaults(faults) ==> walk
  {
    var refs := PortRefs(config, cache);
    var rc, rs := RowSets.Load(refs, faults);
    PortRefsLoad(config, cache);
    if rc != Ok {
      return false, false;
    }
    walk := true;
    context := WalkFinds(rs.rows[..rs.count], inst);
    PortRowIsRow(config, cache, inst);
  }

  /** The iterator's walk from `get_first_data_point` on, for one requested instance. */
  method WalkFinds(rows: seq<Instance>, inst: Instance) returns (found: bool)
    ensures found <==> inst in rows && IndexValid(inst)
  {
    var w := new RowWalk(rows);
    found := false;
    while true
      invariant w.Valid() && fresh(w)
      invariant inst in TableRows(rows) <==> found || inst in w.Pending()
      decreases |w.Pending()|
    {
      ghost var pending := w.Pending();
      var r := w.Next();
      if r.None? {
        break;
      }
      assert pending == [pending[0]] + pending[1..];
      if r.value == inst {
        found := true;
      }
    }
    TableRowsElements(rows, inst);
  }

  lemma PortRefsLoad(config: Storage.Snapshot, cache: Storage.Snapshot)
    ensures RowSets.LoadRc(PortRefs(config, cache)) == Ok
  {
    var refs := PortRefs(config, cache);
    assert refs[1..][1..][1..] == [];
    assert refs[1..][0] == refs[1] && refs[1..][1..][0] == refs[2];
    assert RowSets.FirstBad(refs[1..][1..]) == Ok;
    assert RowSets.FirstBad(refs[1..]) == Ok;
  }

  /** One PDU's Set: the environments and the request list, updated phase by phase. */
  class SetTransaction {
    var store: Store
    var requests: seq<Request>

    constructor (store: Store, requests: seq<Request>)
      ensures this.store == store && this.requests == requests
    {
      this.store := store;
      this.requests := requests;
    }

    /** RESERVE2 for one request: build the key, read the old value, attach the stash. */
    method Reserve2One(r: Request, oom: bool) returns (q: Request)
      ensures q == Reserve2(store, r, oom)
    {
      match r.target
      case ScalarTarget(x) =>
        if oom {
          return r.(error := ResourceUnavailable);
        }
        var was := ReadAs(ScalarSyntax(x), store.Lookup(ScalarEnv(x), ScalarName(x)));
        if was == Failure(NotFound) {
          return r.(stash := Some(Undo(ScalarObject(x), Some(ZeroOf(ScalarSyntax(x))))));
        } else if was.Failure? {
          return r.(error := ResourceUnavailable);
        }
        return r.(stash := Some(Undo(ScalarObject(x), Some(was.value))));
      case CellTarget(n, inst) =>
        if !r.context || !IndexValid(inst) {
          return r.(error := GenErr);
        }
        var column := ColumnOf(n);
        if column.None? {
          return r;
        }
        if oom {
          return r.(error := ResourceUnavailable);
        }
        var c := column.value;
        var key := new Byte[KEY_MAX + 1](_ => 0);
        var rc, len := TableKeys.TableCellKey(ColumnName(c), inst, key);
        if rc != Ok {
          return r.(error := GenErr);
        }
        var was := ReadAs(ColumnSyntax(c), store.Lookup(ColumnEnv(c), key[..len]));
        if was == Failure(NotFound) {
          return r.(stash := Some(Undo(CellObject(c, inst), None)));
        } else if was.Failure? {
          return r.(error := ResourceUnavailable);
        }
        return r.(stash := Some(Undo(CellObject(c, inst), Some(was.value))));
    }

    /** ACTION for one request: build the key again and write the narrowed value. */
    method ActionOne(r: Request, fault: Option<Rc>) returns (q: Request)
      requires Vetted(r)
      modifies this`store
      ensures store == ActionStore(old(store), r, fault) && q == ActionRequest(r, fault)
    {
      if Located(r) { LocatedKeysValid(r); }
      match r.target
      case ScalarTarget(x) =>
        if fault.Some? {
          return r.(error := CommitFailed);
        }
        store := store.Put(ScalarEnv(x), ScalarName(x), Some(Encode(NewValue(r.vb, ScalarSyntax(x)))));
        return r;
      case CellTarget(n, inst) =>
        if !r.context || !IndexValid(inst) {
          return r.(error := GenErr);
        }
        if ColumnOf(n).None? {
          return r;
        }
        var c := ColumnOf(n).value;
        var key := new Byte[KEY_MAX + 1](_ => 0);
        var rc, len := TableKeys.TableCellKey(ColumnName(c), inst, key);
        if rc != Ok {
          return r.(error := GenErr);
        }
        if fault.Some? {
          return r.(error := CommitFailed);
        }
        store := store.Put(ColumnEnv(c), key[..len], Some(Encode(NewValue(r.vb, ColumnSyntax(c)))));
        return r;
    }

    /** UNDO for one request: write the old value back, or delete the cell; the stash goes either way. */
    method UndoOne(r: Request, fault: Option<Rc>) returns (q: Request)
      requires r.stash.Some? ==> ValidObject(r.stash.value.obj)
      modifies this`store
      ensures store == UndoStore(old(store), r, fault) && q == UndoRequest(r, fault)
    {
      if r.stash.None? {
        return r;
      }
      var u := r.stash.value;
      if fault.Some? {
        return r.(error := UndoFailed, stash := None);
      }
      if u.restore.Some? {
        store := store.Put(EnvOf(u.obj), KeyOf(u.obj), Some(Encode(u.restore.value)));
      } else {
        store := store.Put(EnvOf(u.obj), KeyOf(u.obj), None);
      }
      return r.(stash := None);
    }

    method ModeReserve1(walk: bool)
      modifies this`requests
      ensures requests == Reserve1All(store, old(requests), walk)
    {
      var i := 0;
      while i < |requests|
        invariant i <= |requests| == |old(requests)|
        invariant forall j :: 0 <= j < i ==> requests[j] == Reserve1(store, old(requests)[j], walk)
        invariant forall j :: i <= j < |requests| ==> requests[j] == old(requests)[j]
      {
        requests := requests[i := Reserve1(store, requests[i], walk)];
        i := i + 1;
      }
    }

    method ModeReserve2(oom: seq<bool>)
      requires |oom| == |requests|
      modifies this`requests
      ensures requests == Reserve2All(store, old(requests), oom)
    {
      var i := 0;
      while i < |requests|
        invariant i <= |requests| == |old(requests)|
        invariant forall j :: 0 <= j < i ==> requests[j] == Reserve2(store, old(requests)[j], oom[j])
        invariant forall j :: i <= j < |requests| ==> requests[j] == old(requests)[j]
      {
        var q := Reserve2One(requests[i], oom[i]);
        requests := requests[i := q];
        i := i + 1;
      }
    }

    /** ACTION keeps going after a failed write; every request is attempted. */
    method ModeAction(faults: Faults)
      requires |faults| == |requests| && AllVetted(requests)
      modifies this
      ensures store == ActionAll(old(store), old(requests), faults)
      ensures requests == ActionRequests(old(requests), faults)
      ensures forall j :: 0 <= j < |requests| ==>
                && requests[j] == old(requests)[j].(error := requests[j].error)
                && requests[j].error == (if NoRow(old(requests)[j]) then GenErr
                                         else if Located(old(requests)[j]) && faults[j].Some? then CommitFailed
                                         else old(requests)[j].error)
    {
      ghost var rs := requests;
      var i := 0;
      while i < |requests|
        invariant i <= |requests| == |rs|
        invariant store == ActionAll(old(store), rs[..i], faults[..i])
        invariant forall j :: 0 <= j < i ==> requests[j] == ActionRequest(rs[j], faults[j])
        invariant forall j :: i <= j < |requests| ==> requests[j] == rs[j]
      {
        var r := requests[i];
        assert rs[..i + 1][..i] == rs[..i] && faults[..i + 1][..i] == faults[..i];
        var q := ActionOne(r, faults[i]);
        requests := requests[i := q];
        i := i + 1;
      }
      assert rs[..i] == rs && faults[..i] == faults;
    }

    method ModeUndo(faults: Faults)
      requires |faults| == |requests| && StashesValid(requests)
      modifies this
      ensures store == UndoAll(old(store), old(requests), faults)
      ensures |requests| == |old(requests)|
      ensures forall j :: 0 <= j < |requests| ==>
                var r := old(requests)[j];
                requests[j] == r.(stash := None, error := if r.stash.Some? && faults[j].Some? then UndoFailed else r.error)
    {
      ghost var rs := requests;
      var i := 0;
      while i < |requests|
        invariant i <= |requests| == |rs|
        invariant store == UndoAll(old(store), rs[..i], faults[..i])
        invariant forall j :: 0 <= j < i ==> requests[j] == UndoRequest(rs[j], faults[j])
        invariant forall j :: i <= j < |requests| ==> requests[j] == rs[j]
      {
        var r := requests[i];
        assert rs[..i + 1][..i] == rs[..i] && faults[..i + 1][..i] == faults[..i];
        var q := UndoOne(r, faults[i]);
        requests := requests[i := q];
        i := i + 1;
      }
      assert rs[..i] == rs && faults[..i] == faults;
      forall j | 0 <= j < |requests|
        ensures requests[j] == rs[j].(stash := None, error := if rs[j].stash.Some? && faults[j].Some? then UndoFailed else rs[j].error)
      {
        UndoRequestIs(rs[j], faults[j]);
      }
    }

    /** FREE and COMMIT only drop the stashes. */
    method ModeRelease()
      modifies this`requests
      ensures |requests| == |old(requests)|
      ensures forall j :: 0 <= j < |requests| ==> requests[j] == old(requests)[j].(stash := None)
    {
      var i := 0;
      while i < |requests|
        invariant i <= |requests| == |old(requests)|
        invariant forall j :: 0 <= j < i ==> requests[j] == Release(old(requests)[j])
        invariant forall j :: i <= j < |requests| ==> requests[j] == old(requests)[j]
      {
        requests := requests[i := Release(requests[i])];
        i := i + 1;
      }
    }
  }
}
