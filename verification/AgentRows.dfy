/** Whole-run property: only startup and a reboot ever change which rows exist. */
module AgentRows {
  import opened Types
  import opened Instances
  import opened Objects
  import opened SetPhases
  import opened SetAtomicity
  import opened ConfigIpc
  import opened Agent
  import RowSets
  import Storage

  ghost predicate Has(s: Store, o: Object)
    requires ValidObject(o)
  {
    s.Lookup(EnvOf(o), KeyOf(o)).Some?
  }

  lemma CellPresentIsHas(s: Store, c: Column, inst: Instance)
    requires ValidInstance(inst)
    ensures CellPresent(s, c, inst) <==> Has(s, CellObject(c, inst))
  {
  }

  /** UNDO would delete this cell again. */
  ghost predicate Doomed(rs: seq<Request>, o: Object) {
    exists i :: 0 <= i < |rs| && rs[i].stash == Some(Undo(o, None))
  }

  /** A cell of the row that no pending UNDO deletes. */
  ghost predicate Anchored(s: Store, rs: seq<Request>, inst: Instance) {
    ValidInstance(inst) && exists c: Column :: Has(s, CellObject(c, inst)) && !Doomed(rs, CellObject(c, inst))
  }

  ghost predicate AllAnchored(s: Store, rs: seq<Request>) {
    forall i :: 0 <= i < |rs| && rs[i].stash.Some? && rs[i].stash.value.obj.CellObject?
      ==> Anchored(s, rs, rs[i].stash.value.obj.inst)
  }

  /** The rows a pending Set works on exist, and will still exist if it is undone. */
  ghost predicate RowInv(s: State) {
    match s.phase
    case Reserved1(rs) =>
      forall i :: 0 <= i < |rs| && rs[i].error == NoError && rs[i].target.CellTarget? ==> PortRow(s.store, rs[i].target.inst)
    case Reserved2(rs) => AllAnchored(s.store, rs)
    case Acted(rs) => AllAnchored(s.store, rs)
    case _ => true
  }

  /** Two stores with the same cells present. */
  ghost predicate SameCells(s: Store, t: Store) {
    forall o :: ValidObject(o) && o.CellObject? ==> (Has(s, o) <==> Has(t, o))
  }

  ghost predicate SameRows(s: Store, t: Store) {
    forall inst: Instance :: PortRow(s, inst) <==> PortRow(t, inst)
  }

  lemma RowHasCell(s: Store, inst: Instance)
    ensures PortRow(s, inst) <==> ValidInstance(inst) && exists c: Column :: Has(s, CellObject(c, inst))
  {
    if ValidInstance(inst) {
      CellPresentIsHas(s, PortDescr, inst);
      CellPresentIsHas(s, PortAdminStatus, inst);
      CellPresentIsHas(s, PortAlarmThreshold, inst);
      if c: Column :| Has(s, CellObject(c, inst)) {
        assert c == PortDescr || c == PortAdminStatus || c == PortAlarmThreshold;
      }
    }
  }

  lemma SameCellsSameRows(s: Store, t: Store)
    requires SameCells(s, t)
    ensures SameRows(s, t)
  {
    forall inst: Instance ensures PortRow(s, inst) <==> PortRow(t, inst) {
      RowHasCell(s, inst);
      RowHasCell(t, inst);
      if ValidInstance(inst) {
        forall c: Column ensures Has(s, CellObject(c, inst)) <==> Has(t, CellObject(c, inst)) {}
      }
    }
  }

  // ---- other writers touch no cell of the table -----------------------

  lemma IpcSameCells(s: Store, k: Bytes, v: Option<IpcValue>, fault: Option<Rc>)
    requires fault.Some? ==> fault.value != Ok
    ensures SameCells(s, WriteConfig(s, k, v, fault))
  {
    WriteConfigEffect(s, k, v, fault);
    if WriteStatus(k, v, fault) == StatusOk {
      forall o | ValidObject(o) && o.CellObject? ensures KeyOf(o) != k {
        CellHasDot(o.column, o.inst);
        NamesDotFree();
      }
    }
  }

  lemma TelemetrySameCells(s: Store, k: Bytes, v: Option<Bytes>)
    requires !OwnedBySubagent(k)
    ensures SameCells(s, s.Put(CacheEnv, k, v))
  {
    forall o | ValidObject(o) && o.CellObject? ensures Has(s, o) <==> Has(s.Put(CacheEnv, k, v), o) {
    }
  }

  lemma SameCellsKeepRowInv(s: State, t: State)
    requires RowInv(s) && SameCells(s.store, t.store) && s.phase == t.phase
    ensures RowInv(t)
  {
    SameCellsSameRows(s.store, t.store);
    match s.phase
    case Reserved2(rs) => SameCellsAnchored(s.store, t.store, rs);
    case Acted(rs) => SameCellsAnchored(s.store, t.store, rs);
    case _ =>
  }

  lemma SameCellsAnchored(s: Store, t: Store, rs: seq<Request>)
    requires SameCells(s, t) && AllAnchored(s, rs)
    ensures AllAnchored(t, rs)
  {
    forall i | 0 <= i < |rs| && rs[i].stash.Some? && rs[i].stash.value.obj.CellObject?
      ensures Anchored(t, rs, rs[i].stash.value.obj.inst)
    {
      var inst := rs[i].stash.value.obj.inst;
      var c: Column :| Has(s, CellObject(c, inst)) && !Doomed(rs, CellObject(c, inst));
      assert Has(t, CellObject(c, inst));
    }
  }

  // ---- RESERVE2 ---------------------------------------------------------

  /** A row that exists at RESERVE2 has a cell there, and nobody stashes that cell as absent. */
  lemma Reserve2Anchors(s: State, oom: seq<bool>)
    requires Phased(s) && RowInv(s) && Enabled(s, ToReserve2(oom))
    ensures AllAnchored(s.store, Reserve2All(s.store, s.phase.rs, oom))
  {
    var rs, qs := s.phase.rs, Reserve2All(s.store, s.phase.rs, oom);
    forall i | 0 <= i < |qs| && qs[i].stash.Some? && qs[i].stash.value.obj.CellObject?
      ensures Anchored(s.store, qs, qs[i].stash.value.obj.inst)
    {
      assert Accepted(rs[i]);
      var inst := qs[i].stash.value.obj.inst;
      RowHasCell(s.store, inst);
      var c: Column :| Has(s.store, CellObject(c, inst));
      if Doomed(qs, CellObject(c, inst)) {
        var j :| 0 <= j < |qs| && qs[j].stash == Some(Undo(CellObject(c, inst), None));
        assert Accepted(rs[j]);
        PresentNotDoomed(s.store, rs[j], oom[j]);
      }
    }
  }

  lemma PresentNotDoomed(s: Store, r: Request, oom: bool)
    requires Accepted(r)
    ensures var q := Reserve2(s, r, oom);
      q.stash.Some? && q.stash.value.restore.None? ==> !Has(s, q.stash.value.obj)
  {
  }

  // ---- ACTION ------------------------------------------------------------

  /** ACTION removes nothing, and what it adds belongs to its requests. */
  lemma ActionCells(s: Store, rs: seq<Request>, faults: Faults, o: Object)
    requires |faults| == |rs| && AllReady(rs) && ValidObject(o)
    ensures Has(s, o) ==> Has(ActionAll(s, rs, faults), o)
    ensures Has(ActionAll(s, rs, faults), o) && !Has(s, o) ==> exists i :: 0 <= i < |rs| && Obj(rs[i]) == o
  {
    ActionLookup(s, rs, faults, EnvOf(o), KeyOf(o));
    LastWriteExact(rs, faults, EnvOf(o), KeyOf(o));
    var i := LastWrite(rs, faults, EnvOf(o), KeyOf(o));
    if i >= 0 { KeyOfInjective(Obj(rs[i]), o); }
  }

  lemma ActionRows(s: State, faults: Faults)
    requires Phased(s) && RowInv(s) && Enabled(s, ToAction(faults))
    ensures SameRows(s.store, Next(s, ToAction(faults)).store) && RowInv(Next(s, ToAction(faults)))
  {
    var rs := s.phase.rs;
    var t := ActionAll(s.store, rs, faults);
    forall inst: Instance ensures PortRow(s.store, inst) <==> PortRow(t, inst) {
      RowHasCell(s.store, inst);
      RowHasCell(t, inst);
      if ValidInstance(inst) {
        forall c: Column ensures Has(s.store, CellObject(c, inst)) ==> Has(t, CellObject(c, inst)) {
          ActionCells(s.store, rs, faults, CellObject(c, inst));
        }
        if c: Column :| Has(t, CellObject(c, inst)) && !Has(s.store, CellObject(c, inst)) {
          ActionCells(s.store, rs, faults, CellObject(c, inst));
          var i :| 0 <= i < |rs| && Obj(rs[i]) == CellObject(c, inst);
          assert Ready(rs[i]);
          assert Anchored(s.store, rs, inst);
        }
      }
    }
    ActionAnchors(s.store, rs, faults);
  }

  lemma ActionAnchors(s: Store, rs: seq<Request>, faults: Faults)
    requires |faults| == |rs| && AllReady(rs) && AllAnchored(s, rs)
    ensures AllAnchored(ActionAll(s, rs, faults), ActionRequests(rs, faults))
  {
    var t, qs := ActionAll(s, rs, faults), ActionRequests(rs, faults);
    forall i | 0 <= i < |qs| && qs[i].stash.Some? && qs[i].stash.value.obj.CellObject?
      ensures Anchored(t, qs, qs[i].stash.value.obj.inst)
    {
      assert qs[i].stash == rs[i].stash;
      var inst := rs[i].stash.value.obj.inst;
      var c: Column :| Has(s, CellObject(c, inst)) && !Doomed(rs, CellObject(c, inst));
      ActionCells(s, rs, faults, CellObject(c, inst));
      if Doomed(qs, CellObject(c, inst)) { ActionDoomed(rs, faults, CellObject(c, inst)); }
    }
  }

  lemma ActionDoomed(rs: seq<Request>, faults: Faults, o: Object)
    requires |faults| == |rs| && Doomed(ActionRequests(rs, faults), o)
    ensures Doomed(rs, o)
  {
    var qs := ActionRequests(rs, faults);
    var j :| 0 <= j < |qs| && qs[j].stash == Some(Undo(o, None));
    assert rs[j].stash == qs[j].stash;
  }

  // ---- UNDO ----------------------------------------------------------------

  /** UNDO deletes only doomed cells, and adds only cells it has a stash for. */
  lemma {:induction false} UndoCells(s: Store, rs: seq<Request>, faults: Faults, o: Object)
    requires |faults| == |rs| && StashesValid(rs) && ValidObject(o)
    ensures Has(s, o) && !Doomed(rs, o) ==> Has(UndoAll(s, rs, faults), o)
    ensures Has(UndoAll(s, rs, faults), o) && !Has(s, o) ==> Stashes(rs, o)
  {
    if rs != [] {
      var n := |rs| - 1;
      assert forall i :: 0 <= i < n ==> rs[..n][i] == rs[i];
      UndoCells(s, rs[..n], faults[..n], o);
      StashesSnoc(rs, o);
      UndoOneCell(UndoAll(s, rs[..n], faults[..n]), rs[n], faults[n], o);
    }
  }

  lemma UndoOneCell(s: Store, r: Request, fault: Option<Rc>, o: Object)
    requires ValidObject(o) && (r.stash.Some? ==> ValidObject(r.stash.value.obj))
    ensures Has(s, o) && r.stash != Some(Undo(o, None)) ==> Has(UndoStore(s, r, fault), o)
    ensures Has(UndoStore(s, r, fault), o) && !Has(s, o) ==> r.stash.Some? && r.stash.value.obj == o
  {
    if r.stash.Some? && KeyOf(r.stash.value.obj) == KeyOf(o) { KeyOfInjective(r.stash.value.obj, o); }
  }

  lemma UndoRows(s: Store, rs: seq<Request>, faults: Faults)
    requires |faults| == |rs| && StashesValid(rs) && AllAnchored(s, rs)
    ensures SameRows(s, UndoAll(s, rs, faults))
  {
    var t := UndoAll(s, rs, faults);
    forall inst: Instance ensures PortRow(s, inst) <==> PortRow(t, inst) {
      RowHasCell(s, inst);
      RowHasCell(t, inst);
      if ValidInstance(inst) {
        forall c: Column { UndoCells(s, rs, faults, CellObject(c, inst)); }
        if c: Column :| Has(t, CellObject(c, inst)) && !Has(s, CellObject(c, inst)) {
          assert Stashes(rs, CellObject(c, inst));
          assert Anchored(s, rs, inst);
        }
        if c: Column :| Has(s, CellObject(c, inst)) {
          if Doomed(rs, CellObject(c, inst)) { assert Anchored(s, rs, inst); }
        }
      }
    }
  }

  // ---- every step, every run ------------------------------------------------

  ghost predicate KeepsRunning(e: Event) { !e.Stop? && !e.Start? }

  lemma StepKeepsRows(s: State, e: Event)
    requires Phased(s) && RowInv(s) && Enabled(s, e)
    ensures RowInv(Next(s, e))
    ensures KeepsRunning(e) ==> SameRows(s.store, Next(s, e).store)
  {
    match e
    case IpcWrite(k, v, fault) =>
      IpcSameCells(s.store, k, v, fault);
      SameCellsSameRows(s.store, Next(s, e).store);
      SameCellsKeepRowInv(s, Next(s, e));
    case Telemetry(k, v) =>
      TelemetrySameCells(s.store, k, v);
      SameCellsSameRows(s.store, Next(s, e).store);
      SameCellsKeepRowInv(s, Next(s, e));
    case ToReserve2(oom) => Reserve2Anchors(s, oom);
    case ToAction(faults) => ActionRows(s, faults);
    case ToUndo(faults) => UndoRows(s.store, s.phase.rs, faults);
    case Begin(rs, walk) =>
      forall i | 0 <= i < |rs| ensures Reserve1(s.store, rs[i], walk).target == rs[i].target { Reserve1Accepts(s.store, rs[i], walk); }
    case _ =>
  }

  /**
   * No Set creates or destroys a row: from any state a run can reach, through
   * any phases, failures, partial ACTIONs, UNDO deletes and other writers, the
   * rows of portConfigTable stay the same until the process stops.
   */
  lemma {:induction false} RunKeepsRows(s: State, es: seq<Event>)
    requires Phased(s) && RowInv(s)
    ensures RowInv(Exec(s, es))
    ensures (forall i :: 0 <= i < |es| ==> KeepsRunning(es[i])) ==> SameRows(s.store, Exec(s, es).store)
  {
    if es != [] {
      var n := |es| - 1;
      assert forall i :: 0 <= i < n ==> es[..n][i] == es[i];
      RunKeepsRows(s, es[..n]);
      var p := Exec(s, es[..n]);
      if Enabled(p, es[n]) { StepKeepsRows(p, es[n]); }
    }
  }

  ghost predicate Snapshots(s: Store, config: Storage.Snapshot, cache: Storage.Snapshot) {
    config.Valid() && cache.Valid() && config.data == s.config && cache.data == s.cache
  }

  /** So `table_rowset_load` returns the very same sequence before and after. */
  lemma RunKeepsRowSequence(
    s: State, es: seq<Event>,
    config: Storage.Snapshot, cache: Storage.Snapshot, rows: seq<Instance>,
    config': Storage.Snapshot, cache': Storage.Snapshot, rows': seq<Instance>)
    requires Phased(s) && RowInv(s) && forall i :: 0 <= i < |es| ==> KeepsRunning(es[i])
    requires Snapshots(s.store, config, cache) && Snapshots(Exec(s, es).store, config', cache')
    requires RowSets.IsRowSequence(rows, PortRefs(config, cache))
    requires RowSets.IsRowSequence(rows', PortRefs(config', cache'))
    ensures rows == rows'
  {
    RunKeepsRows(s, es);
    forall inst: Instance
      ensures RowSets.HasRow(PortRefs(config, cache), inst) <==> RowSets.HasRow(PortRefs(config', cache'), inst)
    {
      PortRowIsRow(config, cache, inst);
      PortRowIsRow(config', cache', inst);
    }
    RowSets.RowSequenceUnique(rows, rows', PortRefs(config, cache), PortRefs(config', cache'));
  }
}
