/** Whole-run invariant: every writable object keeps its declared type and range. */
module AgentTypes {
  import opened Types
  import opened Codec
  import opened Objects
  import opened SetPhases
  import opened ConfigIpc
  import opened Alarm
  import opened Provisioning
  import opened Agent
  import Bootstrap

  /** Every stored writable object is of its declared type and inside its range. */
  ghost predicate Typed(s: Store) {
    forall o :: ValidObject(o) && s.Lookup(EnvOf(o), KeyOf(o)).Some? ==>
      WellTyped(SyntaxOf(o), s.Lookup(EnvOf(o), KeyOf(o)).value)
  }

  ghost predicate ScalarsPresent(s: Store) {
    forall x :: s.Lookup(ScalarEnv(x), ScalarName(x)).Some?
  }

  /** A stash holds an in-range value, and a scalar's stash always holds one. */
  ghost predicate StashTyped(u: Undo) {
    && ValidObject(u.obj)
    && (u.restore.Some? ==> InRange(SyntaxOf(u.obj), u.restore.value))
    && (u.obj.ScalarObject? ==> u.restore.Some?)
  }

  ghost predicate StashesTyped(rs: seq<Request>) {
    forall i :: 0 <= i < |rs| && rs[i].stash.Some? ==> StashTyped(rs[i].stash.value)
  }

  ghost predicate AgentInv(s: State) {
    && Typed(s.store)
    && (!s.phase.Down? ==> ScalarsPresent(s.store))
    && (s.phase.Reserved2? || s.phase.Acted? ==> StashesTyped(s.phase.rs))
    && s.alarm == After(s.history)
    && forall i :: 0 <= i < |s.history| ==> NoOverflow(s.history[i])
  }

  // ---- one write -------------------------------------------------------

  lemma PutTyped(s: Store, o: Object, v: Value)
    requires Typed(s) && ValidObject(o) && InRange(SyntaxOf(o), v)
    ensures Typed(s.Put(EnvOf(o), KeyOf(o), Some(Encode(v))))
    ensures ScalarsPresent(s) ==> ScalarsPresent(s.Put(EnvOf(o), KeyOf(o), Some(Encode(v))))
  {
    var t := s.Put(EnvOf(o), KeyOf(o), Some(Encode(v)));
    EncodeWellTyped(SyntaxOf(o), v);
    forall p | ValidObject(p) && t.Lookup(EnvOf(p), KeyOf(p)).Some?
      ensures WellTyped(SyntaxOf(p), t.Lookup(EnvOf(p), KeyOf(p)).value)
    {
      if KeyOf(p) == KeyOf(o) { KeyOfInjective(p, o); }
    }
    forall x | ScalarsPresent(s) ensures t.Lookup(ScalarEnv(x), ScalarName(x)).Some? {
      assert s.Lookup(ScalarEnv(x), ScalarName(x)).Some?;
    }
  }

  lemma DeleteCellTyped(s: Store, o: Object)
    requires Typed(s) && ValidObject(o) && o.CellObject?
    ensures Typed(s.Put(EnvOf(o), KeyOf(o), None))
    ensures ScalarsPresent(s) ==> ScalarsPresent(s.Put(EnvOf(o), KeyOf(o), None))
  {
    var t := s.Put(EnvOf(o), KeyOf(o), None);
    forall p | ValidObject(p) && t.Lookup(EnvOf(p), KeyOf(p)).Some?
      ensures WellTyped(SyntaxOf(p), t.Lookup(EnvOf(p), KeyOf(p)).value)
    {
      assert s.Lookup(EnvOf(p), KeyOf(p)) == t.Lookup(EnvOf(p), KeyOf(p));
    }
    forall x | ScalarsPresent(s) ensures t.Lookup(ScalarEnv(x), ScalarName(x)).Some? {
      assert s.Lookup(ScalarEnv(x), ScalarName(x)).Some?;
      if ScalarName(x) == KeyOf(o) { KeyOfInjective(ScalarObject(x), o); }
    }
  }

  /** A write outside the objects' keys concerns no object. */
  lemma OtherKeyTyped(s: Store, k: Bytes, v: Option<Bytes>)
    requires Typed(s) && !OwnedBySubagent(k)
    ensures Typed(s.Put(CacheEnv, k, v))
    ensures ScalarsPresent(s) ==> ScalarsPresent(s.Put(CacheEnv, k, v))
  {
    var t := s.Put(CacheEnv, k, v);
    forall p | ValidObject(p) ensures t.Lookup(EnvOf(p), KeyOf(p)) == s.Lookup(EnvOf(p), KeyOf(p)) {
    }
    forall x | ScalarsPresent(s) ensures t.Lookup(ScalarEnv(x), ScalarName(x)).Some? {
      assert ValidObject(ScalarObject(x)) && KeyOf(ScalarObject(x)) == ScalarName(x);
      assert s.Lookup(ScalarEnv(x), ScalarName(x)).Some?;
    }
  }

  // ---- the Set phases --------------------------------------------------

  lemma {:induction false} ActionTyped(s: Store, rs: seq<Request>, faults: Faults)
    requires Typed(s) && |faults| == |rs| && AllReady(rs)
    ensures Typed(ActionAll(s, rs, faults))
    ensures ScalarsPresent(s) ==> ScalarsPresent(ActionAll(s, rs, faults))
  {
    if rs != [] {
      var n := |rs| - 1;
      ActionTyped(s, rs[..n], faults[..n]);
      ActionOneTyped(ActionAll(s, rs[..n], faults[..n]), rs[n], faults[n]);
    }
  }

  lemma ActionOneTyped(s: Store, r: Request, fault: Option<Rc>)
    requires Typed(s) && Ready(r)
    ensures Typed(ActionStore(s, r, fault))
    ensures ScalarsPresent(s) ==> ScalarsPresent(ActionStore(s, r, fault))
  {
    NewValueInRange(r);
    PutTyped(s, Obj(r), NewValue(r.vb, SyntaxOf(Obj(r))));
  }

  lemma {:induction false} UndoTyped(s: Store, rs: seq<Request>, faults: Faults)
    requires Typed(s) && |faults| == |rs| && StashesValid(rs) && StashesTyped(rs)
    ensures Typed(UndoAll(s, rs, faults))
    ensures ScalarsPresent(s) ==> ScalarsPresent(UndoAll(s, rs, faults))
  {
    if rs != [] {
      var n := |rs| - 1;
      UndoTyped(s, rs[..n], faults[..n]);
      UndoOneTyped(UndoAll(s, rs[..n], faults[..n]), rs[n], faults[n]);
    }
  }

  lemma UndoOneTyped(s: Store, r: Request, fault: Option<Rc>)
    requires Typed(s) && (r.stash.Some? ==> StashTyped(r.stash.value))
    ensures Typed(UndoStore(s, r, fault))
    ensures ScalarsPresent(s) ==> ScalarsPresent(UndoStore(s, r, fault))
  {
    if r.stash.Some? && fault.None? {
      var u := r.stash.value;
      if u.restore.Some? { PutTyped(s, u.obj, u.restore.value); } else { DeleteCellTyped(s, u.obj); }
    }
  }

  /** On a well-typed store, what RESERVE2 stashes is in range. */
  lemma StashIsTyped(s: Store, r: Request)
    requires Typed(s) && ScalarsPresent(s) && StashedFrom(s, r)
    ensures StashTyped(r.stash.value)
  {
    var o := Obj(r);
    var stored := s.Lookup(EnvOf(o), KeyOf(o));
    if o.ScalarObject? { assert s.Lookup(ScalarEnv(o.scalar), ScalarName(o.scalar)).Some?; }
    if stored.Some? { ReadWellTyped(SyntaxOf(o), stored.value); }
  }

  lemma Reserve2Typed(s: State, oom: seq<bool>)
    requires Phased(s) && AgentInv(s) && Enabled(s, ToReserve2(oom))
    ensures StashesTyped(Reserve2All(s.store, s.phase.rs, oom))
  {
    var rs, qs := s.phase.rs, Reserve2All(s.store, s.phase.rs, oom);
    forall i | 0 <= i < |qs| && qs[i].stash.Some? ensures StashTyped(qs[i].stash.value) {
      assert Accepted(rs[i]);
      Reserve2Stashes(s.store, rs[i], oom[i]);
      StashIsTyped(s.store, qs[i]);
    }
  }

  // ---- samples ---------------------------------------------------------

  /** On a well-typed store the hysteresis subtraction cannot overflow. */
  lemma SampleSafe(s: Store, i: nat)
    requires Typed(s) && i < |SampleOf(s)|
    ensures NoOverflow(SampleOf(s)[i])
  {
    var o := ScalarObject(TempThreshold);
    assert WellTyped(SyntaxOf(o), s.Lookup(EnvOf(o), KeyOf(o)).value);
  }

  lemma {:induction false} ActionSamplesSafe(s: Store, rs: seq<Request>, faults: Faults)
    requires Typed(s) && |faults| == |rs| && AllReady(rs)
    ensures forall i :: 0 <= i < |ActionSamples(s, rs, faults)| ==> NoOverflow(ActionSamples(s, rs, faults)[i])
  {
    if rs != [] {
      var n := |rs| - 1;
      ActionSamplesSafe(s, rs[..n], faults[..n]);
      ActionTyped(s, rs, faults);
      var after := ActionAll(s, rs, faults);
      forall i | 0 <= i < |SampleOf(after)| ensures NoOverflow(SampleOf(after)[i]) { SampleSafe(after, i); }
    }
  }

  lemma HistoryGrows(s: State, xs: seq<Sample>)
    requires AgentInv(s) && forall i :: 0 <= i < |xs| ==> NoOverflow(xs[i])
    ensures Observe(s.alarm, xs) == After(s.history + xs)
    ensures forall i :: 0 <= i < |s.history + xs| ==> NoOverflow((s.history + xs)[i])
  {
    ObserveAppend(Clear, s.history, xs);
  }

  // ---- startup ---------------------------------------------------------

  lemma StartTyped(s: Store, n: nat, outcome: StartOutcome)
    requires Typed(s) && n < 0xFFFF_FFFF
    ensures Typed(StartStore(s, n, outcome))
    ensures outcome.BothSeeded? ==> ScalarsPresent(StartStore(s, n, outcome))
  {
    var t := StartStore(s, n, outcome);
    forall o | ValidObject(o) && t.Lookup(EnvOf(o), KeyOf(o)).Some?
      ensures WellTyped(SyntaxOf(o), t.Lookup(EnvOf(o), KeyOf(o)).value)
    {
      StartedObject(s, n, o);
      DefaultsInRange(o);
      EncodeWellTyped(SyntaxOf(o), Bootstrap.DefaultOf(o));
    }
    if outcome.BothSeeded? {
      forall x ensures t.Lookup(ScalarEnv(x), ScalarName(x)).Some? {
        StartedObject(s, n, ScalarObject(x));
      }
    }
  }

  lemma StartedObject(s: Store, n: nat, o: Object)
    requires n < 0xFFFF_FFFF && ValidObject(o)
    ensures var was, now := s.Lookup(EnvOf(o), KeyOf(o)), Started(s, n).Lookup(EnvOf(o), KeyOf(o));
      now == if was.Some? then was else if Provisioned(o, n) then Some(Encode(Bootstrap.DefaultOf(o))) else None
  {
    if s.Lookup(EnvOf(o), KeyOf(o)).Some? {
      ExistingKept(s, n, EnvOf(o), KeyOf(o));
    } else {
      AbsentObjectSeeded(s, n, o);
    }
  }

  lemma WipedTyped(s: Store)
    requires Typed(s)
    ensures Typed(Wiped(s))
  {
    forall o | ValidObject(o) && Wiped(s).Lookup(EnvOf(o), KeyOf(o)).Some?
      ensures WellTyped(SyntaxOf(o), Wiped(s).Lookup(EnvOf(o), KeyOf(o)).value)
    {
      assert s.Lookup(EnvOf(o), KeyOf(o)) == Wiped(s).Lookup(EnvOf(o), KeyOf(o));
    }
  }

  // ---- every step, every run -------------------------------------------

  lemma StepKeepsTypes(s: State, e: Event)
    requires Phased(s) && AgentInv(s) && Enabled(s, e)
    ensures AgentInv(Next(s, e))
  {
    match e
    case IpcWrite(k, v, fault) => IpcKeepsTypes(s.store, k, v, fault);
    case Telemetry(k, v) => OtherKeyTyped(s.store, k, v);
    case TempCheck =>
      forall i | 0 <= i < |SampleOf(s.store)| ensures NoOverflow(SampleOf(s.store)[i]) { SampleSafe(s.store, i); }
      HistoryGrows(s, SampleOf(s.store));
    case ToReserve2(oom) => Reserve2Typed(s, oom);
    case ToAction(faults) => ActionKeepsTypes(s, faults);
    case ToUndo(faults) => UndoTyped(s.store, s.phase.rs, faults);
    case Stop(_) => WipedTyped(s.store);
    case Start(n, outcome) => StartTyped(s.store, n, outcome);
    case _ =>
  }

  lemma ActionKeepsTypes(s: State, faults: Faults)
    requires Phased(s) && AgentInv(s) && Enabled(s, ToAction(faults))
    ensures AgentInv(Next(s, ToAction(faults)))
  {
    ActionTyped(s.store, s.phase.rs, faults);
    ActionSamplesSafe(s.store, s.phase.rs, faults);
    HistoryGrows(s, ActionSamples(s.store, s.phase.rs, faults));
    var rs, qs := s.phase.rs, ActionRequests(s.phase.rs, faults);
    forall i | 0 <= i < |qs| && qs[i].stash.Some? ensures StashTyped(qs[i].stash.value) {
      assert qs[i].stash == rs[i].stash;
    }
  }

  lemma IpcKeepsTypes(s: Store, k: Bytes, v: Option<IpcValue>, fault: Option<Rc>)
    requires Typed(s) && (fault.Some? ==> fault.value != Ok)
    ensures Typed(WriteConfig(s, k, v, fault))
    ensures ScalarsPresent(s) ==> ScalarsPresent(WriteConfig(s, k, v, fault))
  {
    WriteConfigEffect(s, k, v, fault);
    if WriteStatus(k, v, fault) == StatusOk {
      var x: Scalar, w: Value :|
        Proper(k, v, x, w)
        && WriteConfig(s, k, v, fault) == s.Put(ScalarEnv(x), ScalarName(x), Some(Encode(w)));
      PutTyped(s, ScalarObject(x), w);
    }
  }

  /**
   * From any well-typed store (an empty one included), after any events at all:
   * writable objects are typed and in range, scalars are present while the agent
   * runs, the alarm is the function of its history and no threshold ever made
   * the hysteresis subtraction overflow.
   */
  lemma {:induction false} RunKeepsTypes(s: State, es: seq<Event>)
    requires Phased(s) && AgentInv(s)
    ensures AgentInv(Exec(s, es))
  {
    if es != [] {
      var n := |es| - 1;
      RunKeepsTypes(s, es[..n]);
      var p := Exec(s, es[..n]);
      if Enabled(p, es[n]) { StepKeepsTypes(p, es[n]); }
    }
  }

  /** A device that has never run satisfies the invariant. */
  lemma EmptyStoreTyped()
    ensures AgentInv(OFF)
  {
  }

  /** Hence, whenever the agent runs, SNMP GET and IPC read report the same present value. */
  lemma RunReadsAgree(s: State, es: seq<Event>, x: Scalar)
    requires Phased(s) && AgentInv(s) && !Exec(s, es).phase.Down?
    ensures var store := Exec(s, es).store;
      && SnmpGet(store, x).Some? && InRange(ScalarSyntax(x), SnmpGet(store, x).value)
      && ReadConfig(store, ScalarName(x)) == ReadResponse(StatusOk, SnmpGet(store, x))
  {
    RunKeepsTypes(s, es);
    var store := Exec(s, es).store;
    var o := ScalarObject(x);
    assert store.Lookup(ScalarEnv(x), ScalarName(x)).Some?;
    var b := store.Lookup(EnvOf(o), KeyOf(o)).value;
    assert WellTyped(SyntaxOf(o), b);
    ReadWellTyped(SyntaxOf(o), b);
    GetAndReadAgreeIff(store, x);
    AllowlistMatchesMib(x);
  }

  /** And the alarm is raised exactly when the sample history says so. */
  lemma RunAlarmIff(s: State, es: seq<Event>)
    requires Phased(s) && AgentInv(s)
    ensures var xs := Exec(s, es).history;
      Exec(s, es).alarm == Raised <==>
        exists i :: 0 <= i < |xs| && xs[i].temp > xs[i].threshold
                    && forall j :: i < j < |xs| ==> xs[j].temp > xs[j].threshold - 500
  {
    RunKeepsTypes(s, es);
    RaisedIff(Exec(s, es).history);
  }

  /** In any run, an IPC write of a proper value is what SNMP GET and IPC read report next. */
  lemma WrittenIsRead(s: State, es: seq<Event>, key: Bytes, value: Option<IpcValue>, x: Scalar, v: Value)
    requires Phased(s) && !Exec(s, es).phase.Down? && Proper(key, value, x, v)
    ensures var store := Exec(s, es + [IpcWrite(key, value, None)]).store;
      SnmpGet(store, x) == Some(v) && ReadConfig(store, key) == ReadResponse(StatusOk, Some(v))
  {
    var p := Exec(s, es);
    ExecSnoc(s, es, IpcWrite(key, value, None));
    WriteOkIff(key, value, None);
    WriteConfigEffect(p.store, key, value, None);
    var y: Scalar, w: Value :|
      Proper(key, value, y, w)
      && WriteConfig(p.store, key, value, None) == p.store.Put(ScalarEnv(y), ScalarName(y), Some(Encode(w)));
    KeyOfInjective(ScalarObject(x), ScalarObject(y));
    ReadConfigBack(WriteConfig(p.store, key, value, None), x, v);
    ReadBack(ScalarSyntax(x), v);
  }

  /** In any run, a telemetry write stores what it says, under its key only, and nothing else of the state changes. */
  lemma TelemetryWrites(s: State, es: seq<Event>, k: Bytes, v: Option<Bytes>, e: EnvId, j: Bytes)
    requires Phased(s) && !OwnedBySubagent(k)
    ensures var p, t := Exec(s, es), Exec(s, es + [Telemetry(k, v)]);
      && t.store.Lookup(CacheEnv, k) == v
      && (e != CacheEnv || j != k ==> t.store.Lookup(e, j) == p.store.Lookup(e, j))
      && t == p.(store := t.store)
  {
    ExecSnoc(s, es, Telemetry(k, v));
  }

  /** The reserve phases, FREE and COMMIT change neither the store nor the alarm. */
  lemma QuietPhases(s: State, e: Event)
    requires Phased(s) && Enabled(s, e) && (e.Begin? || e.ToReserve2? || e.ToFree? || e.ToCommit?)
    ensures Next(s, e) == s.(phase := Next(s, e).phase)
    ensures e.ToFree? || e.ToCommit? ==> Next(s, e).phase == Idle
    ensures e.Begin? ==>
      && Next(s, e).phase.Reserved1? && |Next(s, e).phase.rs| == |e.requests|
      && forall i :: 0 <= i < |e.requests| && e.requests[i].target.CellTarget? && !e.walk ==>
           Next(s, e).phase.rs[i].error == NoCreation
  {
  }
}
