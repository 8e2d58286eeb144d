/**
 * The whole subagent as a state machine: SNMP Set phases, IPC writes, telemetry
 * writes under the single-writer rule, temperature checks, stops at any point
 * and restarts, in any order.
 */
module Agent {
  import opened Types
  import opened Codec
  import opened Objects
  import opened SetPhases
  import opened ConfigIpc
  import opened Alarm
  import opened Provisioning

  datatype Phase =
    | Down
    | Idle
    | Reserved1(rs: seq<Request>)
    | Reserved2(rs: seq<Request>)
    | Acted(rs: seq<Request>)

  /** `history` lists the completed temperature samples since the process started. */
  datatype State = State(store: Store, phase: Phase, alarm: AlarmState, history: seq<Sample>)

  /** A device that has never run. */
  const OFF: State := State(Store(map[], map[]), Down, Clear, [])

  datatype StartOutcome = BothSeeded | ConfigFailed | CacheFailed

  datatype Event =
    | IpcWrite(key: Bytes, value: Option<IpcValue>, fault: Option<Rc>)
    | Telemetry(tkey: Bytes, tvalue: Option<Bytes>)
    | TempCheck
    | Begin(requests: seq<Request>, walk: bool)
    | ToReserve2(oom: seq<bool>)
    | ToFree
    | ToAction(faults: Faults)
    | ToCommit
    | ToUndo(undoFaults: Faults)
    | Stop(reboot: bool)
    | Start(rows: nat, outcome: StartOutcome)

  /** The single-writer rule: in cache.lmdb the subagent owns exactly the volatile writable objects. */
  ghost predicate OwnedBySubagent(k: Bytes) {
    exists o :: ValidObject(o) && EnvOf(o) == CacheEnv && KeyOf(o) == k
  }

  /**
   * Which events can happen. The phases follow section 7.2.4 of RFC 2741: an
   * error in a reserve phase leads to FREE, one in ACTION to UNDO; another
   * handler's error can lead there as well.
   */
  ghost predicate Enabled(s: State, e: Event) {
    match e
    case IpcWrite(_, _, fault) => !s.phase.Down? && (fault.Some? ==> fault.value != Ok)
    case Telemetry(k, _) => !OwnedBySubagent(k)
    case TempCheck => !s.phase.Down?
    case Begin(rs, _) => s.phase.Idle? && forall i :: 0 <= i < |rs| ==> Fresh(rs[i])
    case ToReserve2(oom) => s.phase.Reserved1? && NoErrors(s.phase.rs) && |oom| == |s.phase.rs|
    case ToFree => s.phase.Reserved1? || s.phase.Reserved2?
    case ToAction(faults) => s.phase.Reserved2? && NoErrors(s.phase.rs) && |faults| == |s.phase.rs|
    case ToCommit => s.phase.Acted? && NoErrors(s.phase.rs)
    case ToUndo(faults) => s.phase.Acted? && |faults| == |s.phase.rs|
    case Stop(_) => true
    case Start(n, _) => s.phase.Down? && n < 0xFFFF_FFFF
  }

  /** The request list is what the phases so far make it. */
  ghost predicate Phased(s: State) {
    match s.phase
    case Down => true
    case Idle => true
    case Reserved1(rs) => forall i :: 0 <= i < |rs| && rs[i].error == NoError ==> Accepted(rs[i])
    case Reserved2(rs) => forall i :: 0 <= i < |rs| && rs[i].error == NoError ==> Ready(rs[i])
    case Acted(rs) => forall i :: 0 <= i < |rs| ==> rs[i].stash.Some? && ValidObject(rs[i].stash.value.obj)
  }

  const CPU_TEMP: Bytes := Ascii("cpuTempMilliC")

  /** What `demo_check_temp_alarm` reads: nothing unless both reads succeed. */
  function SampleOf(s: Store): seq<Sample> {
    match (s.Lookup(CacheEnv, CPU_TEMP), s.Lookup(CacheEnv, ScalarName(TempThreshold)))
    case (Some(c), Some(t)) =>
      if GetInt(c).Success? && GetInt(t).Success? then [Sample(GetInt(c).value, GetInt(t).value)] else []
    case _ => []
  }

  /** ACTION on tempThresholdMilliC checks the alarm right after a successful write. */
  function ActionSamples(s: Store, rs: seq<Request>, faults: Faults): seq<Sample>
    requires |faults| == |rs| && AllReady(rs)
  {
    if rs == [] then []
    else
      var n := |rs| - 1;
      ActionSamples(s, rs[..n], faults[..n])
      + (if faults[n].None? && Obj(rs[n]) == ScalarObject(TempThreshold)
         then SampleOf(ActionAll(s, rs, faults)) else [])
  }

  function StartStore(s: Store, n: nat, outcome: StartOutcome): Store
    requires n < 0xFFFF_FFFF
  {
    match outcome
    case BothSeeded => Started(s, n)
    case ConfigFailed => s
    case CacheFailed => Started(s, n).(cache := s.cache)
  }

  ghost function Next(s: State, e: Event): (t: State)
    requires Phased(s) && Enabled(s, e)
    ensures Phased(t)
  {
    match e
    case IpcWrite(k, v, fault) => s.(store := WriteConfig(s.store, k, v, fault))
    case Telemetry(k, v) => s.(store := s.store.Put(CacheEnv, k, v))
    case TempCheck =>
      s.(alarm := Observe(s.alarm, SampleOf(s.store)), history := s.history + SampleOf(s.store))
    case Begin(rs, walk) =>
      s.(phase := Reserved1(Reserve1All(s.store, rs, walk)))
    case ToReserve2(oom) =>
      ReservePhases(s, oom);
      s.(phase := Reserved2(Reserve2All(s.store, s.phase.rs, oom)))
    case ToFree => s.(phase := Idle)
    case ToAction(faults) =>
      var xs := ActionSamples(s.store, s.phase.rs, faults);
      State(ActionAll(s.store, s.phase.rs, faults), Acted(ActionRequests(s.phase.rs, faults)),
            Observe(s.alarm, xs), s.history + xs)
    case ToCommit => s.(phase := Idle)
    case ToUndo(faults) => s.(store := UndoAll(s.store, s.phase.rs, faults), phase := Idle)
    case Stop(reboot) => State(if reboot then Wiped(s.store) else s.store, Down, Clear, [])
    case Start(n, outcome) =>
      s.(store := StartStore(s.store, n, outcome), phase := if outcome.BothSeeded? then Idle else Down)
  }

  lemma ReservePhases(s: State, oom: seq<bool>)
    requires Phased(s) && Enabled(s, ToReserve2(oom))
    ensures var rs, qs := s.phase.rs, Reserve2All(s.store, s.phase.rs, oom);
      forall i :: 0 <= i < |rs| && qs[i].error == NoError ==> StashedFrom(s.store, qs[i])
  {
    var rs, qs := s.phase.rs, Reserve2All(s.store, s.phase.rs, oom);
    forall i | 0 <= i < |rs| && qs[i].error == NoError ensures StashedFrom(s.store, qs[i]) {
      assert Accepted(rs[i]);
      Reserve2Stashes(s.store, rs[i], oom[i]);
    }
  }

  /** Any sequence of events; one that cannot happen in the state reached is skipped. */
  ghost function Exec(s: State, es: seq<Event>): (t: State)
    requires Phased(s)
    ensures Phased(t)
  {
    if es == [] then s
    else
      var p := Exec(s, es[..|es| - 1]);
      var e := es[|es| - 1];
      if Enabled(p, e) then Next(p, e) else p
  }

  lemma {:induction false} ExecAppend(s: State, es: seq<Event>, fs: seq<Event>)
    requires Phased(s)
    ensures Exec(s, es + fs) == Exec(Exec(s, es), fs)
  {
    if fs == [] {
      assert es + fs == es;
    } else {
      var n := |fs| - 1;
      assert (es + fs)[..|es + fs| - 1] == es + fs[..n];
      ExecAppend(s, es, fs[..n]);
    }
  }

  /** One more event at the end of a run. */
  lemma ExecSnoc(s: State, es: seq<Event>, e: Event)
    requires Phased(s) && Enabled(Exec(s, es), e)
    ensures Exec(s, es + [e]) == Next(Exec(s, es), e)
  {
    assert (es + [e])[..|es|] == es;
  }

  /** One event from a state. */
  lemma ExecOne(s: State, e: Event)
    requires Phased(s) && Enabled(s, e)
    ensures Exec(s, [e]) == Next(s, e)
  {
    assert [e][..0] == [];
    assert Exec(s, [e][..0]) == s;
  }
}
