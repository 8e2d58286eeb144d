/**
 * What a Set does to the temperature alarm: ACTION checks the alarm after every
 * threshold it writes, and UNDO takes none of those checks back.
 */
module AgentAlarm {
  import opened Types
  import opened Codec
  import opened Objects
  import opened SetPhases
  import opened SetAtomicity
  import opened Alarm
  import opened Provisioning
  import opened Agent
  import opened AgentSets

  /** The temperature the alarm check reads, if it can be read. */
  function CpuTemp(s: Store): Option<I32> {
    match s.Lookup(CacheEnv, CPU_TEMP)
    case Some(b) => if GetInt(b).Success? then Some(GetInt(b).value) else None
    case None => None
  }

  ghost predicate WritesThreshold(r: Request, fault: Option<Rc>)
    requires Ready(r)
  {
    fault.None? && Obj(r) == ScalarObject(TempThreshold)
  }

  /** The thresholds ACTION succeeds in writing, in request order. */
  ghost function Thresholds(rs: seq<Request>, faults: Faults): seq<I32>
    requires |faults| == |rs| && AllReady(rs)
  {
    if rs == [] then []
    else
      var n := |rs| - 1;
      Thresholds(rs[..n], faults[..n]) + (if WritesThreshold(rs[n], faults[n]) then [rs[n].vb.v] else [])
  }

  /** The samples those writes amount to. */
  ghost function SetChecks(s: Store, rs: seq<Request>, faults: Faults): seq<Sample>
    requires |faults| == |rs| && AllReady(rs)
  {
    if CpuTemp(s).Some? then ChecksAt(CpuTemp(s).value, Thresholds(rs, faults)) else []
  }

  lemma CpuTempNotObject(o: Object)
    requires ValidObject(o)
    ensures KeyOf(o) != CPU_TEMP
  {
    if o.CellObject? { CellHasDot(o.column, o.inst); }
  }

  lemma ActionKeepsCpuTemp(s: Store, rs: seq<Request>, faults: Faults)
    requires |faults| == |rs| && AllReady(rs)
    ensures ActionAll(s, rs, faults).Lookup(CacheEnv, CPU_TEMP) == s.Lookup(CacheEnv, CPU_TEMP)
  {
    forall i | 0 <= i < |rs| ensures !Touches(Obj(rs[i]), CacheEnv, CPU_TEMP) { CpuTempNotObject(Obj(rs[i])); }
    ActionSparesOthers(s, rs, faults, CacheEnv, CPU_TEMP);
  }

  /** The sample ACTION takes after writing the threshold. */
  lemma OneSample(s: Store, r: Request)
    requires Ready(r) && WritesThreshold(r, None)
    ensures SampleOf(ActionStore(s, r, None)) == if CpuTemp(s).Some? then [Sample(CpuTemp(s).value, r.vb.v)] else []
  {
    NewValueInRange(r);
    CpuTempNotObject(Obj(r));
    DecodeOfEncode(NewValue(r.vb, SyntaxOf(Obj(r))));
    GettersAgree(NewBytes(r), 0);
  }

  /** ACTION's samples: one per threshold written, all at the temperature stored when it started. */
  lemma {:induction false} ActionSamplesExact(s: Store, rs: seq<Request>, faults: Faults)
    requires |faults| == |rs| && AllReady(rs)
    ensures ActionSamples(s, rs, faults) == SetChecks(s, rs, faults)
  {
    if rs != [] {
      var n := |rs| - 1;
      ActionSamplesExact(s, rs[..n], faults[..n]);
      LastCheck(s, rs, faults);
      assert ActionSamples(s, rs, faults)
          == ActionSamples(s, rs[..n], faults[..n]) + (if WritesThreshold(rs[n], faults[n]) then SampleOf(ActionAll(s, rs, faults)) else []);
    }
  }

  lemma LastCheck(s: Store, rs: seq<Request>, faults: Faults)
    requires |faults| == |rs| && rs != [] && AllReady(rs)
    ensures var n := |rs| - 1;
      SetChecks(s, rs, faults)
      == SetChecks(s, rs[..n], faults[..n]) + (if WritesThreshold(rs[n], faults[n]) then SampleOf(ActionAll(s, rs, faults)) else [])
  {
    var n := |rs| - 1;
    if WritesThreshold(rs[n], faults[n]) {
      ActionKeepsCpuTemp(s, rs[..n], faults[..n]);
      OneSample(ActionAll(s, rs[..n], faults[..n]), rs[n]);
    }
  }

  // ---- checks between the phases ----------------------------------------

  /** The samples taken by temperature checks among quiet events. */
  ghost function QuietChecks(s: State, es: seq<Event>): seq<Sample>
    requires Phased(s)
  {
    if es == [] then []
    else
      var n := |es| - 1;
      QuietChecks(s, es[..n]) + (if es[n].TempCheck? then SampleOf(Exec(s, es[..n]).store) else [])
  }

  lemma {:induction false} QuietAlarm(s: State, es: seq<Event>)
    requires Phased(s) && AllQuiet(es) && !s.phase.Down?
    ensures Exec(s, es).alarm == Observe(s.alarm, QuietChecks(s, es))
  {
    if es != [] {
      var n := |es| - 1;
      assert forall i :: 0 <= i < n ==> es[..n][i] == es[i];
      QuietAlarm(s, es[..n]);
      QuietRun(s, es[..n]);
      QuietStep(Exec(s, es[..n]), es[n]);
      if es[n].TempCheck? {
        ObserveAppend(s.alarm, QuietChecks(s, es[..n]), SampleOf(Exec(s, es[..n]).store));
      } else {
        assert QuietChecks(s, es) == QuietChecks(s, es[..n]);
      }
    }
  }

  lemma {:induction false} NoChecks(s: State, es: seq<Event>)
    requires Phased(s) && forall i :: 0 <= i < |es| ==> !es[i].TempCheck?
    ensures QuietChecks(s, es) == []
  {
    if es != [] { NoChecks(s, es[..|es| - 1]); }
  }

  /** The state ACTION starts in, and the one it leaves. */
  ghost predicate ActsAt(s: State, before: seq<Event>, faults: Faults, p: State, q: State) {
    && Phased(s) && s.phase.Reserved2? && NoErrors(s.phase.rs) && |faults| == |s.phase.rs| && AllQuiet(before)
    && p == Exec(s, before) && q == Exec(p, [ToAction(faults)])
  }

  lemma ActionAlarm(s: State, before: seq<Event>, faults: Faults, p: State, q: State)
    requires ActsAt(s, before, faults, p, q)
    ensures !q.phase.Down? && q.phase.Acted?
    ensures AllReady(s.phase.rs) && q.alarm == Observe(p.alarm, SetChecks(p.store, s.phase.rs, faults))
  {
    QuietRun(s, before);
    ExecOne(p, ToAction(faults));
    ActionSamplesExact(p.store, s.phase.rs, faults);
  }

  /**
   * The alarm after any undone Set: every check made on the way counts, ACTION's
   * own at the refused thresholds included, and UNDO adds and removes nothing.
   */
  lemma UndoneAlarm(s: State, before: seq<Event>, faults: Faults, after: seq<Event>, undoFaults: Faults, p: State, q: State)
    requires ActsAt(s, before, faults, p, q) && AllQuiet(after) && |undoFaults| == |faults|
    ensures AllReady(s.phase.rs)
    ensures Finish(s, before, faults, after, ToUndo(undoFaults)).alarm
         == Observe(s.alarm, QuietChecks(s, before) + SetChecks(p.store, s.phase.rs, faults) + QuietChecks(q, after))
  {
    QuietAlarm(s, before);
    ActionAlarm(s, before, faults, p, q);
    ObserveAppend(s.alarm, QuietChecks(s, before), SetChecks(p.store, s.phase.rs, faults));
    QuietAlarm(q, after);
    ObserveAppend(s.alarm, QuietChecks(s, before) + SetChecks(p.store, s.phase.rs, faults), QuietChecks(q, after));
    QuietRun(q, after);
    ActedRun(s, before, faults, after);
    ExecOne(Exec(q, after), ToUndo(undoFaults));
  }

  /** Without checks between ACTION and UNDO, the alarm is what ACTION made of it. */
  lemma UndoneAfterAction(s: State, before: seq<Event>, faults: Faults, after: seq<Event>, undoFaults: Faults, p: State, q: State)
    requires ActsAt(s, before, faults, p, q) && AllQuiet(after) && |undoFaults| == |faults|
    requires forall i :: 0 <= i < |after| ==> !after[i].TempCheck?
    ensures AllReady(s.phase.rs)
    ensures Finish(s, before, faults, after, ToUndo(undoFaults)).alarm
         == Observe(p.alarm, SetChecks(p.store, s.phase.rs, faults))
  {
    UndoneAlarm(s, before, faults, after, undoFaults, p, q);
    NoChecks(q, after);
    QuietAlarm(s, before);
    var xs, ys := QuietChecks(s, before), SetChecks(p.store, s.phase.rs, faults);
    assert xs + ys + [] == xs + ys;
    ObserveAppend(s.alarm, xs, ys);
  }

  /**
   * The one effect UNDO does not take back, exactly: a Set of any varbinds, with
   * any ACTION failures, UNDO failures and other writers, is invisible in the
   * alarm after UNDO if and only if the temperature could not be read, or the
   * thresholds it wrote were harmless at that temperature.
   */
  lemma AlarmOutlivesUndo(s: State, before: seq<Event>, faults: Faults, after: seq<Event>, undoFaults: Faults, p: State, q: State)
    requires ActsAt(s, before, faults, p, q) && AllQuiet(after) && |undoFaults| == |faults|
    requires forall i :: 0 <= i < |after| ==> !after[i].TempCheck?
    ensures AllReady(s.phase.rs)
    ensures Finish(s, before, faults, after, ToUndo(undoFaults)).alarm == p.alarm <==>
              CpuTemp(p.store).None? || Harmless(p.alarm, CpuTemp(p.store).value, Thresholds(s.phase.rs, faults))
  {
    UndoneAfterAction(s, before, faults, after, undoFaults, p, q);
    if CpuTemp(p.store).Some? { HarmlessIff(p.alarm, CpuTemp(p.store).value, Thresholds(s.phase.rs, faults)); }
  }

  /** For a Set of the threshold alone: harmless exactly when the new value calls for no change. */
  lemma OneThresholdHarmless(a: AlarmState, c: I32, r: Request)
    requires Ready(r) && Obj(r) == ScalarObject(TempThreshold)
    ensures Harmless(a, c, Thresholds([r], [None])) <==>
              if a.Clear? then c <= r.vb.v else c > r.vb.v - 500
  {
    assert Thresholds([r][..0], [None][..0]) == [];
    assert Thresholds([r], [None]) == [r.vb.v];
    var vs: seq<I32> := [r.vb.v];
    assert vs[0] == r.vb.v;
  }

  // ---- it happens ----------------------------------------------------------

  /** A Set of the threshold to `v`, as the master hands it over. */
  function ThresholdRequest(v: int): Request {
    Request(ScalarTarget(TempThreshold), AsnInteger(v), false, None, NoError)
  }

  /** RESERVE1 has accepted it, `was` being stored, and the temperature is `c`. */
  ghost predicate Asked(base: State, c: I32, was: I32, v: I32) {
    && base.phase == Reserved1([ThresholdRequest(v)]) && -40000 <= v <= 125000
    && CpuTemp(base.store) == Some(c)
    && base.store.Lookup(CacheEnv, ScalarName(TempThreshold)) == Some(Encode(Int32(was)))
  }

  lemma AskedReserved(base: State, c: I32, was: I32, v: I32) returns (s: State)
    requires Asked(base, c, was, v)
    ensures Phased(base) && ReservedAt(base, s, [false])
    ensures s.store == base.store && s.alarm == base.alarm && |s.phase.rs| == 1
    ensures var r := s.phase.rs[0]; Ready(r) && Obj(r) == ScalarObject(TempThreshold) && r.vb == AsnInteger(v)
  {
    assert Accepted(base.phase.rs[0]);
    DecodeOfEncode(Int32(was));
    GettersAgree(Encode(Int32(was)), 0);
    s := Next(base, ToReserve2([false]));
  }

  lemma AskedAlarm(s: State, r: Request, c: I32)
    requires Phased(s) && s.phase == Reserved2([r]) && Ready(r) && Obj(r) == ScalarObject(TempThreshold)
    requires CpuTemp(s.store) == Some(c)
    ensures Finish(s, [], [None], [], ToUndo([None])).alarm == s.alarm
       <==> if s.alarm.Clear? then c <= r.vb.v else c > r.vb.v - 500
  {
    var p := Exec(s, []);
    var q := Exec(p, [ToAction([None])]);
    AlarmOutlivesUndo(s, [], [None], [], [None], p, q);
    OneThresholdHarmless(s.alarm, c, r);
  }

  /**
   * From any state that has accepted such a Set, ACTION and UNDO with no fault
   * and no other writer give the store back, and the alarm exactly when the
   * refused value called for no change.
   */
  lemma AskedUndone(base: State, c: I32, was: I32, v: I32)
    requires Asked(base, c, was, v)
    ensures Phased(base)
    ensures var t := Exec(base, SetRun([false], [], [None], [], ToUndo([None])));
      && t.store == base.store
      && (t.alarm == base.alarm <==> if base.alarm.Clear? then c <= v else c > v - 500)
  {
    var s := AskedReserved(base, c, was, v);
    FinishAsked(base, s, c, was, v);
    var run := SetRun([false], [], [None], [], ToUndo([None]));
    assert Exec(base, []) == base;
    SetRunFinishes(base, [], [false], s, [], [None], [], ToUndo([None]));
    assert [] + run == run;
  }

  lemma FinishAsked(base: State, s: State, c: I32, was: I32, v: I32)
    requires Asked(base, c, was, v) && Phased(base) && ReservedAt(base, s, [false])
    requires s.store == base.store && s.alarm == base.alarm && |s.phase.rs| == 1
    requires var r := s.phase.rs[0]; Ready(r) && Obj(r) == ScalarObject(TempThreshold) && r.vb == AsnInteger(v)
    ensures var t := Finish(s, [], [None], [], ToUndo([None]));
      && t.store == base.store
      && (t.alarm == base.alarm <==> if base.alarm.Clear? then c <= v else c > v - 500)
  {
    AskedAlarm(s, s.phase.rs[0], c);
    FinishStore(base, s, was);
  }

  lemma FinishStore(base: State, s: State, was: I32)
    requires Phased(base) && ReservedAt(base, s, [false]) && |s.phase.rs| == 1
    requires Ready(s.phase.rs[0]) && Obj(s.phase.rs[0]) == ScalarObject(TempThreshold)
    requires base.store.Lookup(CacheEnv, ScalarName(TempThreshold)) == Some(Encode(Int32(was)))
    ensures Finish(s, [], [None], [], ToUndo([None])).store == base.store
  {
    DecodeOfEncode(Int32(was));
    assert Clean(1) == [None] && AllWrites([]) == [];
    UndoneRun(base, s, [false], [], [None], []);
    UndoIsIdentity(base.store, s.phase.rs, [None]);
  }

  const STARTING: Event := Start(4, BothSeeded)

  function Reporting(c: I32): Event { Telemetry(CPU_TEMP, Some(Encode(Int32(c)))) }

  /** It starts, the application reports a temperature, and the alarm is checked. */
  function WarmRun(c: I32): seq<Event> { [STARTING, Reporting(c)] + [TempCheck] }

  /** ... and a Set of the threshold arrives. */
  function AskingRun(c: I32, v: int): seq<Event> { WarmRun(c) + [Begin([ThresholdRequest(v)], true)] }

  /** The factory threshold is stored. */
  ghost predicate AtDefault(s: Store) {
    s.Lookup(CacheEnv, ScalarName(TempThreshold)) == Some(Encode(Int32(70000)))
  }

  lemma StartedThreshold()
    ensures var s := Exec(OFF, [STARTING]); s.phase == Idle && s.alarm == Clear && AtDefault(s.store)
  {
    ExecOne(OFF, STARTING);
    AbsentObjectSeeded(OFF.store, 4, ScalarObject(TempThreshold));
  }

  lemma Reported(s: State, c: I32)
    requires Phased(s) && AtDefault(s.store)
    ensures Enabled(s, Reporting(c))
    ensures var t := Next(s, Reporting(c));
      AtDefault(t.store) && CpuTemp(t.store) == Some(c) && SampleOf(t.store) == [Sample(c, 70000)]
  {
    forall o | ValidObject(o) ensures KeyOf(o) != CPU_TEMP { CpuTempNotObject(o); }
    assert |CPU_TEMP| != |ScalarName(TempThreshold)|;
    DecodeOfEncode(Int32(c));
    GettersAgree(Encode(Int32(c)), 0);
    DecodeOfEncode(Int32(70000));
    GettersAgree(Encode(Int32(70000)), 0);
  }

  lemma ReportedRun(c: I32)
    ensures var s := Exec(OFF, [STARTING, Reporting(c)]);
      && s.phase == Idle && s.alarm == Clear
      && AtDefault(s.store) && CpuTemp(s.store) == Some(c) && SampleOf(s.store) == [Sample(c, 70000)]
  {
    StartedThreshold();
    Reported(Exec(OFF, [STARTING]), c);
    ExecSnoc(OFF, [STARTING], Reporting(c));
    assert [STARTING] + [Reporting(c)] == [STARTING, Reporting(c)];
  }

  lemma WarmRunState(c: I32)
    ensures var s := Exec(OFF, WarmRun(c));
      && s.phase == Idle && s.alarm == (if c > 70000 then Raised else Clear)
      && AtDefault(s.store) && CpuTemp(s.store) == Some(c)
  {
    ReportedRun(c);
    ExecSnoc(OFF, [STARTING, Reporting(c)], TempCheck);
    var x := Sample(c, 70000);
    assert [x][..0] == [] && Observe(Clear, [x][..0]) == Clear;
  }

  lemma AskingRunAsks(c: I32, v: int)
    requires -40000 <= v <= 125000
    ensures Asked(Exec(OFF, AskingRun(c, v)), c, 70000, v)
    ensures Exec(OFF, AskingRun(c, v)).alarm == if c > 70000 then Raised else Clear
  {
    WarmRunState(c);
    var rs := [ThresholdRequest(v)];
    assert Fresh(rs[0]);
    ExecSnoc(OFF, WarmRun(c), Begin(rs, true));
    assert Reserve1All(Exec(OFF, WarmRun(c)).store, rs, true) == rs;
  }

  /**
   * The hazard is real. From a device that has never run: at 65 degrees a refused
   * Set of the threshold from 70 down to 60 raises the alarm, and at 80 degrees
   * one up to 100 clears it, the store being what it was.
   */
  lemma AlarmNotUndone()
    ensures var low := Exec(OFF, AskingRun(65000, 60000));
      var t := Exec(OFF, AskingRun(65000, 60000) + SetRun([false], [], [None], [], ToUndo([None])));
      low.alarm == Clear && t.alarm == Raised && t.store == low.store
    ensures var high := Exec(OFF, AskingRun(80000, 100000));
      var t := Exec(OFF, AskingRun(80000, 100000) + SetRun([false], [], [None], [], ToUndo([None])));
      high.alarm == Raised && t.alarm == Clear && t.store == high.store
  {
    AskedInRun(65000, 60000);
    AskedInRun(80000, 100000);
  }

  lemma AskedInRun(c: I32, v: I32)
    requires -40000 <= v <= 125000
    ensures var base := Exec(OFF, AskingRun(c, v));
      var t := Exec(OFF, AskingRun(c, v) + SetRun([false], [], [None], [], ToUndo([None])));
      && base.alarm == (if c > 70000 then Raised else Clear) && t.store == base.store
      && (t.alarm == base.alarm <==> if base.alarm.Clear? then c <= v else c > v - 500)
  {
    AskingRunAsks(c, v);
    AskedUndone(Exec(OFF, AskingRun(c, v)), c, 70000, v);
    ExecAppend(OFF, AskingRun(c, v), SetRun([false], [], [None], [], ToUndo([None])));
  }
}
