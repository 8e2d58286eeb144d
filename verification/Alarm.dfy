/** `src/demo_trap.c`: the edge-detecting temperature alarm. */
module Alarm {
  import opened Types

  datatype AlarmState = Clear | Raised

  /** A completed sample: both reads succeeded. */
  datatype Sample = Sample(temp: I32, threshold: I32)

  const HYSTERESIS: int := 500

  predicate Exceeds(x: Sample) { x.temp > x.threshold }

  predicate Clears(x: Sample) { x.temp <= x.threshold - HYSTERESIS }

  /** `threshold - TEMP_ALARM_HYSTERESIS_MILLIC` fits in 32 bits. */
  predicate NoOverflow(x: Sample) { x.threshold - HYSTERESIS >= -0x8000_0000 }

  function Step(a: AlarmState, x: Sample): AlarmState {
    if a.Clear? then (if Exceeds(x) then Raised else Clear)
    else (if Clears(x) then Clear else Raised)
  }

  /** The state after more completed samples. */
  function Observe(a: AlarmState, xs: seq<Sample>): AlarmState {
    if xs == [] then a else Step(Observe(a, xs[..|xs| - 1]), xs[|xs| - 1])
  }

  /** The state after a history of completed samples, from the initial CLEAR. */
  function After(xs: seq<Sample>): AlarmState { Observe(Clear, xs) }

  /** `temp_alarm_state`. */
  class TempAlarm {
    var state: AlarmState

    constructor ()
      ensures state == Clear
    {
      state := Clear;
    }

    /** `demo_check_temp_alarm`: 1 when a trap went out, 0 when none was due, -1 on an error. */
    method Check(cpu: Result<I32>, threshold: Result<I32>, sendOk: bool) returns (r: int)
      requires state.Raised? && cpu.Success? && threshold.Success? ==> NoOverflow(Sample(cpu.value, threshold.value))
      modifies this
      ensures state == if cpu.Success? && threshold.Success? && old(state).Clear? && cpu.value > threshold.value then Raised
                       else if cpu.Success? && threshold.Success? && old(state).Raised? && cpu.value <= threshold.value - 500 then Clear
                       else old(state)
      ensures if cpu.Success? && threshold.Success?
              then state == Step(old(state), Sample(cpu.value, threshold.value))
              else state == old(state)
      ensures r == 1 <==> cpu.Success? && threshold.Success? && old(state).Clear? && state.Raised? && sendOk
      ensures r == -1 <==>
                || (cpu.Failure? && cpu.rc != NotFound)
                || (cpu.Success? && threshold.Failure? && threshold.rc != NotFound)
                || (cpu.Success? && threshold.Success? && old(state).Clear? && state.Raised? && !sendOk)
      ensures r == 1 || r == 0 || r == -1
    {
      if cpu.Failure? {
        return if cpu.rc == NotFound then 0 else -1;
      }
      if threshold.Failure? {
        return if threshold.rc == NotFound then 0 else -1;
      }
      if state == Clear {
        if cpu.value > threshold.value {
          state := Raised;
          return if sendOk then 1 else -1;
        }
        return 0;
      }
      var lowered: I32 := threshold.value - HYSTERESIS;
      if cpu.value <= lowered {
        state := Clear;
      }
      return 0;
    }
  }

  /** Sample `i` raises the alarm for good: it exceeds, and no later sample clears. */
  predicate RaisesAt(xs: seq<Sample>, i: nat)
    requires i < |xs|
  {
    Exceeds(xs[i]) && forall j :: i < j < |xs| ==> !Clears(xs[j])
  }

  predicate NeverClears(xs: seq<Sample>) { forall j :: 0 <= j < |xs| ==> !Clears(xs[j]) }

  /**
   * The state after samples `xs`, from either state: raised exactly when it was
   * and no sample cleared it, or some sample raises it for good.
   */
  lemma {:induction false} ObserveIff(a: AlarmState, xs: seq<Sample>)
    ensures Observe(a, xs) == Raised <==>
              (a == Raised && NeverClears(xs)) || exists i :: 0 <= i < |xs| && RaisesAt(xs, i)
  {
    if xs != [] {
      var n := |xs| - 1;
      var init := xs[..n];
      assert forall i :: 0 <= i < n ==> init[i] == xs[i];
      ObserveIff(a, init);
      if Exceeds(xs[n]) { assert RaisesAt(xs, n); }
      if i :| 0 <= i < n && RaisesAt(init, i) && !Clears(xs[n]) { assert RaisesAt(xs, i); }
      if i :| 0 <= i < |xs| && RaisesAt(xs, i) && i < n { assert RaisesAt(init, i); }
    }
  }

  /**
   * The state as a function of history: raised exactly when some sample exceeded
   * its threshold and every later one stayed above its own threshold minus 500.
   */
  lemma RaisedIff(xs: seq<Sample>)
    ensures After(xs) == Raised <==>
              exists i :: 0 <= i < |xs| && xs[i].temp > xs[i].threshold
                          && forall j :: i < j < |xs| ==> xs[j].temp > xs[j].threshold - 500
  {
    ObserveIff(Clear, xs);
    if i :| 0 <= i < |xs| && RaisesAt(xs, i) {
      forall j | i < j < |xs| ensures xs[j].temp > xs[j].threshold - 500 { assert !Clears(xs[j]); }
    }
    if i :| 0 <= i < |xs| && xs[i].temp > xs[i].threshold && forall j :: i < j < |xs| ==> xs[j].temp > xs[j].threshold - 500 {
      assert RaisesAt(xs, i);
    }
  }

  lemma {:induction false} ObserveAppend(a: AlarmState, xs: seq<Sample>, ys: seq<Sample>)
    ensures Observe(Observe(a, xs), ys) == Observe(a, xs + ys)
  {
    if ys == [] {
      assert xs + ys == xs;
    } else {
      var n := |ys| - 1;
      ObserveAppend(a, xs, ys[..n]);
      assert (xs + ys)[..|xs + ys| - 1] == xs + ys[..n];
    }
  }

  /** The samples taken at one CPU temperature against a list of thresholds. */
  function ChecksAt(c: I32, thresholds: seq<I32>): seq<Sample> {
    seq(|thresholds|, i requires 0 <= i < |thresholds| => Sample(c, thresholds[i]))
  }

  /** Checks against these thresholds at temperature `c` call for no change in the end. */
  ghost predicate Harmless(a: AlarmState, c: I32, vs: seq<I32>) {
    if a.Clear? then forall i :: 0 <= i < |vs| && c > vs[i] ==> exists j :: i < j < |vs| && c <= vs[j] as int - 500
    else
      || (forall j :: 0 <= j < |vs| ==> c > vs[j] as int - 500)
      || (exists i :: 0 <= i < |vs| && c > vs[i] && forall j :: i < j < |vs| ==> c > vs[j] as int - 500)
  }

  /** And exactly then do they leave the alarm as it was. */
  lemma HarmlessIff(a: AlarmState, c: I32, vs: seq<I32>)
    ensures Observe(a, ChecksAt(c, vs)) == a <==> Harmless(a, c, vs)
  {
    var xs := ChecksAt(c, vs);
    ObserveIff(a, xs);
    forall i | 0 <= i < |vs|
      ensures RaisesAt(xs, i) <==> c > vs[i] && forall j :: i < j < |vs| ==> c > vs[j] - HYSTERESIS
    {
      forall j | 0 <= j < |vs| ensures Clears(xs[j]) <==> c <= vs[j] - HYSTERESIS {}
      if RaisesAt(xs, i) { forall j | i < j < |vs| ensures c > vs[j] - HYSTERESIS { assert !Clears(xs[j]); } }
    }
    if NeverClears(xs) { forall j | 0 <= j < |vs| ensures c > vs[j] - HYSTERESIS { assert !Clears(xs[j]); } }
  }

  /** The check attempts a trap on sample `i`. */
  predicate Attempts(xs: seq<Sample>, i: nat)
    requires i < |xs|
  {
    After(xs[..i]) == Clear && Exceeds(xs[i])
  }

  /** Two attempts are always separated by a sample that cleared the alarm. */
  lemma AttemptsSeparated(xs: seq<Sample>, i: nat, j: nat)
    requires i < j < |xs| && Attempts(xs, i) && Attempts(xs, j)
    ensures exists k :: i < k < j && xs[k].temp <= xs[k].threshold - 500
  {
    var ys := xs[..j];
    RaisedIff(ys);
    assert ys[i].temp > ys[i].threshold;
    var k :| i < k < |ys| && ys[k].temp <= ys[k].threshold - 500;
    assert xs[k].temp <= xs[k].threshold - 500;
  }
}
