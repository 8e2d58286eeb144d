/**
 * The store behind the IPC server over a whole run: what one client's write
 * makes another client read.
 */
module IpcSession {
  import opened Types
  import opened Codec
  import opened Objects
  import opened ConfigIpc
  import opened SetAtomicity
  import opened Framing
  import opened IpcProtocol
  import IpcServer

  type Log = seq<(nat, Bytes)>

  /**
   * What happens around one handled frame: writes by others before it (Set
   * phases, telemetry, startup), the storage error it meets, if any, and whether
   * a trap it asks for goes out.
   */
  datatype Turn = Turn(others: seq<Foreign>, fault: Option<Rc>, trapSent: bool)

  ghost predicate RealTurns(turns: seq<Turn>) {
    forall i :: 0 <= i < |turns| && turns[i].fault.Some? ==> turns[i].fault.value != Ok
  }

  /** The store after a frame is handled: only a write request changes it. */
  function Effect(s: Store, f: Bytes, fault: Option<Rc>, decode: Bytes -> Option<Envelope>): Store {
    match decode(f)
    case Some(e) =>
      if e.body.WriteConfigRequest? then WriteConfig(s, e.body.wkey, e.body.value, fault) else s
    case None => s
  }

  /** The store after the first `n` frames of the log, in the order the server handled them. */
  function StoreAt(s: Store, log: Log, turns: seq<Turn>, decode: Bytes -> Option<Envelope>, n: nat): Store
    requires n <= |log| == |turns|
  {
    if n == 0 then s
    else
      var before := Apply(StoreAt(s, log, turns, decode, n - 1), turns[n - 1].others);
      Effect(before, log[n - 1].1, turns[n - 1].fault, decode)
  }

  /** The world in which frame `n` of the log is answered. */
  function ContextAt(s: Store, log: Log, turns: seq<Turn>, decode: Bytes -> Option<Envelope>, n: nat): Context
    requires n < |log| == |turns|
  {
    Context(Apply(StoreAt(s, log, turns, decode, n), turns[n].others), turns[n].fault, turns[n].trapSent)
  }

  /** The frame is a write to scalar `x` that is answered OK. */
  ghost predicate WritesScalar(f: Bytes, fault: Option<Rc>, x: Scalar, decode: Bytes -> Option<Envelope>) {
    match decode(f)
    case Some(e) =>
      e.body.WriteConfigRequest? && e.body.wkey == ScalarName(x) && WriteStatus(e.body.wkey, e.body.value, fault) == StatusOk
    case None => false
  }

  /** Any other frame leaves the scalar alone. */
  lemma EffectSpares(s: Store, f: Bytes, fault: Option<Rc>, x: Scalar, decode: Bytes -> Option<Envelope>)
    requires (fault.Some? ==> fault.value != Ok) && !WritesScalar(f, fault, x, decode)
    ensures Effect(s, f, fault, decode).Lookup(ScalarEnv(x), ScalarName(x)) == s.Lookup(ScalarEnv(x), ScalarName(x))
  {
    if decode(f).Some? && decode(f).value.body.WriteConfigRequest? {
      var b := decode(f).value.body;
      WriteConfigEffect(s, b.wkey, b.value, fault);
    }
  }

  /** An accepted write stores its value. */
  lemma EffectWrites(s: Store, f: Bytes, fault: Option<Rc>, x: Scalar, decode: Bytes -> Option<Envelope>)
    requires (fault.Some? ==> fault.value != Ok) && WritesScalar(f, fault, x, decode)
    ensures var b := decode(f).value.body;
      exists v :: Proper(b.wkey, b.value, x, v)
        && Effect(s, f, fault, decode).Lookup(ScalarEnv(x), ScalarName(x)) == Some(Encode(v))
  {
    var b := decode(f).value.body;
    WriteConfigEffect(s, b.wkey, b.value, fault);
    var y: Scalar, v: Value :|
      Proper(b.wkey, b.value, y, v)
      && WriteConfig(s, b.wkey, b.value, fault) == s.Put(ScalarEnv(y), ScalarName(y), Some(Encode(v)));
    KeyOfInjective(ScalarObject(x), ScalarObject(y));
  }

  /** Nobody writes scalar `x` after frame `i` and before frame `j` is answered. */
  ghost predicate Unwritten(log: Log, turns: seq<Turn>, decode: Bytes -> Option<Envelope>, i: nat, j: nat, x: Scalar)
    requires i < j <= |log| == |turns|
  {
    forall m :: i < m < j ==>
      !WritesScalar(log[m].1, turns[m].fault, x, decode) && !Writes(turns[m].others, ScalarEnv(x), ScalarName(x))
  }

  lemma {:induction false} ValueSurvives(
    s: Store, log: Log, turns: seq<Turn>, decode: Bytes -> Option<Envelope>, i: nat, j: nat, x: Scalar)
    requires i < j <= |log| == |turns| && RealTurns(turns) && Unwritten(log, turns, decode, i, j, x)
    ensures StoreAt(s, log, turns, decode, j).Lookup(ScalarEnv(x), ScalarName(x))
         == StoreAt(s, log, turns, decode, i + 1).Lookup(ScalarEnv(x), ScalarName(x))
    decreases j
  {
    if i + 1 < j {
      var n := j - 1;
      ValueSurvives(s, log, turns, decode, i, n, x);
      var before := StoreAt(s, log, turns, decode, n);
      ApplyUntouched(before, turns[n].others, ScalarEnv(x), ScalarName(x));
      EffectSpares(Apply(before, turns[n].others), log[n].1, turns[n].fault, x, decode);
    }
  }

  /** The body of a request frame. */
  ghost predicate Asks(f: Bytes, b: Body, decode: Bytes -> Option<Envelope>) {
    decode(f).Some? && decode(f).value.body == b
  }

  /**
   * A read is answered with the last value written: if frame `i` is a write of
   * scalar `x` answered OK, frame `j` reads `x`, and nobody writes it in between,
   * the answer is StatusOk with the value frame `i` carried.
   */
  lemma ReadsLastWrite(
    s: Store, log: Log, turns: seq<Turn>, decode: Bytes -> Option<Envelope>, i: nat, j: nat, x: Scalar, v: IpcValue)
    requires i < j < |log| == |turns| && RealTurns(turns)
    requires Asks(log[i].1, WriteConfigRequest(ScalarName(x), Some(v)), decode)
    requires Asks(log[j].1, ReadConfigRequest(ScalarName(x)), decode)
    requires WriteStatus(ScalarName(x), Some(v), turns[i].fault) == StatusOk
    requires Unwritten(log, turns, decode, i, j, x) && !Writes(turns[j].others, ScalarEnv(x), ScalarName(x))
    ensures ReplyBody(decode(log[i].1).value.body, ContextAt(s, log, turns, decode, i)) == WriteConfigResponse(StatusOk)
    ensures Carried(v).Some?
    ensures ReplyBody(decode(log[j].1).value.body, ContextAt(s, log, turns, decode, j))
         == ReadConfigResponse(StatusOk, Carried(v))
  {
    var start := Apply(StoreAt(s, log, turns, decode, i), turns[i].others);
    EffectWrites(start, log[i].1, turns[i].fault, x, decode);
    ValueSurvives(s, log, turns, decode, i, j, x);
    var before := StoreAt(s, log, turns, decode, j);
    ApplyUntouched(before, turns[j].others, ScalarEnv(x), ScalarName(x));
    ReadConfigBack(Apply(before, turns[j].others), x, Carried(v).value);
  }

  // ---- as a client sees it -----------------------------------------------

  /** The worlds in which one connection's frames are answered. */
  ghost function ContextsOn(s: Store, log: Log, turns: seq<Turn>, decode: Bytes -> Option<Envelope>, conn: nat): (cs: seq<Context>)
    requires |turns| == |log|
    ensures |cs| == |IpcServer.Handled(log, conn)|
  {
    if log == [] then []
    else
      var n := |log| - 1;
      ContextsOn(s, log[..n], turns[..n], decode, conn)
      + (if log[n].0 == conn then [ContextAt(s, log, turns, decode, n)] else [])
  }

  /** The store depends only on the frames handled so far. */
  lemma {:induction false} StoreOfPrefix(s: Store, log: Log, turns: seq<Turn>, decode: Bytes -> Option<Envelope>, n: nat, m: nat)
    requires m <= n <= |log| == |turns|
    ensures StoreAt(s, log[..n], turns[..n], decode, m) == StoreAt(s, log, turns, decode, m)
    decreases m
  {
    if m > 0 {
      StoreOfPrefix(s, log, turns, decode, n, m - 1);
      assert log[..n][m - 1] == log[m - 1] && turns[..n][m - 1] == turns[m - 1];
    }
  }

  /** Frame `j` of the log is frame number `|Handled(log[..j])|` of its connection. */
  lemma {:induction false} AtPosition(s: Store, log: Log, turns: seq<Turn>, decode: Bytes -> Option<Envelope>, j: nat)
    requires j < |log| == |turns|
    ensures var conn := log[j].0;
      var k := |IpcServer.Handled(log[..j], conn)|;
      && k < |IpcServer.Handled(log, conn)|
      && IpcServer.Handled(log, conn)[k] == log[j].1
      && ContextsOn(s, log, turns, decode, conn)[k] == ContextAt(s, log, turns, decode, j)
    decreases |log|
  {
    var n := |log| - 1;
    if j < n {
      assert log[..n][..j] == log[..j];
      AtPosition(s, log[..n], turns[..n], decode, j);
      StoreOfPrefix(s, log, turns, decode, n, j);
    }
  }

  /** The log of a run of the server. */
  function LogOf(es: seq<IpcServer.Event>, decode: Bytes -> Option<Envelope>): Log {
    IpcServer.Run(es, Closes(decode)).log
  }

  /**
   * In any run, with any clients and any chunking in both directions: when the
   * server has handled a write of `x` from some client and answered it OK, and
   * later handles a read of `x` from a client, nobody having written `x` in
   * between, then what that client reads as the response of that call is
   * StatusOk with the value written, to its own request id.
   */
  lemma ClientReadsLastWrite(
    es: seq<IpcServer.Event>, s: Store, turns: seq<Turn>, i: nat, j: nat, x: Scalar, v: IpcValue,
    requests: seq<Envelope>, got: Bytes, encode: Envelope -> Bytes, decode: Bytes -> Option<Envelope>)
    requires ResponsesFit(encode) && ResponsesDecode(encode, decode)
    requires i < j < |LogOf(es, decode)| == |turns| && RealTurns(turns)
    requires var conn := LogOf(es, decode)[j].0;
      && (forall n :: 0 <= n < |requests| ==> RequestShaped(requests[n].body) && !ClosingBody(requests[n].body))
      && Carries(requests, encode, decode)
      && ReceivedOn(es, conn, decode).Some?
      && ReceivedOn(es, conn, decode).value <= Stream(Encoded(requests, encode))
      && got <= Sent(HandledOn(es, conn, decode), ContextsOn(s, LogOf(es, decode), turns, decode, conn), encode, decode)
    requires Asks(LogOf(es, decode)[i].1, WriteConfigRequest(ScalarName(x), Some(v)), decode)
    requires Asks(LogOf(es, decode)[j].1, ReadConfigRequest(ScalarName(x)), decode)
    requires WriteStatus(ScalarName(x), Some(v), turns[i].fault) == StatusOk
    requires Unwritten(LogOf(es, decode), turns, decode, i, j, x)
    requires !Writes(turns[j].others, ScalarEnv(x), ScalarName(x))
    ensures var log := LogOf(es, decode);
      var k := |IpcServer.Handled(log[..j], log[j].0)|;
      ReadNth(got, k).Got? ==>
        && k < |requests| && requests[k].body == ReadConfigRequest(ScalarName(x))
        && decode(ReadNth(got, k).frame) == Some(Envelope(requests[k].requestId, ReadConfigResponse(StatusOk, Carried(v))))
  {
    var log := LogOf(es, decode);
    var conn := log[j].0;
    var k := |IpcServer.Handled(log[..j], conn)|;
    var cs := ContextsOn(s, log, turns, decode, conn);
    AtPosition(s, log, turns, decode, j);
    ReadsLastWrite(s, log, turns, decode, i, j, x, v);
    SynchronousClient(es, conn, requests, cs, got, k, encode, decode);
    assert HandledOn(es, conn, decode)[k] == Encoded(requests, encode)[k];
  }
}
