/** Requests and responses over the socket: `handle_frame` and the Rust client. */
module IpcProtocol {
  import opened Types
  import opened Codec
  import opened Objects
  import opened ConfigIpc
  import opened Framing
  import IpcServer

  datatype Body =
    | PingRequest(nonce: U32)
    | PingResponse(echo: U32)
    | WriteConfigRequest(wkey: Bytes, value: Option<IpcValue>)
    | WriteConfigResponse(wstatus: Status)
    | ReadConfigRequest(rkey: Bytes)
    | ReadConfigResponse(rstatus: Status, read: Option<Value>)
    | SendTrapRequest(name: Bytes)
    | SendTrapResponse(tstatus: Status)
    | NoBody

  datatype Envelope = Envelope(requestId: U32, body: Body)

  /** What the world contributes to one frame: the store, a storage error, whether a trap goes out. */
  datatype Context = Context(store: Store, fault: Option<Rc>, trapSent: bool)

  predicate ClosingBody(b: Body) { b.PingResponse? || b.NoBody? }

  /** `handle_frame`'s response body; a response-shaped request is answered STATUS_INVALID on its own shape. */
  function ReplyBody(b: Body, c: Context): Body
    requires !ClosingBody(b)
  {
    match b
    case PingRequest(n) => PingResponse(n)
    case WriteConfigRequest(k, v) => WriteConfigResponse(WriteStatus(k, v, c.fault))
    case ReadConfigRequest(k) => ReadConfigResponse(ReadConfig(c.store, k).status, ReadConfig(c.store, k).value)
    case SendTrapRequest(name) =>
      SendTrapResponse(if name != Ascii("demoTempAlarm") then Invalid else if c.trapSent then StatusOk else StorageError)
    case WriteConfigResponse(_) => WriteConfigResponse(Invalid)
    case ReadConfigResponse(_, _) => ReadConfigResponse(Invalid, None)
    case SendTrapResponse(_) => SendTrapResponse(Invalid)
  }

  /** The body of a response: every value it can carry is a number or at most 256 bytes long. */
  predicate ResponseShaped(b: Body) {
    match b
    case PingResponse(_) => true
    case WriteConfigResponse(_) => true
    case ReadConfigResponse(_, v) =>
      v.Some? ==> v.value.Int32? || v.value.Uint32? || (v.value.Octets? && |v.value.octets| <= 256)
    case SendTrapResponse(_) => true
    case _ => false
  }

  function Reply(e: Envelope, c: Context): (r: Envelope)
    requires !ClosingBody(e.body)
    ensures ResponseShaped(r.body)
  {
    Envelope(e.requestId, ReplyBody(e.body, c))
  }

  /** Whether handling a frame ends the connection, sends succeeding. */
  function Closes(decode: Bytes -> Option<Envelope>): Bytes -> bool {
    f => !Stays(decode, f)
  }

  /** The frame decodes to an envelope that has an answer. */
  predicate Stays(decode: Bytes -> Option<Envelope>, f: Bytes) {
    decode(f).Some? && !ClosingBody(decode(f).value.body)
  }

  // ---- the client --------------------------------------------------------

  /** What the client sends: only request bodies. */
  predicate RequestShaped(b: Body) {
    b.PingRequest? || b.WriteConfigRequest? || b.ReadConfigRequest? || b.SendTrapRequest?
  }

  datatype Verdict = Completed | RequestIdMismatch | UnexpectedBody

  /** `roundtrip` and the `match response.body` of each call. */
  function Judge(request: Envelope, response: Envelope): Verdict {
    if response.requestId != request.requestId then RequestIdMismatch
    else
      match request.body
      case PingRequest(_) => if response.body.PingResponse? then Completed else UnexpectedBody
      case WriteConfigRequest(_, _) => if response.body.WriteConfigResponse? then Completed else UnexpectedBody
      case ReadConfigRequest(_) => if response.body.ReadConfigResponse? then Completed else UnexpectedBody
      case SendTrapRequest(_) => if response.body.SendTrapResponse? then Completed else UnexpectedBody
      case _ => UnexpectedBody
  }

  datatype FrameRead = NeedMore | TooLarge | Got(frame: Bytes, rest: Bytes)

  /** `read_frame` on the bytes that have arrived (it accepts empty frames). */
  function ReadFrame(s: Bytes): FrameRead {
    if |s| < HEADER then NeedMore
    else if Be32(s) > MAX_FRAME then TooLarge
    else if |s| < HEADER + Be32(s) then NeedMore
    else Got(s[HEADER..HEADER + Be32(s)], s[HEADER + Be32(s)..])
  }

  /** The outcome of the client's read number `k` on a byte stream. */
  function ReadNth(s: Bytes, k: nat): FrameRead {
    match ReadFrame(s)
    case Got(frame, rest) => if k == 0 then Got(frame, rest) else ReadNth(rest, k - 1)
    case stuck => stuck
  }

  lemma ReadOwnFrame(p: Bytes, rest: Bytes)
    requires |p| <= MAX_FRAME
    ensures ReadFrame(FrameOf(p) + rest) == Got(p, rest)
  {
    var s := FrameOf(p) + rest;
    assert s == BeBytes(|p|) + (p + rest);
    Be32OfBytes(|p|, p + rest);
    assert s[HEADER..HEADER + |p|] == p && s[HEADER + |p|..] == rest;
  }

  /** A read that completes on a partial stream got the frame that was written at that position. */
  lemma {:induction false} ReadInOrder(ps: seq<Bytes>, got: Bytes, k: nat)
    requires forall i :: 0 <= i < |ps| ==> |ps[i]| <= MAX_FRAME
    requires got <= Stream(ps)
    ensures !ReadNth(got, k).TooLarge?
    ensures ReadNth(got, k).Got? ==> k < |ps| && ReadNth(got, k).frame == ps[k]
  {
    if |got| >= HEADER {
      ReadOwnFrame(ps[0], Stream(ps[1..]));
      assert Be32(got) == Be32(Stream(ps)) by {
        assert got[0] == Stream(ps)[0] && got[1] == Stream(ps)[1];
        assert got[2] == Stream(ps)[2] && got[3] == Stream(ps)[3];
      }
      var n := Be32(got);
      if |got| >= HEADER + n {
        assert got[HEADER..HEADER + n] == Stream(ps)[HEADER..HEADER + n];
        if k > 0 { ReadInOrder(ps[1..], got[HEADER + n..], k - 1); }
      }
    }
  }

  /** A client read waits for the length prefix and then for the payload, and refuses lengths over 65536. */
  lemma ReadVerdict(s: Bytes)
    ensures ReadFrame(s).TooLarge? <==> |s| >= 4 && Be32(s) > 65536
    ensures ReadFrame(s).NeedMore? <==> |s| < 4 || (Be32(s) <= 65536 && |s| < 4 + Be32(s))
    ensures ReadFrame(s).Got? ==> s == s[..4] + ReadFrame(s).frame + ReadFrame(s).rest && |ReadFrame(s).frame| == Be32(s)
  {
  }

  lemma ReadStep(s: Bytes, k: nat, frame: Bytes, rest: Bytes)
    requires ReadFrame(s) == Got(frame, rest)
    ensures ReadNth(s, k) == if k == 0 then Got(frame, rest) else ReadNth(rest, k - 1)
  {
  }

  lemma ReadFirst(ps: seq<Bytes>, k: nat)
    requires ps != [] && forall i :: 0 <= i < |ps| ==> |ps[i]| <= MAX_FRAME
    ensures forall i :: 0 <= i < |ps[1..]| ==> |ps[1..][i]| <= MAX_FRAME
    ensures ReadNth(Stream(ps), k) == if k == 0 then Got(ps[0], Stream(ps[1..])) else ReadNth(Stream(ps[1..]), k - 1)
  {
    ReadOwnFrame(ps[0], Stream(ps[1..]));
    ReadStep(FrameOf(ps[0]) + Stream(ps[1..]), k, ps[0], Stream(ps[1..]));
  }

  /** Once the whole stream has arrived every frame of it can be read. */
  lemma {:induction false} ReadAll(ps: seq<Bytes>, k: nat)
    requires forall i :: 0 <= i < |ps| ==> |ps[i]| <= MAX_FRAME
    requires k < |ps|
    ensures ReadNth(Stream(ps), k).Got?
  {
    ReadFirst(ps, k);
    if k > 0 { ReadAll(ps[1..], k - 1); }
  }

  // ---- one request, one response -----------------------------------------

  /** A response echoes the request's id, and its sender accepts the body exactly for request-shaped bodies. */
  lemma ReplyAccepted(e: Envelope, c: Context)
    requires !ClosingBody(e.body)
    ensures Reply(e, c).requestId == e.requestId
    ensures Judge(e, Reply(e, c)) == if RequestShaped(e.body) then Completed else UnexpectedBody
  {
  }

  /**
   * What each request is answered: a ping with its nonce, a trap request with
   * STATUS_OK exactly when it names the one trap there is and it went out, and a
   * response-shaped body with STATUS_INVALID on its own shape.
   */
  lemma ReplyVerdict(e: Envelope, c: Context)
    requires !ClosingBody(e.body)
    ensures e.body.PingRequest? ==> Reply(e, c) == Envelope(e.requestId, PingResponse(e.body.nonce))
    ensures e.body.SendTrapRequest? ==>
      && Reply(e, c).body.SendTrapResponse?
      && (Reply(e, c).body.tstatus == StatusOk <==> e.body.name == Ascii("demoTempAlarm") && c.trapSent)
      && (Reply(e, c).body.tstatus == StorageError <==> e.body.name == Ascii("demoTempAlarm") && !c.trapSent)
      && (Reply(e, c).body.tstatus == Invalid <==> e.body.name != Ascii("demoTempAlarm"))
    ensures e.body.WriteConfigResponse? ==> Reply(e, c) == Envelope(e.requestId, WriteConfigResponse(Invalid))
    ensures e.body.ReadConfigResponse? ==> Reply(e, c) == Envelope(e.requestId, ReadConfigResponse(Invalid, None))
    ensures e.body.SendTrapResponse? ==> Reply(e, c) == Envelope(e.requestId, SendTrapResponse(Invalid))
  {
  }

  /** The client takes a response exactly when id and body variant are its request's. */
  lemma JudgeVerdict(request: Envelope, response: Envelope)
    requires RequestShaped(request.body)
    ensures Judge(request, response) == RequestIdMismatch <==> response.requestId != request.requestId
    ensures Judge(request, response) == Completed <==>
              && response.requestId == request.requestId
              && (request.body.PingRequest? <==> response.body.PingResponse?)
              && (request.body.WriteConfigRequest? <==> response.body.WriteConfigResponse?)
              && (request.body.ReadConfigRequest? <==> response.body.ReadConfigResponse?)
              && (request.body.SendTrapRequest? <==> response.body.SendTrapResponse?)
  {
  }

  function Encoded(es: seq<Envelope>, encode: Envelope -> Bytes): seq<Bytes> {
    seq(|es|, i requires 0 <= i < |es| => encode(es[i]))
  }

  /** The wire codec carries these envelopes: they decode to themselves and fit a frame. */
  ghost predicate Carries(es: seq<Envelope>, encode: Envelope -> Bytes, decode: Bytes -> Option<Envelope>) {
    forall i :: 0 <= i < |es| ==> 0 < |encode(es[i])| <= MAX_FRAME && decode(encode(es[i])) == Some(es[i])
  }

  /** `IPC_SEND_BUF_SIZE`. */
  const SEND_BUF: nat := 1024

  /** Responses, which are small, fit the send buffer. */
  ghost predicate ResponsesFit(encode: Envelope -> Bytes) {
    forall e: Envelope :: ResponseShaped(e.body) ==> |encode(e)| <= SEND_BUF
  }

  /** ... and decode to themselves. */
  ghost predicate ResponsesDecode(encode: Envelope -> Bytes, decode: Bytes -> Option<Envelope>) {
    forall e: Envelope :: ResponseShaped(e.body) ==> decode(encode(e)) == Some(e)
  }

  // ---- the server's output ------------------------------------------------

  /**
   * `handle_frame` and `send_envelope` on one frame: the bytes sent back, or
   * `None` when the connection is closed, which a response too long for the
   * send buffer would do as well.
   */
  function Answer(f: Bytes, c: Context, encode: Envelope -> Bytes, decode: Bytes -> Option<Envelope>): Option<Bytes> {
    if !Stays(decode, f) then None
    else
      var payload := encode(Reply(decode(f).value, c));
      if |payload| > SEND_BUF then None else Some(FrameOf(payload))
  }

  method HandleFrame(frame: Bytes, c: Context, encode: Envelope -> Bytes, decode: Bytes -> Option<Envelope>)
    returns (out: Option<Bytes>)
    ensures out == Answer(frame, c, encode, decode)
    ensures out.None? <==>
              || decode(frame).None? || decode(frame).value.body.PingResponse? || decode(frame).value.body.NoBody?
              || |encode(Reply(decode(frame).value, c))| > 1024
    ensures ResponsesFit(encode) ==> (out.None? <==> Closes(decode)(frame))
    ensures out.Some? ==> ReadFrame(out.value) == Got(encode(Reply(decode(frame).value, c)), [])
  {
    var request := decode(frame);
    if request.None? || ClosingBody(request.value.body) {
      return None;
    }
    var payload := encode(Reply(request.value, c));
    if |payload| > SEND_BUF {
      return None;
    }
    ReadOwnFrame(payload, []);
    assert FrameOf(payload) + [] == FrameOf(payload);
    return Some(BeBytes(|payload|) + payload);
  }

  /** The bytes a connection is sent for the frames handled on it, `cs[i]` being the world at frame `i`. */
  function Sent(frames: seq<Bytes>, cs: seq<Context>, encode: Envelope -> Bytes, decode: Bytes -> Option<Envelope>): Bytes
    requires |cs| == |frames|
  {
    if frames == [] then []
    else
      match Answer(frames[0], cs[0], encode, decode)
      case None => []
      case Some(out) => out + Sent(frames[1..], cs[1..], encode, decode)
  }

  /** The handling of a connection's frames, one after the other, until one closes it. */
  method AnswerFrames(frames: seq<Bytes>, cs: seq<Context>, encode: Envelope -> Bytes, decode: Bytes -> Option<Envelope>)
    returns (out: Bytes)
    requires |cs| == |frames|
    ensures out == Sent(frames, cs, encode, decode)
  {
    out := [];
    var i := 0;
    assert frames[0..] == frames && cs[0..] == cs;
    while i < |frames|
      invariant i <= |frames|
      invariant Sent(frames, cs, encode, decode) == out + Sent(frames[i..], cs[i..], encode, decode)
    {
      assert frames[i..][1..] == frames[i + 1..] && cs[i..][1..] == cs[i + 1..];
      var reply := HandleFrame(frames[i], cs[i], encode, decode);
      if reply.None? {
        return;
      }
      assert out + (reply.value + Sent(frames[i + 1..], cs[i + 1..], encode, decode))
          == out + reply.value + Sent(frames[i + 1..], cs[i + 1..], encode, decode);
      out := out + reply.value;
      i := i + 1;
    }
  }

  ghost predicate AllStay(frames: seq<Bytes>, decode: Bytes -> Option<Envelope>) {
    forall i :: 0 <= i < |frames| ==> Stays(decode, frames[i])
  }

  /** The responses owed for frames that do not close: one each, in frame order, to the request inside it. */
  ghost function Responses(frames: seq<Bytes>, cs: seq<Context>, decode: Bytes -> Option<Envelope>): (rs: seq<Envelope>)
    requires |cs| == |frames| && AllStay(frames, decode)
    ensures |rs| == |frames|
    ensures forall i :: 0 <= i < |rs| ==> rs[i] == Reply(decode(frames[i]).value, cs[i])
  {
    seq(|frames|, i requires 0 <= i < |frames| && Stays(decode, frames[i]) => Reply(decode(frames[i]).value, cs[i]))
  }

  lemma {:induction false} SentIsResponses(
    frames: seq<Bytes>, cs: seq<Context>, encode: Envelope -> Bytes, decode: Bytes -> Option<Envelope>)
    requires |cs| == |frames| && AllStay(frames, decode) && ResponsesFit(encode)
    ensures Sent(frames, cs, encode, decode) == Stream(Encoded(Responses(frames, cs, decode), encode))
  {
    if frames != [] {
      SentIsResponses(frames[1..], cs[1..], encode, decode);
      var all := Encoded(Responses(frames, cs, decode), encode);
      assert all[1..] == Encoded(Responses(frames[1..], cs[1..], decode), encode);
    }
  }

  /** Nothing is sent for a frame that closes. */
  lemma {:induction false} SentStops(
    frames: seq<Bytes>, cs: seq<Context>, n: nat, encode: Envelope -> Bytes, decode: Bytes -> Option<Envelope>)
    requires |cs| == |frames| && n < |frames| && !Stays(decode, frames[n])
    ensures Sent(frames, cs, encode, decode) == Sent(frames[..n], cs[..n], encode, decode)
  {
    if n > 0 {
      SentStops(frames[1..], cs[1..], n - 1, encode, decode);
      assert frames[..n][1..] == frames[1..][..n - 1] && cs[..n][1..] == cs[1..][..n - 1];
    }
  }

  /** The frames that are answered: all but a last one that closes. */
  ghost function Answered(frames: seq<Bytes>, decode: Bytes -> Option<Envelope>): (n: nat)
    ensures n <= |frames|
  {
    if frames != [] && !Stays(decode, frames[|frames| - 1]) then |frames| - 1 else |frames|
  }

  lemma SentOfHandled(frames: seq<Bytes>, cs: seq<Context>, encode: Envelope -> Bytes, decode: Bytes -> Option<Envelope>)
    requires |cs| == |frames| && ResponsesFit(encode)
    requires forall i :: 0 <= i < |frames| - 1 ==> Stays(decode, frames[i])
    ensures var n := Answered(frames, decode);
      && AllStay(frames[..n], decode)
      && Sent(frames, cs, encode, decode) == Stream(Encoded(Responses(frames[..n], cs[..n], decode), encode))
  {
    var n := Answered(frames, decode);
    if n < |frames| {
      SentStops(frames, cs, n, encode, decode);
    } else {
      assert frames[..n] == frames && cs[..n] == cs;
    }
    SentIsResponses(frames[..n], cs[..n], encode, decode);
  }

  /** The frames a run of the server handled for a connection. */
  function HandledOn(es: seq<IpcServer.Event>, conn: nat, decode: Bytes -> Option<Envelope>): seq<Bytes> {
    IpcServer.Handled(IpcServer.Run(es, Closes(decode)).log, conn)
  }

  /** The bytes it received on that connection, if it ever accepted it. */
  function ReceivedOn(es: seq<IpcServer.Event>, conn: nat, decode: Bytes -> Option<Envelope>): Option<Bytes> {
    var received := IpcServer.Run(es, Closes(decode)).received;
    if conn in received then Some(received[conn]) else None
  }

  /**
   * In any run and for any connection, what the server has sent is the stream of
   * exactly one response per handled frame that does not close, in frame order.
   */
  lemma OneResponsePerFrame(
    es: seq<IpcServer.Event>, conn: nat, cs: seq<Context>, encode: Envelope -> Bytes, decode: Bytes -> Option<Envelope>)
    requires ReceivedOn(es, conn, decode).Some? && ResponsesFit(encode)
    requires |cs| == |HandledOn(es, conn, decode)|
    ensures var frames := HandledOn(es, conn, decode);
      var n := Answered(frames, decode);
      && AllStay(frames[..n], decode)
      && Sent(frames, cs, encode, decode) == Stream(Encoded(Responses(frames[..n], cs[..n], decode), encode))
  {
    var frames := HandledOn(es, conn, decode);
    var closes := Closes(decode);
    IpcServer.ClientsIsolated(es, closes, conn);
    NothingAfterClosing(ReceivedOn(es, conn, decode).value, closes);
    forall i | 0 <= i < |frames| - 1 ensures Stays(decode, frames[i]) {
      assert !closes(frames[i]);
    }
    SentOfHandled(frames, cs, encode, decode);
  }

  /**
   * In any server run, with any other clients and any chunking in both
   * directions: the frames handled for a connection are an initial part of those
   * its client sent, and every response the client completely reads from what
   * the server sent is judged `Completed` against the request of the same call
   * -- never RequestIdMismatch, never UnexpectedBody. Once everything has
   * arrived on both sides, every call has completed.
   */
  lemma SynchronousClient(
    es: seq<IpcServer.Event>, conn: nat, requests: seq<Envelope>, cs: seq<Context>, got: Bytes, k: nat,
    encode: Envelope -> Bytes, decode: Bytes -> Option<Envelope>)
    requires ResponsesFit(encode) && ResponsesDecode(encode, decode)
    requires forall i :: 0 <= i < |requests| ==> RequestShaped(requests[i].body) && !ClosingBody(requests[i].body)
    requires Carries(requests, encode, decode)
    requires ReceivedOn(es, conn, decode).Some?
    requires ReceivedOn(es, conn, decode).value <= Stream(Encoded(requests, encode))
    requires |cs| == |HandledOn(es, conn, decode)|
    requires got <= Sent(HandledOn(es, conn, decode), cs, encode, decode)
    ensures HandledOn(es, conn, decode) <= Encoded(requests, encode)
    ensures !ReadNth(got, k).TooLarge?
    ensures ReadNth(got, k).Got? ==>
              && k < |HandledOn(es, conn, decode)|
              && decode(ReadNth(got, k).frame) == Some(Reply(requests[k], cs[k]))
              && Judge(requests[k], decode(ReadNth(got, k).frame).value) == Completed
    ensures
      && ReceivedOn(es, conn, decode) == Some(Stream(Encoded(requests, encode)))
      && got == Sent(HandledOn(es, conn, decode), cs, encode, decode)
      && k < |requests|
      ==> ReadNth(got, k).Got?
  {
    var frames := HandledOn(es, conn, decode);
    IpcServer.PayloadsDelivered(es, Closes(decode), conn, Encoded(requests, encode));
    forall i | 0 <= i < |frames| ensures decode(frames[i]) == Some(requests[i]) {
      assert frames[i] == Encoded(requests, encode)[i];
    }
    SentIsResponses(frames, cs, encode, decode);
    var replies := Responses(frames, cs, decode);
    ReadInOrder(Encoded(replies, encode), got, k);
    if k < |frames| {
      ReadAll(Encoded(replies, encode), k);
      ReplyAccepted(requests[k], cs[k]);
    }
  }

  /**
   * The same runs, as the calls see them: a completed ping gets its own nonce
   * back, and a completed trap request STATUS_OK exactly when it named the trap
   * and the trap went out.
   */
  lemma CompletedCalls(
    es: seq<IpcServer.Event>, conn: nat, requests: seq<Envelope>, cs: seq<Context>, got: Bytes, k: nat,
    encode: Envelope -> Bytes, decode: Bytes -> Option<Envelope>)
    requires ResponsesFit(encode) && ResponsesDecode(encode, decode)
    requires forall i :: 0 <= i < |requests| ==> RequestShaped(requests[i].body) && !ClosingBody(requests[i].body)
    requires Carries(requests, encode, decode)
    requires ReceivedOn(es, conn, decode).Some?
    requires ReceivedOn(es, conn, decode).value <= Stream(Encoded(requests, encode))
    requires |cs| == |HandledOn(es, conn, decode)|
    requires got <= Sent(HandledOn(es, conn, decode), cs, encode, decode)
    requires ReadNth(got, k).Got?
    ensures k < |requests| && k < |cs|
    ensures requests[k].body.PingRequest? ==>
              decode(ReadNth(got, k).frame) == Some(Envelope(requests[k].requestId, PingResponse(requests[k].body.nonce)))
    ensures requests[k].body.SendTrapRequest? ==>
              exists status :: decode(ReadNth(got, k).frame) == Some(Envelope(requests[k].requestId, SendTrapResponse(status)))
                && (status == StatusOk <==> requests[k].body.name == Ascii("demoTempAlarm") && cs[k].trapSent)
  {
    SynchronousClient(es, conn, requests, cs, got, k, encode, decode);
    ReplyVerdict(requests[k], cs[k]);
    if requests[k].body.SendTrapRequest? {
      var status := Reply(requests[k], cs[k]).body.tstatus;
      assert Reply(requests[k], cs[k]) == Envelope(requests[k].requestId, SendTrapResponse(status));
    }
  }
}
