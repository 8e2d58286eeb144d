/**
 * `src/ipc_server.c`: eight client slots driven by accepts, reads of any size
 * and disconnects, as a state machine over whole runs.
 */
module IpcServer {
  import opened Types
  import opened Framing

  const MAX_CLIENTS: nat := 8

  /** A slot holds a connection and the bytes it has buffered. Connections are numbered as accepted. */
  datatype Slot = Free | Open(conn: nat, buffer: Bytes)

  /**
   * `log` lists every frame given to `handle_frame`, with the connection it was
   * answered on; `received` is each connection's byte stream so far.
   */
  datatype Server = Server(slots: seq<Slot>, nextConn: nat, log: seq<(nat, Bytes)>, received: map<nat, Bytes>)

  datatype Event =
    | Accept
    | Read(slot: nat, chunk: Bytes)
    | Disconnect(slot: nat)

  function Start(): Server { Server(seq(MAX_CLIENTS, _ => Free), 0, [], map[]) }

  /** `find_free_slot`: the lowest free index, or -1. */
  function FreeSlot(slots: seq<Slot>): (i: int)
    ensures -1 <= i < |slots|
    ensures i >= 0 ==> slots[i].Free? && forall j :: 0 <= j < i ==> slots[j].Open?
    ensures i < 0 ==> forall j :: 0 <= j < |slots| ==> slots[j].Open?
  {
    if slots == [] then -1
    else if slots[0].Free? then 0
    else var i := FreeSlot(slots[1..]); if i < 0 then -1 else i + 1
  }

  function Tagged(conn: nat, frames: seq<Bytes>): seq<(nat, Bytes)> {
    seq(|frames|, i requires 0 <= i < |frames| => (conn, frames[i]))
  }

  /** One event; a read or disconnect on a slot that is not in use does not happen. */
  function Next(s: Server, e: Event, closes: Bytes -> bool): Server {
    match e
    case Accept =>
      var i := FreeSlot(s.slots);
      var t := s.(nextConn := s.nextConn + 1, received := s.received[s.nextConn := []]);
      if i < 0 then t else t.(slots := s.slots[i := Open(s.nextConn, [])])
    case Read(i, chunk) =>
      if i < |s.slots| && s.slots[i].Open? then
        var c := s.slots[i].conn;
        var r := Parse(s.slots[i].buffer + chunk, closes);
        s.(slots := s.slots[i := if r.closed then Free else Open(c, r.rest)],
           log := s.log + Tagged(c, r.frames),
           received := s.received[c := (if c in s.received then s.received[c] else []) + chunk])
      else s
    case Disconnect(i) =>
      if i < |s.slots| && s.slots[i].Open? then s.(slots := s.slots[i := Free]) else s
  }

  function Run(es: seq<Event>, closes: Bytes -> bool): Server {
    if es == [] then Start() else Next(Run(es[..|es| - 1], closes), es[|es| - 1], closes)
  }

  /** The frames of the log that belong to one connection, in order. */
  function Handled(log: seq<(nat, Bytes)>, conn: nat): seq<Bytes> {
    if log == [] then []
    else
      var n := |log| - 1;
      Handled(log[..n], conn) + (if log[n].0 == conn then [log[n].1] else [])
  }

  lemma HandledSnoc(log: seq<(nat, Bytes)>, x: (nat, Bytes), conn: nat)
    ensures Handled(log + [x], conn) == Handled(log, conn) + (if x.0 == conn then [x.1] else [])
  {
    assert (log + [x])[..|log|] == log;
  }

  lemma TaggedSnoc(log: seq<(nat, Bytes)>, c: nat, frames: seq<Bytes>)
    requires frames != []
    ensures var n := |frames| - 1;
      && log + Tagged(c, frames) == log + Tagged(c, frames[..n]) + [(c, frames[n])]
      && frames == frames[..n] + [frames[n]]
  {
  }

  lemma {:induction false} HandledAppend(log: seq<(nat, Bytes)>, c: nat, frames: seq<Bytes>, conn: nat)
    ensures Handled(log + Tagged(c, frames), conn) == Handled(log, conn) + (if c == conn then frames else [])
  {
    if frames == [] {
      assert log + Tagged(c, frames) == log;
    } else {
      var n := |frames| - 1;
      TaggedSnoc(log, c, frames);
      HandledSnoc(log + Tagged(c, frames[..n]), (c, frames[n]), conn);
      HandledAppend(log, c, frames[..n], conn);
    }
  }

  /** What connection `conn`'s own bytes mean. */
  function Meaning(s: Server, conn: nat, closes: Bytes -> bool): Outcome
    requires conn in s.received
  {
    Parse(s.received[conn], closes)
  }

  ghost predicate SlotInv(s: Server, i: nat, closes: Bytes -> bool)
    requires i < |s.slots|
  {
    s.slots[i].Open? ==>
      var c := s.slots[i].conn;
      && c in s.received
      && !Meaning(s, c, closes).closed
      && s.slots[i].buffer == Meaning(s, c, closes).rest
  }

  ghost predicate Inv(s: Server, closes: Bytes -> bool) {
    && |s.slots| == MAX_CLIENTS
    && (forall c: nat :: c in s.received <==> c < s.nextConn)
    && (forall i :: 0 <= i < |s.slots| ==> SlotInv(s, i, closes))
    && (forall i, j :: 0 <= i < j < |s.slots| && s.slots[i].Open? && s.slots[j].Open? ==> s.slots[i].conn != s.slots[j].conn)
    && (forall i :: 0 <= i < |s.log| ==> s.log[i].0 < s.nextConn)
    && (forall c: nat :: c in s.received ==> Handled(s.log, c) == Meaning(s, c, closes).frames)
  }

  lemma {:induction false} HandledNone(log: seq<(nat, Bytes)>, conn: nat)
    requires forall i :: 0 <= i < |log| ==> log[i].0 != conn
    ensures Handled(log, conn) == []
  {
    if log != [] { HandledNone(log[..|log| - 1], conn); }
  }

  lemma AcceptInv(s: Server, closes: Bytes -> bool)
    requires Inv(s, closes)
    ensures Inv(Next(s, Accept, closes), closes)
  {
    AcceptSlots(s, closes);
    AcceptLog(s, closes);
  }

  lemma AcceptLog(s: Server, closes: Bytes -> bool)
    requires Inv(s, closes)
    ensures var t := Next(s, Accept, closes);
      forall c: nat :: c in t.received ==> Handled(t.log, c) == Meaning(t, c, closes).frames
  {
    var t := Next(s, Accept, closes);
    HandledNone(s.log, s.nextConn);
    assert Parse([], closes) == Outcome([], [], false);
    forall c: nat | c in t.received ensures Handled(t.log, c) == Meaning(t, c, closes).frames {
      if c != s.nextConn { assert t.received[c] == s.received[c]; }
    }
  }

  lemma AcceptSlots(s: Server, closes: Bytes -> bool)
    requires Inv(s, closes)
    ensures var t := Next(s, Accept, closes);
      && (forall i :: 0 <= i < |t.slots| ==> SlotInv(t, i, closes))
      && (forall i, j :: 0 <= i < j < |t.slots| && t.slots[i].Open? && t.slots[j].Open? ==> t.slots[i].conn != t.slots[j].conn)
  {
    var t := Next(s, Accept, closes);
    assert Parse([], closes) == Outcome([], [], false);
    forall i | 0 <= i < |s.slots| && s.slots[i].Open? ensures s.slots[i].conn < s.nextConn {
      assert SlotInv(s, i, closes);
    }
    forall i | 0 <= i < |t.slots| ensures SlotInv(t, i, closes) {
      assert SlotInv(s, i, closes);
    }
  }

  lemma ReadInv(s: Server, k: nat, chunk: Bytes, closes: Bytes -> bool)
    requires Inv(s, closes)
    ensures Inv(Next(s, Read(k, chunk), closes), closes)
  {
    if k < |s.slots| && s.slots[k].Open? {
      assert SlotInv(s, k, closes);
      ReadLog(s, k, chunk, closes);
      ReadSlots(s, k, chunk, closes);
    }
  }

  /** What a read adds to a connection's meaning. */
  lemma ReadMeaning(s: Server, k: nat, chunk: Bytes, closes: Bytes -> bool)
    requires Inv(s, closes) && k < |s.slots| && s.slots[k].Open?
    ensures var c, r := s.slots[k].conn, Parse(s.slots[k].buffer + chunk, closes);
      && c in s.received
      && Parse(s.received[c] + chunk, closes) == Then(Parse(s.received[c], closes), r)
  {
    assert SlotInv(s, k, closes);
    ParseChunks(s.received[s.slots[k].conn], chunk, closes);
  }

  lemma ReadLog(s: Server, k: nat, chunk: Bytes, closes: Bytes -> bool)
    requires Inv(s, closes) && k < |s.slots| && s.slots[k].Open?
    ensures var t := Next(s, Read(k, chunk), closes);
      && (forall c: nat :: c in t.received <==> c < t.nextConn)
      && (forall i :: 0 <= i < |t.log| ==> t.log[i].0 < t.nextConn)
      && forall d: nat :: d in t.received ==> Handled(t.log, d) == Meaning(t, d, closes).frames
  {
    ReadMeaning(s, k, chunk, closes);
    var t, c := Next(s, Read(k, chunk), closes), s.slots[k].conn;
    var r := Parse(s.slots[k].buffer + chunk, closes);
    forall d: nat | d in t.received ensures Handled(t.log, d) == Meaning(t, d, closes).frames {
      HandledAppend(s.log, c, r.frames, d);
      if d != c { assert t.received[d] == s.received[d]; }
    }
  }

  lemma ReadSlots(s: Server, k: nat, chunk: Bytes, closes: Bytes -> bool)
    requires Inv(s, closes) && k < |s.slots| && s.slots[k].Open?
    ensures var t := Next(s, Read(k, chunk), closes);
      && (forall i :: 0 <= i < |t.slots| ==> SlotInv(t, i, closes))
      && (forall i, j :: 0 <= i < j < |t.slots| && t.slots[i].Open? && t.slots[j].Open? ==> t.slots[i].conn != t.slots[j].conn)
  {
    ReadMeaning(s, k, chunk, closes);
    var t := Next(s, Read(k, chunk), closes);
    forall i | 0 <= i < |t.slots| ensures SlotInv(t, i, closes) { assert SlotInv(s, i, closes); }
  }

  lemma {:induction false} RunInv(es: seq<Event>, closes: Bytes -> bool)
    ensures Inv(Run(es, closes), closes)
  {
    if es != [] {
      var n := |es| - 1;
      RunInv(es[..n], closes);
      var s := Run(es[..n], closes);
      match es[n]
      case Accept => AcceptInv(s, closes);
      case Read(k, chunk) => ReadInv(s, k, chunk, closes);
      case Disconnect(k) =>
        var t := Next(s, es[n], closes);
        forall i | 0 <= i < |t.slots| ensures SlotInv(t, i, closes) { assert SlotInv(s, i, closes); }
    }
  }

  /**
   * Chunking and client isolation: in any run, with any interleaving of accepts,
   * reads of any sizes and disconnects, slots being reused, the frames handled
   * for a connection are exactly those its own byte stream means, up to the
   * first closing one.
   */
  lemma ClientsIsolated(es: seq<Event>, closes: Bytes -> bool, conn: nat)
    requires conn in Run(es, closes).received
    ensures var s := Run(es, closes);
      Handled(s.log, conn) == Parse(s.received[conn], closes).frames
  {
    RunInv(es, closes);
  }

  /** In every reachable state every open slot has room for more than a maximal frame. */
  lemma BufferNeverFills(es: seq<Event>, closes: Bytes -> bool, i: nat)
    requires i < |Run(es, closes).slots| && Run(es, closes).slots[i].Open?
    ensures |Run(es, closes).slots[i].buffer| < 4 + 65536 < 131080 == BUF_SIZE
  {
    RunInv(es, closes);
    var s := Run(es, closes);
    assert SlotInv(s, i, closes);
    RestIsShort(s.received[s.slots[i].conn], closes);
  }

  /**
   * What a client writes frame by frame is what the server handles for it: at
   * any moment an initial part of its payloads, and all of them once every byte
   * has arrived, whatever the other clients do.
   */
  lemma PayloadsDelivered(es: seq<Event>, closes: Bytes -> bool, conn: nat, ps: seq<Bytes>)
    requires conn in Run(es, closes).received
    requires forall i :: 0 <= i < |ps| ==> 0 < |ps[i]| <= MAX_FRAME && !closes(ps[i])
    requires Run(es, closes).received[conn] <= Stream(ps)
    ensures var s := Run(es, closes);
      && Handled(s.log, conn) <= ps
      && (s.received[conn] == Stream(ps) ==> Handled(s.log, conn) == ps)
  {
    ClientsIsolated(es, closes, conn);
    DeliveredPrefix(ps, Run(es, closes).received[conn], closes);
    StreamDelivered(ps, closes);
  }

  /**
   * In every run there are eight slots. An accept puts the connection, with
   * nothing received, into the lowest free one; with eight connections open it
   * is turned away.
   */
  lemma AcceptTakesLowest(es: seq<Event>, closes: Bytes -> bool, i: nat)
    ensures var s, t := Run(es, closes), Run(es + [Accept], closes);
      && |s.slots| == 8
      && (i < 8 && s.slots[i].Free? && (forall j :: 0 <= j < i ==> s.slots[j].Open?) ==>
            t.slots == s.slots[i := Open(s.nextConn, [])])
      && ((forall j :: 0 <= j < 8 ==> s.slots[j].Open?) ==> t.slots == s.slots)
      && t.log == s.log && t.nextConn == s.nextConn + 1
  {
    RunInv(es, closes);
    assert (es + [Accept])[..|es|] == es;
  }

  /** A disconnect frees its slot and does nothing else. */
  lemma DisconnectFrees(es: seq<Event>, closes: Bytes -> bool, k: nat)
    requires k < 8
    ensures var s, t := Run(es, closes), Run(es + [Disconnect(k)], closes);
      |s.slots| == 8 && t == s.(slots := s.slots[k := Free])
  {
    RunInv(es, closes);
    assert (es + [Disconnect(k)])[..|es|] == es;
    var s := Run(es, closes);
    if s.slots[k].Free? { assert s.slots[k := Free] == s.slots; }
  }

  // ---- one `service_client` call as steps of the machine -----------------

  function From(s: Server, es: seq<Event>, closes: Bytes -> bool): Server
    decreases |es|
  {
    if es == [] then s else From(Next(s, es[0], closes), es[1..], closes)
  }

  lemma {:induction false} RunFrom(past: seq<Event>, es: seq<Event>, closes: Bytes -> bool)
    ensures From(Run(past, closes), es, closes) == Run(past + es, closes)
    decreases |es|
  {
    if es == [] {
      assert past + es == past;
    } else {
      assert (past + [es[0]])[..|past|] == past;
      RunFrom(past + [es[0]], es[1..], closes);
      assert past + [es[0]] + es[1..] == past + es;
    }
  }

  /** The events the read results of one call on slot `i` amount to. */
  function EventsOf(i: nat, arrivals: seq<ReadEvent>): seq<Event>
    decreases |arrivals|
  {
    if arrivals == [] then []
    else
      match arrivals[0]
      case Data(chunk) => [Read(i, chunk)] + EventsOf(i, arrivals[1..])
      case Interrupted => EventsOf(i, arrivals[1..])
      case WouldBlock => []
      case Eof => [Disconnect(i)]
      case ReadError => [Disconnect(i)]
  }

  /** Events on a slot that is free change nothing. */
  lemma {:induction false} ClosedSlotQuiet(s: Server, i: nat, arrivals: seq<ReadEvent>, closes: Bytes -> bool)
    requires i < |s.slots| && s.slots[i].Free?
    ensures From(s, EventsOf(i, arrivals), closes) == s
    decreases |arrivals|
  {
    if arrivals != [] {
      match arrivals[0]
      case Data(chunk) =>
        var es := EventsOf(i, arrivals[1..]);
        assert ([Read(i, chunk)] + es)[1..] == es;
        ClosedSlotQuiet(s, i, arrivals[1..], closes);
      case Interrupted => ClosedSlotQuiet(s, i, arrivals[1..], closes);
      case WouldBlock =>
      case Eof => assert From(Next(s, Disconnect(i), closes), [], closes) == s;
      case ReadError => assert From(Next(s, Disconnect(i), closes), [], closes) == s;
    }
  }

  /**
   * What `service_client` is specified to do to one client is what the machine
   * does to its slot and to the log, and no other slot changes.
   */
  lemma {:induction false} ServiceIsSteps(s: Server, i: nat, arrivals: seq<ReadEvent>, closes: Bytes -> bool)
    requires i < |s.slots| && s.slots[i].Open?
    ensures var r := Service(s.slots[i].buffer, arrivals, closes);
      var t := From(s, EventsOf(i, arrivals), closes);
      && t.log == s.log + Tagged(s.slots[i].conn, r.frames)
      && t.slots == s.slots[i := if r.buffer.Some? then Open(s.slots[i].conn, r.buffer.value) else Free]
    decreases |arrivals|
  {
    var c := s.slots[i].conn;
    if arrivals != [] {
      match arrivals[0]
      case Data(chunk) =>
        var es := EventsOf(i, arrivals[1..]);
        assert ([Read(i, chunk)] + es)[1..] == es;
        var mid := Next(s, Read(i, chunk), closes);
        if mid.slots[i].Free? {
          ClosedSlotQuiet(mid, i, arrivals[1..], closes);
        } else {
          ServiceIsSteps(mid, i, arrivals[1..], closes);
          var first := Parse(s.slots[i].buffer + chunk, closes);
          var more := Service(first.rest, arrivals[1..], closes);
          TaggedAppend(s.log, c, first.frames, more.frames);
        }
      case Interrupted => ServiceIsSteps(s, i, arrivals[1..], closes);
      case WouldBlock =>
      case Eof => assert From(Next(s, Disconnect(i), closes), [], closes) == Next(s, Disconnect(i), closes);
      case ReadError => assert From(Next(s, Disconnect(i), closes), [], closes) == Next(s, Disconnect(i), closes);
    }
  }

  lemma TaggedAppend(log: seq<(nat, Bytes)>, c: nat, fs: seq<Bytes>, gs: seq<Bytes>)
    ensures log + Tagged(c, fs) + Tagged(c, gs) == log + Tagged(c, fs + gs)
  {
  }

  /** `struct ipc_server`: the slot array the dispatch loop works on. */
  class SlotTable {
    const slots: array<Slot>

    ghost predicate Valid() { slots.Length == MAX_CLIENTS }

    /** `ipc_server_start`. */
    constructor ()
      ensures Valid() && slots[..] == Start().slots && fresh(slots)
    {
      slots := new Slot[MAX_CLIENTS](_ => Free);
      new;
      assert slots[..] == Start().slots;
    }

    method FindFreeSlot() returns (i: int)
      requires Valid()
      ensures i == FreeSlot(slots[..])
    {
      i := 0;
      assert slots[0..] == slots[..];
      while i < slots.Length
        invariant 0 <= i <= slots.Length
        invariant FreeSlot(slots[..]) == if FreeSlot(slots[i..]) < 0 then -1 else i + FreeSlot(slots[i..])
      {
        assert slots[i..][1..] == slots[i + 1..] && slots[i..][0] == slots[i];
        if slots[i].Free? {
          return;
        }
        i := i + 1;
      }
      return -1;
    }

    /** One `accept`: the connection takes the lowest free slot, or is closed again. */
    method AcceptOne(conn: nat)
      requires Valid()
      modifies slots
      ensures slots[..] == var i := FreeSlot(old(slots[..])); if i < 0 then old(slots[..]) else old(slots[..])[i := Open(conn, [])]
    {
      var i := FindFreeSlot();
      if i >= 0 {
        slots[i] := Open(conn, []);
      }
    }
  }
}
