/** The length-prefix grammar of the IPC socket, and its two endpoints' loops. */
module Framing {
  import opened Types
  import Lex

  const HEADER: nat := 4
  const MAX_FRAME: nat := 65536
  /** `IPC_CLIENT_BUF_SIZE`. */
  const BUF_SIZE: nat := (4 + 65536) * 2

  function Word(b0: int, b1: int, b2: int, b3: int): int {
    b0 * 0x100_0000 + b1 * 0x1_0000 + b2 * 0x100 + b3
  }

  function Be32(b: Bytes): (n: nat)
    requires |b| >= 4
    ensures n < U32_LIMIT
  {
    Word(b[0], b[1], b[2], b[3])
  }

  function BeBytes(n: U32): Bytes {
    [n / 0x100_0000, n / 0x1_0000 % 0x100, n / 0x100 % 0x100, n % 0x100]
  }

  /** Dividing by 2^8 step by step. */
  lemma ShiftSteps(n: U32)
    ensures n / 0x1_0000 == n / 0x100 / 0x100
    ensures n / 0x100_0000 == n / 0x100 / 0x100 / 0x100
    ensures n / 0x100 / 0x100 / 0x100 < 0x100
  {
  }

  lemma Be32OfBytes(n: U32, rest: Bytes)
    ensures Be32(BeBytes(n) + rest) == n
  {
    var b, s := BeBytes(n), BeBytes(n) + rest;
    assert s[0] == b[0] && s[1] == b[1] && s[2] == b[2] && s[3] == b[3];
    ShiftSteps(n);
    var x := n / 0x100;
    var y := x / 0x100;
    assert n == x * 0x100 + n % 0x100 && x == y * 0x100 + x % 0x100 && y == y / 0x100 * 0x100 + y % 0x100;
  }

  /** Big-endian: the byte order of length prefixes is the numeric order. */
  lemma PrefixesOrdered(m: U32, n: U32)
    ensures m < n <==> Lex.Precedes(BeBytes(m), BeBytes(n))
  {
    Lex.LessIff(BeBytes(m), BeBytes(n));
    var a, b := BeBytes(m), BeBytes(n);
    assert a[1..][1..][1..][1..] == [] && b[1..][1..][1..][1..] == [];
    assert Lex.Less(a, b) <==> Before4(a, b) by {
      assert a[1..][0] == a[1] && a[1..][1..][0] == a[2] && a[1..][1..][1..][0] == a[3];
      assert b[1..][0] == b[1] && b[1..][1..][0] == b[2] && b[1..][1..][1..][0] == b[3];
    }
    Be32OfBytes(m, []);
    Be32OfBytes(n, []);
    assert a + [] == a && b + [] == b;
    WordOrder(a, b);
  }

  predicate Before4(a: Bytes, b: Bytes)
    requires |a| == 4 && |b| == 4
  {
    || a[0] < b[0]
    || (a[0] == b[0] && (a[1] < b[1] || (a[1] == b[1] && (a[2] < b[2] || (a[2] == b[2] && a[3] < b[3])))))
  }

  lemma WordOrder(a: Bytes, b: Bytes)
    requires |a| == 4 && |b| == 4
    ensures Be32(a) < Be32(b) <==> Before4(a, b)
  {
  }

  /** What a byte stream means: the frames handled, what is left over, whether the connection was closed. */
  datatype Outcome = Outcome(frames: seq<Bytes>, rest: Bytes, closed: bool)

  /** What the front of a buffer holds. */
  datatype Front = Incomplete | BadLength | Frame(frame: Bytes, tail: Bytes)

  function FrontOf(s: Bytes): (f: Front)
    ensures f.Frame? ==> |f.tail| < |s|
  {
    if |s| < HEADER then Incomplete
    else
      var n := Be32(s);
      if n == 0 || n > MAX_FRAME then BadLength
      else if |s| < HEADER + n then Incomplete
      else Frame(s[HEADER..HEADER + n], s[HEADER + n..])
  }

  /**
   * The grammar. `closes(f)` says that handling frame `f` ends the connection; a
   * zero or oversized length prefix does so as well.
   */
  function Parse(s: Bytes, closes: Bytes -> bool): Outcome
    decreases |s|
  {
    match FrontOf(s)
    case Incomplete => Outcome([], s, false)
    case BadLength => Outcome([], [], true)
    case Frame(frame, tail) =>
      if closes(frame) then Outcome([frame], [], true)
      else Then(Outcome([frame], [], false), Parse(tail, closes))
  }

  /** Whatever is left waiting is shorter than one maximal frame: the buffer never fills. */
  lemma {:induction false} RestIsShort(s: Bytes, closes: Bytes -> bool)
    ensures |Parse(s, closes).rest| < HEADER + MAX_FRAME
    decreases |s|
  {
    match FrontOf(s)
    case Frame(frame, tail) => RestIsShort(tail, closes);
    case _ =>
  }

  ghost predicate OnlyLastCloses(frames: seq<Bytes>, closes: Bytes -> bool) {
    forall i :: 0 <= i < |frames| - 1 ==> !closes(frames[i])
  }

  /** Nothing is handled after a frame that closes. */
  lemma {:induction false} NothingAfterClosing(s: Bytes, closes: Bytes -> bool)
    ensures OnlyLastCloses(Parse(s, closes).frames, closes)
    decreases |s|
  {
    match FrontOf(s)
    case Frame(frame, tail) =>
      NothingAfterClosing(tail, closes);
      var later := Parse(tail, closes).frames;
      assert OnlyLastCloses(later, closes);
      if !closes(frame) {
        assert Parse(s, closes).frames == [frame] + later;
        assert forall i :: 0 < i < |later| + 1 ==> ([frame] + later)[i] == later[i - 1];
      }
    case _ =>
  }

  lemma FrontAppend(a: Bytes, b: Bytes)
    ensures FrontOf(a).BadLength? ==> FrontOf(a + b).BadLength?
    ensures FrontOf(a).Frame? ==> FrontOf(a + b) == Frame(FrontOf(a).frame, FrontOf(a).tail + b)
  {
    if |a| >= HEADER {
      var n := Be32(a);
      assert Be32(a + b) == n;
      if |a| >= HEADER + n {
        assert (a + b)[HEADER..HEADER + n] == a[HEADER..HEADER + n];
        assert (a + b)[HEADER + n..] == a[HEADER + n..] + b;
      }
    }
  }

  /** Continuing an outcome with what more bytes mean. */
  function Then(r: Outcome, more: Outcome): Outcome { more.(frames := r.frames + more.frames) }

  lemma ThenAssoc(a: Outcome, b: Outcome, c: Outcome)
    ensures Then(Then(a, b), c) == Then(a, Then(b, c))
  {
    assert a.frames + b.frames + c.frames == a.frames + (b.frames + c.frames);
  }

  /** The meaning of a stream does not depend on how it was cut into chunks. */
  lemma {:induction false} ParseChunks(a: Bytes, b: Bytes, closes: Bytes -> bool)
    ensures Parse(a, closes).closed ==> Parse(a + b, closes) == Parse(a, closes)
    ensures !Parse(a, closes).closed ==>
              Parse(a + b, closes) == Then(Parse(a, closes), Parse(Parse(a, closes).rest + b, closes))
    decreases |a|
  {
    FrontAppend(a, b);
    match FrontOf(a)
    case Frame(frame, tail) =>
      ParseChunks(tail, b, closes);
      var r := Parse(tail, closes);
      ThenAssoc(Outcome([frame], [], false), r, Parse(r.rest + b, closes));
    case Incomplete =>
      var r := Parse(a + b, closes);
      assert [] + r.frames == r.frames;
    case BadLength =>
  }

  // ---- the sending side ------------------------------------------------

  datatype WriteResult = Written(bytes: Bytes) | FrameTooLarge

  function FrameOf(p: Bytes): Bytes
    requires |p| < U32_LIMIT
  {
    BeBytes(|p|) + p
  }

  /** `write_frame`: length, then payload. */
  method WriteFrame(payload: Bytes) returns (r: WriteResult)
    ensures r == if |payload| > MAX_FRAME then FrameTooLarge else Written(FrameOf(payload))
    ensures r.FrameTooLarge? <==> |payload| > 65536
    ensures r.Written? ==> |r.bytes| == 4 + |payload| && r.bytes[4..] == payload && Be32(r.bytes) == |payload|
  {
    var len: U32 := if |payload| < U32_LIMIT then |payload| else U32_LIMIT - 1;
    if len > MAX_FRAME {
      return FrameTooLarge;
    }
    Be32OfBytes(len, payload);
    return Written(BeBytes(len) + payload);
  }

  /** The byte stream of a list of payloads. */
  function Stream(ps: seq<Bytes>): Bytes
    requires forall i :: 0 <= i < |ps| ==> |ps[i]| <= MAX_FRAME
  {
    if ps == [] then [] else FrameOf(ps[0]) + Stream(ps[1..])
  }

  lemma ParseFirst(p: Bytes, rest: Bytes, closes: Bytes -> bool)
    requires 0 < |p| <= MAX_FRAME && !closes(p)
    ensures Parse(FrameOf(p) + rest, closes) == Then(Outcome([p], [], false), Parse(rest, closes))
  {
    var s := FrameOf(p) + rest;
    assert s == BeBytes(|p|) + (p + rest);
    Be32OfBytes(|p|, p + rest);
    assert s[HEADER..HEADER + |p|] == p && s[HEADER + |p|..] == rest;
  }

  /** What was written is what is handled, for payloads the server does not close on. */
  lemma {:induction false} StreamDelivered(ps: seq<Bytes>, closes: Bytes -> bool)
    requires forall i :: 0 <= i < |ps| ==> 0 < |ps[i]| <= MAX_FRAME && !closes(ps[i])
    ensures Parse(Stream(ps), closes) == Outcome(ps, [], false)
  {
    if ps != [] {
      ParseFirst(ps[0], Stream(ps[1..]), closes);
      StreamDelivered(ps[1..], closes);
      assert ps == [ps[0]] + ps[1..];
    }
  }

  lemma EmptyFirst(rest: Bytes, closes: Bytes -> bool)
    ensures Parse(FrameOf([]) + rest, closes) == Outcome([], [], true)
  {
    assert FrameOf([]) + rest == BeBytes(0) + rest;
    Be32OfBytes(0, rest);
  }

  /**
   * The stream of a payload list is delivered as that list exactly when no
   * payload is empty: `write_frame` happily sends a zero length, on which the
   * server hangs up.
   */
  lemma {:induction false} StreamDeliveredIff(ps: seq<Bytes>, closes: Bytes -> bool)
    requires forall i :: 0 <= i < |ps| ==> |ps[i]| <= MAX_FRAME && !closes(ps[i])
    ensures Parse(Stream(ps), closes).frames == ps <==> forall i :: 0 <= i < |ps| ==> ps[i] != []
  {
    if ps != [] {
      var tail := ps[1..];
      assert ps == [ps[0]] + tail;
      assert forall i :: 1 <= i < |ps| ==> ps[i] == tail[i - 1];
      if ps[0] == [] {
        EmptyFirst(Stream(tail), closes);
      } else {
        ParseFirst(ps[0], Stream(tail), closes);
        StreamDeliveredIff(tail, closes);
      }
    }
  }

  /** At any moment the frames handled so far are an initial part of those sent. */
  lemma DeliveredPrefix(ps: seq<Bytes>, got: Bytes, closes: Bytes -> bool)
    requires forall i :: 0 <= i < |ps| ==> 0 < |ps[i]| <= MAX_FRAME && !closes(ps[i])
    requires got <= Stream(ps)
    ensures Parse(got, closes).frames <= ps && !Parse(got, closes).closed
  {
    ParseChunks(got, Stream(ps)[|got|..], closes);
    assert got + Stream(ps)[|got|..] == Stream(ps);
    StreamDelivered(ps, closes);
  }

  // ---- the receiving side ----------------------------------------------

  datatype ReadEvent = Data(chunk: Bytes) | Interrupted | WouldBlock | Eof | ReadError

  /** What one `service_client` call does: the frames handled and the buffer left, if still open. */
  datatype Serviced = Serviced(frames: seq<Bytes>, buffer: Option<Bytes>)

  function Service(buffer: Bytes, arrivals: seq<ReadEvent>, closes: Bytes -> bool): Serviced
    decreases |arrivals|
  {
    if arrivals == [] then Serviced([], Some(buffer))
    else
      match arrivals[0]
      case Data(chunk) =>
        var r := Parse(buffer + chunk, closes);
        if r.closed then Serviced(r.frames, None)
        else
          var more := Service(r.rest, arrivals[1..], closes);
          more.(frames := r.frames + more.frames)
      case Interrupted => Service(buffer, arrivals[1..], closes)
      case WouldBlock => Serviced([], Some(buffer))
      case Eof => Serviced([], None)
      case ReadError => Serviced([], None)
  }

  /** The bytes that arrive before the socket has no more, ends or fails. */
  function Arrived(arrivals: seq<ReadEvent>): Bytes {
    if arrivals == [] then []
    else
      match arrivals[0]
      case Data(chunk) => chunk + Arrived(arrivals[1..])
      case Interrupted => Arrived(arrivals[1..])
      case _ => []
  }

  /** They are followed by an end of file or an error. */
  predicate Ends(arrivals: seq<ReadEvent>) {
    arrivals != [] &&
    match arrivals[0]
    case Data(_) => Ends(arrivals[1..])
    case Interrupted => Ends(arrivals[1..])
    case WouldBlock => false
    case _ => true
  }

  ghost predicate Settled(s: Bytes, closes: Bytes -> bool) { Parse(s, closes) == Outcome([], s, false) }

  lemma {:induction false} RestSettled(s: Bytes, closes: Bytes -> bool)
    ensures !Parse(s, closes).closed ==> Settled(Parse(s, closes).rest, closes)
    decreases |s|
  {
    match FrontOf(s)
    case Frame(frame, tail) => RestSettled(tail, closes);
    case _ =>
  }

  /**
   * One service call handles what the buffered bytes and all that arrive mean
   * together, however they arrive; afterwards the connection is gone exactly
   * when that closes it or the socket has ended.
   */
  lemma {:induction false} ServiceIsParse(buffer: Bytes, arrivals: seq<ReadEvent>, closes: Bytes -> bool)
    requires Settled(buffer, closes)
    ensures var r := Parse(buffer + Arrived(arrivals), closes);
      Service(buffer, arrivals, closes)
      == Serviced(r.frames, if r.closed || Ends(arrivals) then None else Some(r.rest))
    decreases |arrivals|, 1
  {
    if arrivals == [] || arrivals[0].WouldBlock? || arrivals[0].Eof? || arrivals[0].ReadError? {
      assert buffer + [] == buffer;
    } else if arrivals[0].Interrupted? {
      ServiceIsParse(buffer, arrivals[1..], closes);
    } else {
      ServiceData(buffer, arrivals[0].chunk, arrivals[1..], closes);
    }
  }

  lemma {:induction false} ServiceData(buffer: Bytes, chunk: Bytes, later: seq<ReadEvent>, closes: Bytes -> bool)
    ensures var r := Parse(buffer + (chunk + Arrived(later)), closes);
      Service(buffer, [Data(chunk)] + later, closes)
      == Serviced(r.frames, if r.closed || Ends([Data(chunk)] + later) then None else Some(r.rest))
    decreases |later| + 1, 0
  {
    var first := Parse(buffer + chunk, closes);
    assert buffer + (chunk + Arrived(later)) == buffer + chunk + Arrived(later);
    ParseChunks(buffer + chunk, Arrived(later), closes);
    assert ([Data(chunk)] + later)[1..] == later;
    if !first.closed {
      RestSettled(buffer + chunk, closes);
      ServiceIsParse(first.rest, later, closes);
    }
  }

  /** `ipc_client_t`. */
  class Client {
    var inUse: bool
    var len: nat
    const buf: array<Byte>

    ghost predicate Valid()
      reads this
    {
      buf.Length == BUF_SIZE && len <= BUF_SIZE && (!inUse ==> len == 0)
    }

    constructor ()
      ensures Valid() && inUse && len == 0 && fresh(buf)
    {
      inUse, len := true, 0;
      buf := new Byte[BUF_SIZE](_ => 0);
    }

    ghost function Pending(): Bytes
      requires Valid()
      reads this, buf
    {
      buf[..len]
    }

    method CloseClient()
      requires Valid()
      modifies this
      ensures Valid() && !inUse
    {
      inUse, len := false, 0;
    }

    /**
     * `drain_frames`: handles every complete frame and moves the remainder to
     * the front. It terminates because each handled frame shrinks `len`.
     */
    method DrainFrames(closes: Bytes -> bool) returns (open: bool, handled: seq<Bytes>)
      requires Valid() && inUse
      modifies this, buf
      ensures Valid() && open == inUse
      ensures var r := Parse(old(Pending()), closes);
        && handled == r.frames && open == !r.closed && (open ==> Pending() == r.rest)
    {
      handled := [];
      ghost var start := Parse(Pending(), closes);
      assert Then(Outcome([], [], false), start) == start;
      while true
        invariant Valid() && inUse
        invariant start == Then(Outcome(handled, [], false), Parse(Pending(), closes))
        decreases len
      {
        var front := ReadFront();
        if front.Incomplete? {
          return true, handled;
        }
        if front.BadLength? {
          CloseClient();
          return false, handled;
        }
        ThenAssoc(Outcome(handled, [], false), Outcome([front.frame], [], false), Parse(front.tail, closes));
        handled := handled + [front.frame];
        if closes(front.frame) {
          CloseClient();
          return false, handled;
        }
        ShiftDown(4 + |front.frame|);
      }
    }

    /** The length prefix and, when it is complete, the frame at the front of the buffer. */
    method ReadFront() returns (f: Front)
      requires Valid()
      ensures f == FrontOf(Pending())
      ensures f.Frame? ==> 4 + |f.frame| <= len && f.tail == Pending()[4 + |f.frame|..]
    {
      ghost var now := Pending();
      if len < 4 {
        return Incomplete;
      }
      var n := Word(buf[0], buf[1], buf[2], buf[3]);
      assert n == Be32(now);
      if n == 0 || n > MAX_FRAME {
        return BadLength;
      }
      var total := 4 + n;
      if len < total {
        return Incomplete;
      }
      var received := buf[..len];
      return Frame(received[4..total], received[total..]);
    }

    /** The `memmove` of the unread bytes to the front. */
    method ShiftDown(total: nat)
      requires Valid() && inUse && total <= len
      modifies this`len, buf
      ensures Valid() && len == old(len) - total && Pending() == old(Pending())[total..]
    {
      forall i | 0 <= i < len - total { buf[i] := buf[total + i]; }
      len := len - total;
    }

    /**
     * `service_client`: reads until the socket has no more, draining after every
     * read. A read returns at most the free room, so a longer chunk arrives in
     * pieces; there is always room, so the buffer-full branch cannot be taken.
     */
    method ServiceClient(arrivals: seq<ReadEvent>, closes: Bytes -> bool) returns (handled: seq<Bytes>)
      requires Valid() && inUse && len < HEADER + MAX_FRAME
      requires forall i :: 0 <= i < |arrivals| && arrivals[i].Data? ==> arrivals[i].chunk != []
      modifies this, buf
      ensures Valid()
      ensures var r := Service(old(Pending()), arrivals, closes);
        && handled == r.frames && inUse == r.buffer.Some?
        && (inUse ==> Pending() == r.buffer.value && len < HEADER + MAX_FRAME)
    {
      handled := [];
      var i := 0;
      assert arrivals[0..] == arrivals;
      while i < |arrivals|
        invariant i <= |arrivals| && Valid() && inUse && len < HEADER + MAX_FRAME
        invariant Service(old(Pending()), arrivals, closes) == After(handled, Service(Pending(), arrivals[i..], closes))
      {
        assert arrivals[i..][1..] == arrivals[i + 1..];
        match arrivals[i] {
          case Data(chunk) =>
            var open, frames := Receive(chunk, closes);
            AppendServiced(handled, frames, Service(if open then Pending() else [], arrivals[i + 1..], closes));
            handled := handled + frames;
            if !open {
              return;
            }
          case Interrupted =>
          case WouldBlock => return;
          case Eof => CloseClient(); return;
          case ReadError => CloseClient(); return;
        }
        i := i + 1;
      }
    }

    /** One `read` of `piece`, then the drain. */
    method ReadPiece(piece: Bytes, closes: Bytes -> bool) returns (open: bool, handled: seq<Bytes>)
      requires Valid() && inUse && len + |piece| <= BUF_SIZE
      modifies this, buf
      ensures Valid() && open == inUse
      ensures var r := Parse(old(Pending()) + piece, closes);
        && handled == r.frames && open == !r.closed
        && (open ==> Pending() == r.rest && len < HEADER + MAX_FRAME)
    {
      forall i | 0 <= i < |piece| { buf[len + i] := piece[i]; }
      len := len + |piece|;
      assert Pending() == old(Pending()) + piece;
      RestIsShort(Pending(), closes);
      open, handled := DrainFrames(closes);
    }

    /**
     * One arrived chunk: a read takes what fits the free room, the next one the
     * rest. There is always room, so the buffer-full branch cannot be taken.
     */
    method Receive(chunk: Bytes, closes: Bytes -> bool) returns (open: bool, handled: seq<Bytes>)
      requires Valid() && inUse && len < HEADER + MAX_FRAME && chunk != []
      modifies this, buf
      ensures Valid() && open == inUse
      ensures var r := Parse(old(Pending()) + chunk, closes);
        && handled == r.frames && open == !r.closed
        && (open ==> Pending() == r.rest && len < HEADER + MAX_FRAME)
      decreases |chunk|
    {
      if len >= buf.Length {
        assert false;
      }
      var n := if |chunk| < buf.Length - len then |chunk| else buf.Length - len;
      var piece, later := chunk[..n], chunk[n..];
      InPieces(Pending(), chunk, piece, later, closes);
      open, handled := ReadPiece(piece, closes);
      if open && later != [] {
        var frames;
        open, frames := Receive(later, closes);
        handled := handled + frames;
      }
    }
  }

  /** A chunk read in two pieces. */
  lemma InPieces(s: Bytes, chunk: Bytes, piece: Bytes, later: Bytes, closes: Bytes -> bool)
    requires chunk == piece + later
    ensures var first := Parse(s + piece, closes);
      && (first.closed || later == [] ==> Parse(s + chunk, closes) == first)
      && (!first.closed ==> Parse(s + chunk, closes) == Then(first, Parse(first.rest + later, closes)))
  {
    assert s + chunk == s + piece + later;
    ParseChunks(s + piece, later, closes);
    if later == [] { assert s + chunk == s + piece; }
  }

  function After(done: seq<Bytes>, more: Serviced): Serviced { more.(frames := done + more.frames) }

  lemma AppendServiced(done: seq<Bytes>, frames: seq<Bytes>, more: Serviced)
    ensures After(done, After(frames, more)) == After(done + frames, more)
  {
    assert done + (frames + more.frames) == done + frames + more.frames;
  }
}
