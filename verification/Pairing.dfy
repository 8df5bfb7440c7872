/**
 * Request/response pairing: the connection against a server that answers each complete request on
 * the wire with one response message, at a time of its own choosing, and may hang up at any byte.
 */
module Pairing {
  import opened Bytes
  import opened Header
  import opened Packets
  import opened Framing
  import opened Connections
  import opened WireRuns

  /** At most the last packet ends a message. */
  ghost predicate OneTail(ps: seq<Packet>)
  {
    forall i :: 0 <= i < |ps| - 1 ==> !IsLast(ps[i])
  }

  /**
   * Nothing unread precedes the response to the latest request: of `sent` requests all but perhaps
   * the last are answered and read, and a set mark means the last one is, too.
   */
  ghost predicate InOrder(arriving: Reading, flushed: bool, closed: bool, sent: nat, answered: nat)
  {
    && OneTail(arriving.packets)
    && !Decode(arriving.rest).Malformed?
    && (flushed ==> arriving.packets == [])
    && (!closed ==>
          && arriving.rest == []
          && answered <= sent <= answered + 1
          && (flushed ==> sent == answered)
          && (answered < sent ==> arriving.packets == []))
  }

  /** Taking packets off the front, with the mark set by the last of them, keeps the order. */
  lemma TakingKeepsOrder(before: Reading, taken: seq<Packet>, after: Reading,
                         was: bool, flushed: bool, closed: bool, sent: nat, answered: nat)
    requires InOrder(before, was, closed, sent, answered)
    requires before == Reading(taken + after.packets, after.rest)
    requires flushed == if taken == [] then was else IsLast(taken[|taken| - 1])
    ensures InOrder(after, flushed, closed, sent, answered)
    ensures before == Reading([], []) ==> after == before && flushed == was
    ensures !was && Finals(before.packets) > 0 ==> flushed || Finals(after.packets) > 0
  {
    FlushedTail(taken, after.packets);
    UnflushedTail(taken, after.packets);
    assert taken == [] ==> taken + after.packets == after.packets;
  }

  class Session {
    const conn: Connection

    /** The payloads of the responses the server has sent so far. */
    var responses: seq<bytes>

    /** The handshake is over; from here on every request is preceded by `flush_stream`. */
    var loggedIn: bool

    /**
     * Set while a request is the last thing the client did: the number of requests that preceded it,
     * and the bytes handed to the client since.
     */
    ghost var asked: bool
    ghost var request: nat
    ghost var delivered: bytes

    ghost function ResponseTo(k: nat): bytes
      reads this
    {
      if k < |responses| then responses[k] else []
    }

    ghost predicate InStep()
      reads this, conn
    {
      InOrder(conn.Arriving(), conn.flushed, conn.closed, Requests(conn.wire), |responses|)
    }

    /** What the client was handed, is buffered, or will arrive, is the answer to its last request. */
    ghost predicate Paired()
      reads this, conn
    {
      asked ==>
        && delivered + conn.Stream() <= ResponseTo(request)
        && (!conn.closed ==>
              && delivered + conn.Stream() == ResponseTo(request)
              && (request == Requests(conn.wire) ==> request == |responses|)
              && request <= Requests(conn.wire) <= request + 1)
    }

    ghost predicate Valid()
      reads this, conn
    {
      Safe(conn) && InStep() && Paired()
    }

    /** Every request has been answered and every answer read: where the handshake sends. */
    predicate Idle()
      reads this, conn
    {
      && conn.buf == [] && conn.Arriving().packets == []
      && (!conn.closed ==> |responses| == Requests(conn.wire))
    }

    /** An open, healthy connection in a steady environment, with a whole message or nothing to drain. */
    ghost predicate Ready()
      reads this, conn
    {
      conn.steady && conn.Usable() && !conn.closed && (conn.flushed || Finals(conn.Arriving().packets) > 0)
    }

    /** The session waits for a response nobody owes it. */
    ghost predicate Wedged()
      reads this, conn
    {
      && loggedIn && !conn.closed && !conn.flushed
      && conn.Arriving() == Reading([], []) && |responses| == Requests(conn.wire)
    }

    /** A fresh connection: nothing sent, nothing received. */
    constructor (packetSize: nat)
      requires HEADER_BYTES < packetSize <= 0xFFFF
      ensures Valid() && fresh(conn) && !asked && !loggedIn && Idle() && responses == []
      ensures conn.Usable() && !conn.closed && conn.wire == [] && conn.packetSize == packetSize
    {
      var c := new Connection(packetSize);
      conn := c;
      responses, loggedIn, asked, request, delivered := [], false, false, 0, [];
      new;
      NothingArrives();
      assert conn.readBuf + conn.inbound == [];
    }

    /** `flush_stream`: on success nothing of any earlier response is left to read. */
    method Drain() returns (r: Outcome)
      requires Valid()
      modifies this`asked, conn`inbound, conn`readBuf, conn`flushed, conn`buf, conn`poisoned
      ensures Valid()
      ensures r != EncodeFailed && (if r == Rejected then asked == old(asked) else !asked)
      ensures r == Done ==> conn.Usable() && Idle()
      ensures r == Done && !conn.closed ==> conn.flushed && conn.Arriving() == Reading([], [])
      ensures old(Wedged()) ==> Wedged() && r != Done
      ensures conn.steady && old(conn.Usable() && (conn.flushed || Finals(conn.Arriving().packets) > 0)) ==> r == Done
    {
      hide DecodeAll, Decode, OnBoundary, Payloads, Finals, Requests, InOrder, IsLast;
      NothingArrives();
      ghost var before, was, sent := conn.Arriving(), conn.flushed, Requests(conn.wire);
      OrderMeans(before, was, conn.closed, sent, |responses|);
      ghost var taken;
      r, taken := conn.FlushStream();
      assert conn.readBuf == [] && conn.inbound == [] ==> conn.readBuf + conn.inbound == [];
      TakingKeepsOrder(before, taken, conn.Arriving(), was, conn.flushed, conn.closed, sent, |responses|);
      OrderMeans(conn.Arriving(), conn.flushed, conn.closed, sent, |responses|);
      if r != Rejected {
        asked := false;
      }
    }

    /** `send` when every answer has been read: what follows on the stream answers this request. */
    method Ask(header: PacketHeader, item: Item) returns (r: Outcome)
      requires Valid() && Idle()
      modifies this`asked, this`request, this`delivered, conn`wire, conn`writeBuf, conn`flushed, conn`poisoned
      modifies conn`pushed
      ensures Valid()
      ensures r == Rejected <==> !old(conn.Usable())
      ensures r == Rejected ==> asked == old(asked) && request == old(request) && delivered == old(delivered)
      ensures r == EncodeFailed <==> old(conn.Usable()) && item.Fails?
      ensures r == EncodeFailed ==> !asked && conn.wire == old(conn.wire)
      ensures conn.poisoned == (old(conn.poisoned) || r == Interrupted)
      ensures r in {Done, Interrupted} ==> asked && delivered == [] && request == old(Requests(conn.wire))
      ensures r == Done ==> item.Encodes? && (item.payload != [] ==> Requests(conn.wire) == request + 1)
      ensures r == Done && item.payload == [] ==> conn.wire == old(conn.wire)
      ensures r != Rejected ==> !conn.flushed
      ensures conn.steady && old(conn.Usable()) && item.Encodes? ==> r == Done && conn.Usable()
    {
      hide DecodeAll, EncodeAll, Split, OnBoundary, Payloads;
      NothingArrives();
      ghost var wire := conn.wire;
      r := conn.Send(header, item);
      if r == Rejected {
        return;
      }
      asked, request, delivered := r != EncodeFailed, Requests(wire), [];
      if r == EncodeFailed {
        return;
      }
      RequestsAfterSend(wire, conn.wire, header, item.payload, conn.Room(), r);
      if r == Done {
        WholeMessageKeepsBoundary(wire, conn.wire, header, item.payload, conn.Room());
      }
    }

    /** `flush_stream; send`, as every query of the client does. */
    method Query(header: PacketHeader, item: Item) returns (r: Outcome)
      requires Valid()
      modifies this`asked, this`request, this`delivered
      modifies conn`inbound, conn`readBuf, conn`flushed, conn`buf, conn`poisoned, conn`wire, conn`writeBuf, conn`pushed
      ensures Valid()
      ensures r == Rejected ==> asked == old(asked) && request == old(request) && delivered == old(delivered)
      ensures r != Rejected && asked ==> delivered == []
      ensures r == Done ==> asked && request == old(Requests(conn.wire)) && conn.buf == []
      ensures r == Done && !conn.closed ==> request == |responses|
      ensures r == Done ==> item.Encodes? && (item.payload != [] ==> Requests(conn.wire) == request + 1)
      ensures r == EncodeFailed ==> item.Fails?
      ensures loggedIn && !conn.closed && r in {Done, EncodeFailed} ==>
                (Wedged() <==> item.Fails? || item.payload == [])
      ensures old(Wedged()) ==> Wedged() && r in {Rejected, Interrupted} && conn.wire == old(conn.wire)
      ensures old(Wedged()) && r != Rejected ==> !asked
      ensures conn.steady && old(conn.Usable() && (conn.flushed || Finals(conn.Arriving().packets) > 0)) ==>
                r == (if item.Fails? then EncodeFailed else Done) && conn.Usable()
    {
      hide DecodeAll, OnBoundary, Payloads, Finals, Session.InStep, Session.Paired, Safe;
      r := Drain();
      if r == Done {
        r := Ask(header, item);
      }
    }

    /** The server answers the oldest unanswered request. */
    method Respond(ps: seq<Packet>)
      requires Valid() && OneMessage(ps)
      modifies this`responses, conn`inbound
      ensures Valid() && old(responses) <= responses
      ensures old(!conn.closed && |responses| < Requests(conn.wire)) ==>
                responses == old(responses) + [Payloads(ps)] && conn.Arriving() == Reading(ps, [])
      ensures old(Wedged()) ==> Wedged()
    {
      hide DecodeAll, EncodeAll, Split, OnBoundary, Payloads;
      if !conn.closed && |responses| < Requests(conn.wire) {
        NewArrivals(conn.readBuf, conn.inbound, ps);
        conn.inbound := conn.inbound + EncodeAll(ps);
        responses := responses + [Payloads(ps)];
        assert asked ==> delivered == [] && conn.buf == [];
      }
    }

    /** The server hangs up after `keep` of the bytes still in flight. */
    method HangUp(keep: nat)
      requires Valid() && keep <= |conn.inbound|
      modifies conn`inbound, conn`closed
      ensures Valid() && conn.closed && conn.inbound == old(conn.inbound)[..keep]
    {
      hide DecodeAll, OnBoundary, Payloads;
      Truncation(conn.readBuf, conn.inbound, keep);
      ghost var before := conn.Arriving().packets;
      conn.inbound := conn.inbound[..keep];
      conn.closed := true;
      ghost var after := conn.Arriving().packets;
      PayloadsConcat(after, before[|after|..]);
      assert before == after + before[|after|..];
    }

    /** A command timeout raises the desync flag. */
    method TimeOut()
      requires Valid()
      modifies conn`commandDesync
      ensures Valid() && conn.commandDesync
      ensures old(Wedged()) ==> Wedged()
    {
      conn.commandDesync := true;
    }

    /** The environment turns steady, or stops being so. */
    method Settle(steady: bool)
      requires Valid()
      modifies conn`steady
      ensures Valid() && conn.steady == steady
      ensures old(Wedged()) ==> Wedged()
    {
      conn.steady := steady;
    }

    /** The handshake has succeeded. */
    method LogIn()
      requires Valid()
      modifies this`loggedIn
      ensures Valid() && loggedIn
      ensures old(Wedged()) ==> Wedged()
    {
      loggedIn := true;
    }

    /** A read of `size` bytes; it may be abandoned, and then keeps nothing. */
    method Read(size: nat) returns (r: PollBytes)
      requires Valid()
      modifies this`delivered, conn`inbound, conn`readBuf, conn`flushed, conn`buf
      ensures Valid()
      ensures r.Bytes? ==> |r.data| == size && delivered == old(delivered) + r.data
      ensures !r.Bytes? ==> delivered == old(delivered)
      ensures asked ==> delivered <= ResponseTo(request)
      ensures old(Wedged()) ==> Wedged()
      ensures conn.steady && size <= old(|conn.Stream()|) ==> r.Bytes?
      ensures old(Ready()) ==> Ready()
    {
      hide DecodeAll, Decode, OnBoundary, Payloads, Finals, Requests, InOrder, IsLast;
      ghost var before, was, sent := conn.Arriving(), conn.flushed, Requests(conn.wire);
      OrderMeans(before, was, conn.closed, sent, |responses|);
      ghost var taken;
      r, taken := conn.PollRead(size);
      TakingKeepsOrder(before, taken, conn.Arriving(), was, conn.flushed, conn.closed, sent, |responses|);
      if r.Bytes? {
        Handed(delivered, r.data, conn.Stream());
        delivered := delivered + r.data;
      }
    }

    /** `collect_from` on an empty buffer, as the handshake does. If it is dropped, what it took is lost. */
    method Collect() returns (r: PollBytes)
      requires Valid() && conn.buf == []
      modifies this`asked, this`delivered, conn`inbound, conn`readBuf, conn`flushed
      ensures Valid() && (asked ==> old(asked))
      ensures r.Bytes? ==> asked == old(asked) && delivered == old(delivered) + r.data
      ensures !r.Bytes? ==> delivered == old(delivered)
      ensures asked ==> delivered <= ResponseTo(request)
      ensures r.Bytes? && !conn.closed ==> conn.flushed && conn.Stream() == []
      ensures old(Wedged()) ==> Wedged()
      ensures conn.steady && old(Finals(conn.Arriving().packets)) > 0 ==> r.Bytes?
    {
      hide InOrder, Safe, Requests, DecodeAll, Payloads;
      ghost var ahead := conn.Stream();
      ghost var lost: bytes;
      r, lost := TakeMessage();
      if r.Bytes? {
        Handed(delivered, r.data, conn.Stream());
        delivered := delivered + r.data;
      } else {
        asked := asked && conn.Stream() == ahead;
      }
    }

    /** `collect_from` and the order of responses; `lost` are the payload bytes it took. */
    method TakeMessage() returns (r: PollBytes, ghost lost: bytes)
      requires Safe(conn) && InStep() && conn.buf == []
      modifies conn`inbound, conn`readBuf, conn`flushed
      ensures Safe(conn) && InStep() && old(conn.Stream()) == lost + conn.Stream()
      ensures r.Bytes? ==> r.data == lost
      ensures r.Bytes? && !conn.closed ==> conn.flushed && conn.Stream() == []
      ensures old(Wedged()) ==> Wedged()
      ensures conn.steady && old(Finals(conn.Arriving().packets)) > 0 ==> r.Bytes?
    {
      hide DecodeAll, Decode, OnBoundary, Payloads, Finals, Requests, InOrder, IsLast;
      NothingArrives();
      ghost var before, was, sent := conn.Arriving(), conn.flushed, Requests(conn.wire);
      OrderMeans(before, was, conn.closed, sent, |responses|);
      ghost var taken;
      r, taken := conn.CollectFrom();
      lost := Payloads(taken);
      TakingKeepsOrder(before, taken, conn.Arriving(), was, conn.flushed, conn.closed, sent, |responses|);
      OrderMeans(conn.Arriving(), conn.flushed, conn.closed, sent, |responses|);
      PayloadsConcat(taken, conn.Arriving().packets);
    }
  }

  datatype Event =
    | AskEvent(header: PacketHeader, item: Item)
    | CollectEvent
    | LogInEvent
    | QueryEvent(header: PacketHeader, item: Item)
    | RespondEvent(response: seq<Packet>)
    | HangUpEvent(keep: nat)
    | ReadEvent(size: nat)
    | TimeoutEvent
    | SettleEvent(steady: bool)

  /** All the bytes the client read after one request, and which request that was. */
  datatype Answer = Answer(request: nat, got: bytes)

  /** The answers recorded so far are sound, and the last is the open one. */
  ghost predicate Logged(session: Session, log: seq<Answer>)
    reads session
  {
    && (forall a :: a in log ==> a.got <= session.ResponseTo(a.request))
    && (session.asked ==> log != [] && log[|log| - 1] == Answer(session.request, session.delivered))
  }

  /** One event; the handshake's sends and collects happen only before login and only when idle. */
  method Step(session: Session, event: Event, ghost log: seq<Answer>) returns (ghost log': seq<Answer>)
    requires session.Valid() && Logged(session, log)
    requires event.RespondEvent? ==> OneMessage(event.response)
    modifies session, session.conn
    ensures session.Valid() && Logged(session, log')
    ensures old(session.Wedged()) && !event.HangUpEvent? ==>
              session.Wedged() && session.conn.wire == old(session.conn.wire) && |log'| == |log|
    ensures session.loggedIn == (old(session.loggedIn) || event.LogInEvent?)
    ensures session.conn.commandDesync == (old(session.conn.commandDesync) || event.TimeoutEvent?)
    ensures event.AskEvent? && event.item.Encodes? && event.item.payload != []
              && old(!session.loggedIn && session.Idle() && session.conn.steady && session.conn.Usable()) ==>
              log' == log + [Answer(old(Requests(session.conn.wire)), [])]
    ensures event.QueryEvent? && event.item.Encodes? && event.item.payload != [] && old(session.Ready()) ==>
              log' == log + [Answer(old(Requests(session.conn.wire)), [])]
    ensures event.CollectEvent?
              && old(session.conn.buf == [] && session.conn.steady && Finals(session.conn.Arriving().packets) > 0) ==>
              session.conn.closed || (session.conn.flushed && session.conn.Stream() == [])
    ensures event.ReadEvent? && old(session.conn.steady && event.size <= |session.conn.Stream()|) ==>
              |session.delivered| == old(|session.delivered|) + event.size
    ensures event.RespondEvent? && old(!session.conn.closed && |session.responses| < Requests(session.conn.wire)) ==>
              session.responses == old(session.responses) + [Payloads(event.response)]
    ensures event.HangUpEvent? && event.keep <= old(|session.conn.inbound|) ==> session.conn.closed
    ensures event.SettleEvent? ==> session.conn.steady == event.steady
  {
    hide OneMessage, InOrder, DecodeAll, Payloads, Safe, Finals, Requests;
    hide Session.InStep, Session.Paired, Session.Wedged, Session.Ready, Session.Idle;
    if event.AskEvent? || event.QueryEvent? {
      log' := Request(session, event, log);
    } else if event.CollectEvent? || event.ReadEvent? {
      log' := Take(session, event, log);
    } else {
      log' := log;
      match event {
        case LogInEvent =>
          session.LogIn();
        case RespondEvent(response) =>
          session.Respond(response);
        case HangUpEvent(keep) =>
          if keep <= |session.conn.inbound| {
            session.HangUp(keep);
          }
        case TimeoutEvent =>
          session.TimeOut();
        case SettleEvent(steady) =>
          session.Settle(steady);
      }
    }
  }

  method Request(session: Session, event: Event, ghost log: seq<Answer>) returns (ghost log': seq<Answer>)
    requires session.Valid() && Logged(session, log) && (event.AskEvent? || event.QueryEvent?)
    modifies session, session.conn
    ensures session.Valid() && Logged(session, log')
    ensures old(session.Wedged()) ==>
              session.Wedged() && session.conn.wire == old(session.conn.wire) && |log'| == |log|
    ensures session.loggedIn == old(session.loggedIn)
    ensures session.conn.commandDesync == old(session.conn.commandDesync)
    ensures event.AskEvent? && event.item.Encodes? && event.item.payload != []
              && old(!session.loggedIn && session.Idle() && session.conn.steady && session.conn.Usable()) ==>
              log' == log + [Answer(old(Requests(session.conn.wire)), [])]
    ensures event.QueryEvent? && event.item.Encodes? && event.item.payload != [] && old(session.Ready()) ==>
              log' == log + [Answer(old(Requests(session.conn.wire)), [])]
  {
    hide InOrder, DecodeAll, Payloads, Safe, Finals, Requests;
    hide Session.InStep, Session.Paired, Session.Wedged, Session.Idle;
    WedgedMeans(session);
    var r := Rejected;
    if event.QueryEvent? {
      r := session.Query(event.header, event.item);
    } else if !session.loggedIn && session.Idle() {
      r := session.Ask(event.header, event.item);
    }
    if r != Rejected {
      Opens(session, log);
    }
    log' := if r != Rejected && session.asked then log + [Answer(session.request, [])] else log;
  }

  method Take(session: Session, event: Event, ghost log: seq<Answer>) returns (ghost log': seq<Answer>)
    requires session.Valid() && Logged(session, log) && (event.CollectEvent? || event.ReadEvent?)
    modifies session, session.conn
    ensures session.Valid() && Logged(session, log') && |log'| == |log|
    ensures old(session.Wedged()) ==> session.Wedged()
    ensures session.conn.wire == old(session.conn.wire) && session.loggedIn == old(session.loggedIn)
    ensures session.conn.commandDesync == old(session.conn.commandDesync)
    ensures event.CollectEvent?
              && old(session.conn.buf == [] && session.conn.steady && Finals(session.conn.Arriving().packets) > 0) ==>
              session.conn.closed || (session.conn.flushed && session.conn.Stream() == [])
    ensures event.ReadEvent? && old(session.conn.steady && event.size <= |session.conn.Stream()|) ==>
              |session.delivered| == old(|session.delivered|) + event.size
  {
    hide InOrder, DecodeAll, Payloads, Safe, Finals, Requests;
    hide Session.InStep, Session.Paired, Session.Wedged, Session.Ready;
    if event.ReadEvent? {
      var _ := session.Read(event.size);
    } else if session.conn.buf == [] {
      var _ := session.Collect();
    }
    if session.asked {
      Grows(session, log);
    }
    log' := if session.asked then log[|log| - 1 := Answer(session.request, session.delivered)] else log;
  }

  /**
   * Every run, from the handshake on, of requests, reads, server answers and failures: what the
   * client reads after a request is a prefix of the response to that request, never a byte of any
   * other. A wedged session stays so, and sends nothing more, until the server hangs up.
   */
  method Run(session: Session, events: seq<Event>) returns (ghost log: seq<Answer>)
    requires session.Valid() && !session.asked
    requires forall e :: e in events && e.RespondEvent? ==> OneMessage(e.response)
    modifies session, session.conn
    ensures session.Valid()
    ensures forall a :: a in log ==> a.got <= session.ResponseTo(a.request)
    ensures session.asked ==> log != [] && log[|log| - 1] == Answer(session.request, session.delivered)
    ensures old(session.Wedged()) && (forall e :: e in events ==> !e.HangUpEvent?) ==>
              session.Wedged() && session.conn.wire == old(session.conn.wire) && log == []
    ensures session.loggedIn <==> old(session.loggedIn) || exists e :: e in events && e.LogInEvent?
    ensures session.conn.commandDesync <==> old(session.conn.commandDesync) || exists e :: e in events && e.TimeoutEvent?
  {
    hide OneMessage, InOrder, DecodeAll, Payloads, Safe, Finals, Requests;
    hide Session.InStep, Session.Paired, Session.Wedged, Session.Ready, Session.Idle;
    log := [];
    for k := 0 to |events|
      invariant session.Valid() && Logged(session, log)
      invariant old(session.Wedged()) && (forall e :: e in events ==> !e.HangUpEvent?) ==>
                  session.Wedged() && session.conn.wire == old(session.conn.wire) && log == []
      invariant session.loggedIn <==> old(session.loggedIn) || exists i :: 0 <= i < k && events[i].LogInEvent?
      invariant session.conn.commandDesync <==>
                  old(session.conn.commandDesync) || exists i :: 0 <= i < k && events[i].TimeoutEvent?
    {
      log := Step(session, events[k], log);
    }
  }

  // ------------------------------------------------------------- runs that get somewhere

  /** A handshake with nothing going wrong: one request, its answer collected, logged in. */
  method Connected(packetSize: nat, header: PacketHeader, hello: bytes, greeting: seq<Packet>) returns (session: Session)
    requires HEADER_BYTES < packetSize <= 0xFFFF && hello != [] && OneMessage(greeting)
    ensures fresh(session) && fresh(session.conn) && session.Valid() && session.loggedIn
    ensures session.Ready() && session.conn.flushed
    ensures session.responses == [Payloads(greeting)] && session.delivered == Payloads(greeting)
    ensures Requests(session.conn.wire) == 1
  {
    hide OneMessage, Session.InStep, Session.Paired, Safe, Finals, OnBoundary, DecodeAll, Payloads;
    NothingArrives();
    session := new Session(packetSize);
    session.Settle(true);
    var r := session.Ask(header, Encodes(hello));
    session.Respond(greeting);
    OneFinal(greeting);
    var got := session.Collect();
    AllDelivered(session);
    session.LogIn();
  }

  /** One query on a steady connection: exactly the server's response comes back. */
  method Exchange(session: Session, header: PacketHeader, payload: bytes, response: seq<Packet>) returns (got: bytes)
    requires session.Valid() && payload != [] && OneMessage(response)
    requires session.Ready()
    modifies session, session.conn
    ensures session.Valid() && session.Ready() && got == Payloads(response)
    ensures session.asked && session.delivered == got == session.ResponseTo(session.request)
    ensures session.request == old(Requests(session.conn.wire)) && Requests(session.conn.wire) == session.request + 1
  {
    hide OneMessage, Session.InStep, Session.Paired, Session.Wedged, Session.Idle, Safe, Finals, DecodeAll, Payloads;
    var r := session.Query(header, Encodes(payload));
    session.Respond(response);
    OneFinal(response);
    assert session.conn.Stream() == Payloads(response);
    var bytes := session.Read(|Payloads(response)|);
    got := bytes.data;
    assert session.delivered == [] + got == got;
  }

  /** Such runs exist: after the handshake any number of queries, each getting its own response. */
  method Dialogue(packetSize: nat, header: PacketHeader, hello: bytes, greeting: seq<Packet>,
                  payloads: seq<bytes>, responses: seq<seq<Packet>>)
    returns (session: Session, got: seq<bytes>)
    requires HEADER_BYTES < packetSize <= 0xFFFF && hello != [] && OneMessage(greeting)
    requires |payloads| == |responses|
    requires forall i :: 0 <= i < |payloads| ==> payloads[i] != [] && OneMessage(responses[i])
    ensures session.Valid() && session.Ready()
    ensures |got| == |responses| && forall i :: 0 <= i < |got| ==> got[i] == Payloads(responses[i])
  {
    hide OneMessage, Session.InStep, Session.Paired, Session.Ready, Safe, Payloads;
    session := Connected(packetSize, header, hello, greeting);
    got := [];
    for k := 0 to |payloads|
      invariant fresh(session) && fresh(session.conn) && session.Valid() && session.Ready()
      invariant |got| == k && forall i :: 0 <= i < k ==> got[i] == Payloads(responses[i])
    {
      var answer := Exchange(session, header, payloads[k], responses[k]);
      got := got + [answer];
    }
  }

  /**
   * A query whose item does not encode, or is empty, wedges a session in perfect order: `send` clears
   * the flushed mark before it knows that it will write nothing.
   */
  method FailedItemWedges(packetSize: nat, header: PacketHeader, hello: bytes, greeting: seq<Packet>, item: Item)
    returns (session: Session)
    requires HEADER_BYTES < packetSize <= 0xFFFF && hello != [] && OneMessage(greeting)
    requires item in {Fails, Encodes([])}
    ensures session.Valid() && session.conn.steady && session.conn.Usable() && session.Wedged()
  {
    hide OneMessage, Session.InStep, Session.Paired, Safe, Finals, OnBoundary, DecodeAll, Payloads;
    session := Connected(packetSize, header, hello, greeting);
    var _ := session.Query(header, item);
  }

  lemma Handed(delivered: bytes, data: bytes, coming: bytes)
    ensures (delivered + data) + coming == delivered + (data + coming)
    ensures delivered + data <= (delivered + data) + coming
  {
  }

  /** A new answer, still empty, joins the log. */
  lemma Opens(session: Session, log: seq<Answer>)
    requires forall a :: a in log ==> a.got <= session.ResponseTo(a.request)
    requires session.asked ==> session.delivered == []
    ensures Logged(session, if session.asked then log + [Answer(session.request, [])] else log)
  {
  }

  /** The open answer grows. */
  lemma Grows(session: Session, log: seq<Answer>)
    requires forall a :: a in log ==> a.got <= session.ResponseTo(a.request)
    requires session.asked ==> log != [] && session.delivered <= session.ResponseTo(session.request)
    ensures Logged(session, if session.asked then log[|log| - 1 := Answer(session.request, session.delivered)] else log)
  {
  }

  lemma WedgedMeans(session: Session)
    ensures session.Wedged() ==> session.loggedIn && !session.conn.closed
  {
  }

  lemma OneFinal(ps: seq<Packet>)
    requires OneMessage(ps)
    ensures Finals(ps) == 1
  {
    FinalsOfPrefix(ps, |ps|);
    assert ps[..|ps|] == ps;
  }

  lemma AllDelivered(session: Session)
    requires session.Valid() && session.asked && !session.conn.closed && session.conn.Stream() == []
    ensures session.delivered == session.ResponseTo(session.request)
  {
    assert session.delivered + [] == session.delivered;
  }

  lemma OrderMeans(arriving: Reading, flushed: bool, closed: bool, sent: nat, answered: nat)
    requires InOrder(arriving, flushed, closed, sent, answered)
    ensures !Decode(arriving.rest).Malformed? && (flushed ==> arriving.packets == [])
    ensures !closed ==> arriving.rest == [] && (flushed ==> sent == answered)
    ensures !closed && arriving.packets != [] ==> sent == answered
  {
  }

  /** After draining a tail up to its end of message, nothing is left. */
  lemma FlushedTail(taken: seq<Packet>, left: seq<Packet>)
    requires OneTail(taken + left)
    ensures OneTail(left)
    ensures taken != [] && IsLast(taken[|taken| - 1]) ==> left == []
  {
    assert forall i :: 0 <= i < |left| ==> left[i] == (taken + left)[|taken| + i];
    if taken != [] && left != [] {
      assert (taken + left)[|taken| - 1] == taken[|taken| - 1];
    }
  }

  lemma NothingArrives()
    ensures DecodeAll([]) == Reading([], []) && Payloads([]) == []
  {
  }

  lemma NewArrivals(received: bytes, coming: bytes, ps: seq<Packet>)
    requires OneMessage(ps) && DecodeAll(received + coming) == Reading([], [])
    ensures DecodeAll(received + (coming + EncodeAll(ps))) == Reading(ps, [])
  {
    hide Decode, DecodeAll, Encoded;
    DecodeAllSound(received + coming);
    assert received + (coming + EncodeAll(ps)) == EncodeAll(ps);
    DecodeAllExact(ps);
  }

  lemma Truncation(received: bytes, coming: bytes, keep: nat)
    requires keep <= |coming|
    ensures DecodeAll(received + coming[..keep]).packets <= DecodeAll(received + coming).packets
    ensures Decode(DecodeAll(received + coming[..keep]).rest).Malformed? ==>
              Decode(DecodeAll(received + coming).rest).Malformed?
  {
    hide Decode;
    var kept, cut := received + coming[..keep], coming[keep..];
    assert received + coming == kept + cut;
    DecodeAllInstalments(kept, cut);
    var rest := DecodeAll(kept).rest;
    if Decode(rest).Malformed? {
      DecodeStable(rest, cut);
    }
  }

  lemma UnflushedTail(taken: seq<Packet>, left: seq<Packet>)
    requires OneTail(taken + left)
    ensures (taken != [] && IsLast(taken[|taken| - 1])) || Finals(left) == Finals(taken + left)
  {
    if taken == [] {
      assert taken + left == left;
    } else if !IsLast(taken[|taken| - 1]) {
      assert forall i :: 0 <= i < |taken| ==> taken[i] == (taken + left)[i];
      FinalsZero(taken);
      FinalsConcat(taken, left);
    }
  }

  /** A send completes at most one request: exactly one if it finishes with something to send. */
  lemma RequestsAfterSend(before: bytes, after: bytes, header: PacketHeader, payload: bytes, room: nat, r: Outcome)
    requires ValidRoom(room) && OnBoundary(before)
    requires r in {Done, Interrupted} && Wrote(before, after, EncodeAll(Split(header, payload, room)), r)
    ensures Requests(before) <= Requests(after) <= Requests(before) + 1
    ensures r == Done && payload != [] ==> Requests(after) == Requests(before) + 1
    ensures r == Done && payload == [] ==> after == before
  {
    hide OnBoundary, DecodeAll, Encoded;
    if payload == [] {
      assert after == before;
    } else {
      var ps := Split(header, payload, room);
      SplitIsOneMessage(header, payload, room);
      var part := after[|before|..];
      assert after == before + part;
      if part == EncodeAll(ps) {
        AppendMessage(before, ps);
      } else {
        AppendPart(before, ps, part);
      }
    }
  }
}
