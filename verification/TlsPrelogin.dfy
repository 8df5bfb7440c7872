/** The TLS pre-login wrapper (src/client/tls.rs): TDS headers around TLS handshake bytes. */
module TlsPrelogin {
  import opened Bytes
  import opened Header
  import opened Packets
  import opened Framing

  datatype PollRead = ReadPending | ReadError | ReadReady(data: bytes)

  /** `FlushPanic`: the buffered bytes do not fit one packet, which `PacketHeader::new` asserts. */
  datatype PollFlush = FlushPending | FlushError | FlushReady | FlushPanic

  /** What the wrapped stream will do: anything, or answer at once and take `room` more bytes. */
  datatype Schedule = Anything | Prompt(room: nat)

  /** The body length a pre-login header announces; `None` if the wrapper rejects the header. */
  function BodyLength(header: bytes): (r: Option<nat>)
    requires |header| >= HEADER_BYTES
  {
    match DecodeHeader(header)
    case Parsed(h) =>
      if h.ty == PreLogin && h.length >= HEADER_BYTES then Some(h.length - HEADER_BYTES) else None
    case _ => None
  }

  /** The body bytes to expect behind a header: none behind a rejected one. */
  function BodyAfter(header: bytes): nat
    requires |header| >= HEADER_BYTES
  {
    var n := BodyLength(header);
    if n.Some? then n.value else 0
  }

  /**
   * The bytes a peer's stream carries past its headers. A rejected header is reported as an error
   * once; reading on then skips those eight bytes.
   */
  function Strip(s: bytes): bytes
    decreases |s|, 0
  {
    if |s| < HEADER_BYTES then []
    else Body(BodyAfter(s), s[HEADER_BYTES..])
  }

  /** The same with `remaining` bytes of a body still to come. */
  function Body(remaining: nat, s: bytes): bytes
    decreases |s|, 1
  {
    if |s| <= remaining then s else s[..remaining] + Strip(s[remaining..])
  }

  class TlsPreloginWrapper {
    // The wrapped stream: bytes coming from the peer, and bytes written to it.
    var inbound: bytes
    var wire: bytes
    var schedule: Schedule

    var pendingHandshake: bool
    const headerBuf: array<u8>
    var headerPos: nat
    var readRemaining: nat
    var wrBuf: bytes
    var headerWritten: bool

    ghost predicate Valid()
      reads this, headerBuf
    {
      && headerBuf.Length == HEADER_BYTES
      && headerPos <= HEADER_BYTES
      && (headerPos < HEADER_BYTES ==> readRemaining == 0)
      && (headerPos == HEADER_BYTES ==>
            readRemaining <= BodyAfter(headerBuf[..]) && (readRemaining == 0 ==> BodyAfter(headerBuf[..]) == 0))
      && (headerWritten ==> 0 < |wrBuf|)
      && (!headerWritten ==> HEADER_BYTES <= |wrBuf|)
    }

    /** What the reader above is still to be handed. */
    ghost function Upward(): bytes
      requires Valid()
      reads this, headerBuf
    {
      if headerPos < HEADER_BYTES then Strip(headerBuf[..headerPos] + inbound) else Body(readRemaining, inbound)
    }

    constructor (inbound: bytes, schedule: Schedule)
      ensures Valid() && pendingHandshake && fresh(headerBuf)
      ensures this.inbound == inbound && this.schedule == schedule && wire == [] && headerPos == 0
      ensures |wrBuf| == HEADER_BYTES && !headerWritten
      ensures Upward() == Strip(inbound)
    {
      this.inbound, this.schedule, wire := inbound, schedule, [];
      pendingHandshake := true;
      headerBuf := new u8[HEADER_BYTES](_ => 0);
      headerPos, readRemaining := 0, 0;
      wrBuf := seq(HEADER_BYTES, _ => 0);
      headerWritten := false;
      new;
      assert headerBuf[..0] + inbound == inbound;
    }

    /** One read of the wrapped stream into a buffer of `size` bytes; zero bytes only at its end. */
    method ReadInner(size: nat) returns (r: PollRead)
      modifies this`inbound
      ensures r.ReadReady? ==> |r.data| <= size && r.data + inbound == old(inbound)
      ensures r.ReadReady? && r.data == [] && size > 0 ==> inbound == []
      ensures !r.ReadReady? ==> inbound == old(inbound)
      ensures schedule.Prompt? ==> r == ReadReady(old(inbound)[..if size < |old(inbound)| then size else |old(inbound)|])
    {
      if schedule.Anything? {
        if * {
          return ReadPending;
        } else if * {
          return ReadError;
        }
      }
      var most := if size < |inbound| then size else |inbound|;
      var n: nat :| n <= most && (n == 0 ==> most == 0) && (schedule.Prompt? ==> n == most);
      r := ReadReady(inbound[..n]);
      inbound := inbound[n..];
    }

    /** The header part of `poll_read`: fill the header buffer, then learn the body length. */
    method ReadHeader() returns (r: PollRead)
      requires Valid() && headerPos < HEADER_BYTES
      modifies this`inbound, this`headerPos, this`readRemaining, headerBuf
      ensures Valid() && Upward() == old(Upward())
      ensures r.ReadReady? ==> r.data == []
      ensures r.ReadReady? ==> headerPos == HEADER_BYTES || inbound == []
      ensures r.ReadPending? ==> headerPos < HEADER_BYTES
      ensures headerPos == HEADER_BYTES ==>
                BodyLength(headerBuf[..]) == if r.ReadReady? then Some(readRemaining) else None
      ensures schedule.Prompt? && |old(headerBuf[..headerPos] + inbound)| >= HEADER_BYTES ==>
                headerPos == HEADER_BYTES && headerBuf[..] + inbound == old(headerBuf[..headerPos] + inbound)
    {
      ghost var bytesIn := headerBuf[..headerPos] + inbound;
      while headerPos < HEADER_BYTES
        invariant headerPos <= HEADER_BYTES && readRemaining == 0
        invariant headerBuf[..headerPos] + inbound == bytesIn
        decreases HEADER_BYTES - headerPos
      {
        ghost var before := headerBuf[..headerPos];
        r := ReadInner(HEADER_BYTES - headerPos);
        if !r.ReadReady? || r.data == [] {
          return;
        }
        var data, pos := r.data, headerPos;
        forall i | 0 <= i < |data| {
          headerBuf[pos + i] := data[i];
        }
        headerPos := headerPos + |data|;
        assert headerBuf[..headerPos] == before + data;
        assert before + (data + inbound) == before + data + inbound;
      }
      var header := headerBuf[..];
      assert header == headerBuf[..headerPos];
      BodyLengthOf(header, inbound);
      match BodyLength(header) {
        case None => return ReadError;
        case Some(n) => readRemaining := n;
      }
      r := ReadReady([]);
    }

    /** `poll_read`: hands up body bytes only, in order, whatever the fragmentation. */
    method Read(size: nat) returns (r: PollRead)
      requires Valid()
      modifies this`inbound, this`headerPos, this`readRemaining, headerBuf
      ensures Valid()
      ensures pendingHandshake && r.ReadReady? ==> |r.data| <= size && old(Upward()) == r.data + Upward()
      ensures pendingHandshake && !r.ReadReady? ==> Upward() == old(Upward())
      ensures !pendingHandshake && r.ReadReady? ==> |r.data| <= size && old(inbound) == r.data + inbound
      ensures !pendingHandshake && !r.ReadReady? ==> inbound == old(inbound)
      ensures pendingHandshake && size > 0 && r.ReadReady? && inbound != [] ==>
                (r.data == [] <==> headerPos == 0 && BodyAfter(headerBuf[..]) == 0)
      ensures pendingHandshake && schedule.Prompt? && old(headerPos == 0 && |inbound| >= HEADER_BYTES) ==>
                if BodyLength(old(inbound)).None? then r == ReadError
                else r.ReadReady? && |r.data| == Least(BodyAfter(old(inbound)), Least(size, |old(inbound)| - HEADER_BYTES))
    {
      hide Strip, Body, BodyLength;
      assert headerPos == 0 ==> headerBuf[..headerPos] + inbound == inbound;
      if !pendingHandshake {
        r := ReadInner(size);
        return;
      }
      if headerPos < HEADER_BYTES {
        r := ReadHeader();
        if headerPos == HEADER_BYTES {
          BodyLengthOf(headerBuf[..], inbound);
        }
        if !r.ReadReady? || headerPos < HEADER_BYTES {
          return;
        }
      }
      r := ReadBody(size);
    }

    /** The body part of `poll_read`. */
    method ReadBody(size: nat) returns (r: PollRead)
      requires Valid() && headerPos == HEADER_BYTES
      modifies this`inbound, this`headerPos, this`readRemaining
      ensures Valid()
      ensures r.ReadReady? ==> |r.data| <= size && old(Upward()) == r.data + Upward()
      ensures !r.ReadReady? ==> Upward() == old(Upward())
      ensures r.ReadReady? && size > 0 && inbound != [] ==> (r.data == [] <==> old(readRemaining) == 0)
      ensures r.ReadReady? ==> headerPos == if |r.data| == old(readRemaining) then 0 else HEADER_BYTES
      ensures schedule.Prompt? ==> r.ReadReady? && |r.data| == Least(old(readRemaining), Least(size, |old(inbound)|))
    {
      hide Strip, Body, BodyLength, BodyAfter;
      var most := if readRemaining < size then readRemaining else size;
      r := ReadInner(most);
      if !r.ReadReady? {
        return;
      }
      BodyStep(readRemaining, r.data, inbound);
      readRemaining := readRemaining - |r.data|;
      if readRemaining == 0 {
        headerPos := 0;
        assert headerBuf[..0] + inbound == inbound;
      }
    }

    /** `poll_write` during the handshake: buffer everything. */
    method Write(data: bytes) returns (n: nat)
      requires Valid() && pendingHandshake
      modifies this`wrBuf
      ensures Valid() && n == |data| && wrBuf == old(wrBuf) + data
    {
      wrBuf := wrBuf + data;
      n := |data|;
    }

    /** The rest of a packet that is being drained, and the bytes not yet framed. */
    ghost function Draining(): bytes
      reads this
    {
      if headerWritten then wrBuf else []
    }

    ghost function Buffered(): bytes
      requires Valid()
      reads this, headerBuf
    {
      if headerWritten then [] else wrBuf[HEADER_BYTES..]
    }

    predicate Overlong()
      reads this
    {
      !headerWritten && |wrBuf| > 0xFFFF
    }

    /** What a flush owes the wire: the rest of a packet being drained, or the buffered bytes framed. */
    ghost function Due(): bytes
      requires Valid() && !Overlong()
      reads this, headerBuf
    {
      if headerWritten then wrBuf
      else if |wrBuf| == HEADER_BYTES then []
      else Encoded(HandshakePacket(wrBuf[HEADER_BYTES..]))
    }

    /**
     * `poll_flush` during the handshake. A flush that reports success has written what it owes
     * except in one case, which is exactly the one its guard overlooks: a drain that was
     * interrupted with at most a header's worth of bytes left.
     */
    method Flush() returns (r: PollFlush)
      requires Valid() && pendingHandshake
      modifies this`wrBuf, this`headerWritten, this`wire, this`schedule
      ensures Valid()
      ensures r == FlushPanic <==> old(Overlong())
      ensures old(|wrBuf|) <= HEADER_BYTES || r == FlushPanic ==>
                wire == old(wire) && wrBuf == old(wrBuf) && headerWritten == old(headerWritten)
      ensures r != FlushPanic ==> !Overlong() && wire + Due() == old(wire + Due())
      ensures r != FlushPanic ==> Buffered() == []
      ensures r == FlushReady ==>
                (wire == old(wire + Due()) <==> !(old(headerWritten) && old(|wrBuf|) <= HEADER_BYTES))
      ensures r == FlushReady && old(!headerWritten || |wrBuf| > HEADER_BYTES) ==>
                !headerWritten && |wrBuf| == HEADER_BYTES
      ensures old(schedule.Prompt? && !Overlong() && |wrBuf| > HEADER_BYTES) ==>
                && r == (if old(schedule).room < |old(Due())| then FlushPending else FlushReady)
                && |wire| == old(|wire|) + Least(old(schedule).room, |old(Due())|)
      ensures old(schedule.Prompt? && |wrBuf| <= HEADER_BYTES) ==> r == FlushReady
    {
      if Overlong() {
        return FlushPanic;
      }
      if |wrBuf| > HEADER_BYTES {
        if !headerWritten {
          Frame();
        }
        var ok := DrainBuffer();
        if ok != FlushReady {
          return ok;
        }
      }
      r := Settle();
    }

    /** The header goes into the eight bytes kept free for it. */
    method Frame()
      requires Valid() && !headerWritten && HEADER_BYTES < |wrBuf| <= 0xFFFF
      modifies this`wrBuf, this`headerWritten
      ensures Valid() && headerWritten && wrBuf == old(Due())
    {
      var header := NewHeader(|wrBuf|, 0).(ty := PreLogin, status := EndOfMessage);
      ghost var framed := Encoded(HandshakePacket(wrBuf[HEADER_BYTES..]));
      wrBuf := EncodeHeader(header) + wrBuf[HEADER_BYTES..];
      assert wrBuf == framed;
      headerWritten := true;
    }

    /** The write loop: as much of the framed packet as the stream takes. */
    method DrainBuffer() returns (r: PollFlush)
      requires Valid() && headerWritten
      modifies this`wrBuf, this`headerWritten, this`wire, this`schedule
      ensures Valid() && r != FlushPanic
      ensures r == FlushReady ==> wire == old(wire + wrBuf) && !headerWritten && |wrBuf| == HEADER_BYTES
      ensures r != FlushReady ==> wire + wrBuf == old(wire + wrBuf) && headerWritten
      ensures schedule.Prompt? == old(schedule.Prompt?)
      ensures old(schedule.Prompt?) ==>
                && r == (if old(schedule).room < old(|wrBuf|) then FlushPending else FlushReady)
                && |wire| == old(|wire|) + Least(old(schedule).room, old(|wrBuf|))
    {
      while wrBuf != []
        invariant headerWritten && wire + wrBuf == old(wire + wrBuf)
        invariant schedule.Prompt? == old(schedule.Prompt?)
        invariant schedule.Prompt? ==> |wire| + schedule.room == old(|wire| + schedule.room)
        decreases |wrBuf|
      {
        if schedule == Prompt(0) {
          return FlushPending;
        } else if schedule.Anything? {
          if * {
            return FlushPending;
          } else if * {
            return FlushError;
          }
        }
        var n: nat :| 0 < n <= |wrBuf| && (schedule.Prompt? ==> n <= schedule.room);
        wire, wrBuf := wire + wrBuf[..n], wrBuf[n..];
        if schedule.Prompt? {
          schedule := Prompt(schedule.room - n);
        }
      }
      wrBuf := seq(HEADER_BYTES, _ => 0);
      headerWritten := false;
      r := FlushReady;
    }

    /** The flush of the wrapped stream. */
    method Settle() returns (r: PollFlush)
      ensures r != FlushPanic && (schedule.Prompt? ==> r == FlushReady)
    {
      if schedule.Anything? {
        if * {
          return FlushPending;
        } else if * {
          return FlushError;
        }
      }
      r := FlushReady;
    }
  }

  function Least(a: nat, b: nat): nat
  {
    if a < b then a else b
  }

  /** The packet one flush makes of the buffered bytes. */
  function HandshakePacket(data: bytes): (p: Packet)
    requires |data| + HEADER_BYTES <= 0xFFFF
    ensures WellFormed(p)
  {
    Sized(NewHeader(0, 0).(ty := PreLogin, status := EndOfMessage), data)
  }

  lemma BodyLengthOf(header: bytes, rest: bytes)
    requires |header| == HEADER_BYTES
    ensures BodyLength(header + rest) == BodyLength(header)
    ensures BodyAfter(header + rest) == BodyAfter(header)
  {
  }

  lemma BodyStep(remaining: nat, data: bytes, rest: bytes)
    requires |data| <= remaining
    ensures Body(remaining, data + rest) == data + Body(remaining - |data|, rest)
    ensures Body(0, rest) == Strip(rest)
  {
    hide Strip;
    var s := data + rest;
    if |s| > remaining {
      assert s[remaining..] == rest[remaining - |data|..];
      assert data + (rest[..remaining - |data|] + Strip(s[remaining..]))
          == data + rest[..remaining - |data|] + Strip(s[remaining..]);
    }
    EmptyBody(rest);
  }

  lemma EmptyBody(s: bytes)
    ensures Body(0, s) == Strip(s)
  {
    assert s[0..] == s;
  }

  // ---------------------------------------------------------- what stripping means

  ghost predicate PreLoginPackets(ps: seq<Packet>)
  {
    AllWellFormed(ps) && forall i :: 0 <= i < |ps| ==> ps[i].header.ty == PreLogin
  }

  /** From pre-login packets the wrapper hands up exactly their payloads, and no header byte. */
  lemma {:induction false} StripEncoded(ps: seq<Packet>, more: bytes)
    requires PreLoginPackets(ps)
    ensures Strip(EncodeAll(ps) + more) == Payloads(ps) + Strip(more)
  {
    hide Strip, Encoded;
    if ps == [] {
      assert EncodeAll(ps) + more == more;
    } else {
      StripOne(ps[0], EncodeAll(ps[1..]) + more);
      assert EncodeAll(ps) + more == Encoded(ps[0]) + (EncodeAll(ps[1..]) + more);
      StripEncoded(ps[1..], more);
    }
  }

  lemma StripOne(p: Packet, tail: bytes)
    requires WellFormed(p) && p.header.ty == PreLogin
    ensures Strip(Encoded(p) + tail) == p.payload + Strip(tail)
  {
    HeaderRoundTrip(p.header, p.payload + tail);
    assert Encoded(p) + tail == EncodeHeader(p.header) + (p.payload + tail);
    assert (Encoded(p) + tail)[HEADER_BYTES..] == p.payload + tail;
    BodyStep(|p.payload|, p.payload, tail);
  }

  /** More bytes from the peer only ever extend what was handed up. */
  lemma {:induction false} StripGrows(a: bytes, b: bytes)
    ensures Strip(a) <= Strip(a + b)
    decreases |a|
  {
    if |a| >= HEADER_BYTES {
      BodyLengthOf(a[..HEADER_BYTES], a[HEADER_BYTES..] + b);
      BodyLengthOf(a[..HEADER_BYTES], a[HEADER_BYTES..]);
      assert a == a[..HEADER_BYTES] + a[HEADER_BYTES..];
      assert a + b == a[..HEADER_BYTES] + (a[HEADER_BYTES..] + b);
      var n := BodyAfter(a);
      var x, y := a[HEADER_BYTES..], (a + b)[HEADER_BYTES..];
      assert y == x + b;
      if |x| > n {
        assert y[n..] == x[n..] + b && y[..n] == x[..n];
        StripGrows(x[n..], b);
      } else {
        BodyStep(n, x, b);
      }
    }
  }

  /** Hence while packets are still arriving, the reader above has a prefix of their payloads. */
  lemma StripPrefix(ps: seq<Packet>, arrived: bytes)
    requires PreLoginPackets(ps) && arrived <= EncodeAll(ps)
    ensures Strip(arrived) <= Payloads(ps)
  {
    var missing := EncodeAll(ps)[|arrived|..];
    assert arrived + missing == EncodeAll(ps) + [];
    StripGrows(arrived, missing);
    StripEncoded(ps, []);
  }

  /** Nothing but headers, each with no body, up to at most one more header or a part of one. */
  predicate HeadersOnly(s: bytes)
  {
    |s| <= HEADER_BYTES || (BodyAfter(s) == 0 && HeadersOnly(s[HEADER_BYTES..]))
  }

  lemma {:induction false} StripsToNothing(s: bytes)
    ensures Strip(s) == [] <==> HeadersOnly(s)
  {
    if |s| > HEADER_BYTES {
      var rest := s[HEADER_BYTES..];
      if BodyAfter(s) == 0 {
        BodyStep(0, [], rest);
        StripsToNothing(rest);
      }
    }
  }

  /**
   * The wrapper rejects any other header, but only once: a caller that reads on is handed what follows.
   * That is nothing exactly if only headers without a body follow.
   */
  lemma StripResumes(ps: seq<Packet>, rejected: bytes, rest: bytes)
    requires PreLoginPackets(ps)
    requires |rejected| == HEADER_BYTES && BodyLength(rejected).None?
    ensures Strip(EncodeAll(ps) + rejected + rest) == Payloads(ps) + Strip(rest)
    ensures Strip(EncodeAll(ps) + rejected + rest) == Payloads(ps) <==> HeadersOnly(rest)
  {
    hide EncodeAll, Payloads;
    assert EncodeAll(ps) + rejected + rest == EncodeAll(ps) + (rejected + rest);
    StripEncoded(ps, rejected + rest);
    BodyLengthOf(rejected, rest);
    assert (rejected + rest)[HEADER_BYTES..] == rest;
    BodyStep(0, [], rest);
    StripsToNothing(rest);
  }

  /** For instance: a header of another type, then one byte in a good packet. */
  lemma StripAfterError(bad: PacketHeader, x: u8)
    requires bad.ty != PreLogin
    ensures Strip(EncodeHeader(bad) + Encoded(HandshakePacket([x]))) == [x]
  {
    var p := HandshakePacket([x]);
    HeaderRoundTrip(bad, []);
    assert EncodeHeader(bad) + [] == EncodeHeader(bad);
    StripResumes([], EncodeHeader(bad), Encoded(p));
    assert EncodeAll([]) + EncodeHeader(bad) + Encoded(p) == EncodeHeader(bad) + Encoded(p);
    StripOne(p, []);
    assert Encoded(p) + [] == Encoded(p);
  }

  // ------------------------------------------------------------- whole handshakes

  datatype Event = WriteEvent(data: bytes) | FlushEvent | ReadEvent(size: nat)

  /** All that the TLS layer writes in a run. */
  function Written(events: seq<Event>): bytes
  {
    if events == [] then []
    else
      var last := events[|events| - 1];
      Written(events[..|events| - 1]) + if last.WriteEvent? then last.data else []
  }

  /** The sending side at one moment. */
  datatype Moment = Moment(wire: bytes, draining: bytes, buffered: bytes)

  ghost function Now(w: TlsPreloginWrapper): Moment
    requires w.Valid()
    reads w, w.headerBuf
  {
    Moment(w.wire, w.Draining(), w.Buffered())
  }

  /** The peer recovers what was written so far, once the packet being drained is on the wire. */
  ghost predicate Intact(m: Moment, written: bytes)
  {
    Strip(m.wire + m.draining) + m.buffered == written
  }

  /** A write that lands behind the rest of a packet whose length is already fixed. */
  predicate Intrudes(m: Moment, event: Event)
  {
    m.draining != [] && event.WriteEvent? && event.data != []
  }

  lemma DueLength(w: TlsPreloginWrapper)
    requires w.Valid()
    ensures !w.Overlong() && |w.wrBuf| > HEADER_BYTES ==> |w.Due()| == |w.wrBuf|
  {
  }

  /** What is out, or on its way out, are whole pre-login packets; with the buffer they hold what was written. */
  ghost predicate Framed(m: Moment, ps: seq<Packet>, written: bytes)
  {
    PreLoginPackets(ps) && m.wire + m.draining == EncodeAll(ps) && Payloads(ps) + m.buffered == written
  }

  /** The packets after a flush. */
  ghost function Flushed(m: Moment, ps: seq<Packet>): seq<Packet>
  {
    if m.buffered == [] || |m.buffered| + HEADER_BYTES > 0xFFFF then ps else ps + [HandshakePacket(m.buffered)]
  }

  /** One event, pending or failing at any point. */
  method Step(w: TlsPreloginWrapper, event: Event, ghost ps: seq<Packet>, ghost written: bytes)
    returns (handed: bytes, ghost ps': seq<Packet>)
    requires w.Valid() && w.pendingHandshake
    modifies w, w.headerBuf
    ensures w.Valid() && w.pendingHandshake
    ensures old(w.Upward()) == handed + w.Upward()
    ensures var written' := written + (if event.WriteEvent? then event.data else []);
      old(Framed(Now(w), ps, written)) ==>
        if old(Intrudes(Now(w), event)) then !Intact(Now(w), written') else Framed(Now(w), ps', written')
    ensures event.FlushEvent? && old(w.schedule.Prompt? && !w.Overlong() && HEADER_BYTES < |w.wrBuf| <= w.schedule.room) ==>
              !w.headerWritten && |w.wrBuf| == HEADER_BYTES
    ensures event.ReadEvent? && old(w.schedule.Prompt? && w.headerPos == 0 && |w.inbound| >= HEADER_BYTES)
              && BodyLength(old(w.inbound)).Some? ==>
              |handed| == Least(BodyAfter(old(w.inbound)), Least(event.size, old(|w.inbound|) - HEADER_BYTES))
  {
    hide Strip, Body, BodyAfter, Encoded, HandshakePacket, Intact, Framed;
    assert written + [] == written;
    handed, ps' := [], ps;
    ghost var before := Now(w);
    match event {
      case WriteEvent(data) =>
        var _ := w.Write(data);
        assert !w.headerWritten ==> w.Buffered() == before.buffered + data;
        if Framed(before, ps, written) {
          WriteKeeps(before, data, ps, written);
        }
      case FlushEvent =>
        ps' := Flushed(before, ps);
        DueLength(w);
        var r := w.Flush();
        if Framed(before, ps, written) && r != FlushPanic {
          FlushKeeps(before, Now(w), ps, written);
        }
      case ReadEvent(size) =>
        var r := w.Read(size);
        if r.ReadReady? {
          handed := r.data;
        }
    }
  }

  /**
   * Every run of writes, flushes and reads, pending or failing anywhere. The reader is handed what the
   * peer's stream carries, in order. The peer can recover everything written, at every moment of the
   * run, exactly if no write came while a packet was being drained.
   */
  method Run(w: TlsPreloginWrapper, events: seq<Event>) returns (handed: bytes, ghost trace: seq<Moment>)
    requires w.Valid() && w.pendingHandshake && !w.headerWritten && |w.wrBuf| == HEADER_BYTES && w.wire == []
    modifies w, w.headerBuf
    ensures w.Valid() && w.pendingHandshake
    ensures old(w.Upward()) == handed + w.Upward()
    ensures |trace| == |events| + 1 && trace[0] == Moment([], [], []) && trace[|events|] == Now(w)
    ensures (forall k :: 0 <= k <= |events| ==> Intact(trace[k], Written(events[..k])))
       <==> (forall k :: 0 <= k < |events| ==> !Intrudes(trace[k], events[k]))
    ensures (forall k :: 0 <= k < |events| ==> !Intrudes(trace[k], events[k])) ==>
              exists ps :: Framed(Now(w), ps, Written(events))
  {
    hide Written, Intact, Framed, Intrudes, Now, TlsPreloginWrapper.Valid, TlsPreloginWrapper.Upward;
    NothingWritten();
    AtFirst(w);
    handed, trace := [], [Now(w)];
    ghost var ps: seq<Packet> := [];
    ghost var clean := true;
    for i := 0 to |events|
      invariant w.Valid() && w.pendingHandshake
      invariant old(w.Upward()) == handed + w.Upward()
      invariant |trace| == i + 1 && trace[0] == Moment([], [], []) && trace[i] == Now(w)
      invariant clean <==> forall k :: 0 <= k <= i ==> Intact(trace[k], Written(events[..k]))
      invariant clean <==> forall k :: 0 <= k < i ==> !Intrudes(trace[k], events[k])
      invariant clean ==> Framed(Now(w), ps, Written(events[..i]))
    {
      WrittenStep(events, i);
      clean := clean && !Intrudes(trace[i], events[i]);
      var data;
      data, ps := Step(w, events[i], ps, Written(events[..i]));
      if Framed(Now(w), ps, Written(events[..i + 1])) {
        FramedIsIntact(Now(w), ps, Written(events[..i + 1]));
      }
      handed := handed + data;
      trace := trace + [Now(w)];
    }
    assert events[..|events|] == events;
  }

  /**
   * Two wrappers face to face. Unless a write came during a drain, the receiving side hands up what was
   * written: part of it while bytes are missing, all of it once the wire is drained and read.
   */
  method Handshake(events: seq<Event>, readings: seq<Event>, schedule: Schedule, schedule': Schedule)
    returns (w: TlsPreloginWrapper, peer: TlsPreloginWrapper, handed: bytes, ghost trace: seq<Moment>)
    ensures w.Valid() && peer.Valid() && |trace| == |events| + 1 && trace[|events|] == Now(w)
    ensures (forall k :: 0 <= k < |events| ==> !Intrudes(trace[k], events[k])) ==>
              && handed <= Written(events)
              && (peer.inbound == [] && !w.headerWritten && |w.wrBuf| == HEADER_BYTES ==> handed == Written(events))
  {
    hide Strip, Body, Framed, Intrudes, Written;
    w := new TlsPreloginWrapper([], schedule);
    var received;
    received, trace := Run(w, events);
    peer := new TlsPreloginWrapper(w.wire, schedule');
    ghost var trace';
    handed, trace' := Run(peer, readings);
    NothingComes(peer);
    if forall k :: 0 <= k < |events| ==> !Intrudes(trace[k], events[k]) {
      ghost var ps :| Framed(Now(w), ps, Written(events));
      WireOfFramed(Now(w), ps, Written(events));
    }
  }

  lemma NothingComes(w: TlsPreloginWrapper)
    requires w.Valid()
    ensures w.inbound == [] ==> w.Upward() == []
  {
  }

  lemma WireOfFramed(m: Moment, ps: seq<Packet>, written: bytes)
    requires Framed(m, ps, written)
    ensures Strip(m.wire) <= written
    ensures m.draining == [] && m.buffered == [] ==> Strip(m.wire) == written
  {
    hide Strip, EncodeAll, Payloads;
    StripPrefix(ps, m.wire);
    if m.draining == [] && m.buffered == [] {
      FramedIsIntact(m, ps, written);
      assert m.wire + m.draining == m.wire;
    }
  }

  lemma FramedIsIntact(m: Moment, ps: seq<Packet>, written: bytes)
    requires Framed(m, ps, written)
    ensures Intact(m, written)
  {
    hide EncodeAll, Payloads;
    StripEncoded(ps, []);
    assert EncodeAll(ps) + [] == EncodeAll(ps);
  }

  lemma AtFirst(w: TlsPreloginWrapper)
    requires w.Valid() && !w.headerWritten && |w.wrBuf| == HEADER_BYTES && w.wire == []
    ensures Now(w) == Moment([], [], [])
  {
  }

  lemma WrittenStep(events: seq<Event>, i: nat)
    requires i < |events|
    ensures Written(events[..i + 1]) == Written(events[..i]) + if events[i].WriteEvent? then events[i].data else []
  {
    assert events[..i + 1][..i] == events[..i];
  }

  lemma NothingWritten()
    ensures Written([]) == []
    ensures Framed(Moment([], [], []), [], []) && Intact(Moment([], [], []), []) && Strip([]) == []
  {
  }

  /** Stripping always costs something. */
  lemma {:induction false} StripShrinks(s: bytes)
    ensures s != [] ==> |Strip(s)| < |s|
  {
    if |s| >= HEADER_BYTES {
      var k := BodyAfter(s);
      var rest := s[HEADER_BYTES..];
      if |rest| > k {
        StripShrinks(rest[k..]);
      }
    }
  }

  lemma WriteKeeps(m: Moment, data: bytes, ps: seq<Packet>, written: bytes)
    requires Framed(m, ps, written) && (m.draining != [] ==> m.buffered == [])
    ensures m.draining == [] ==> Framed(m.(buffered := m.buffered + data), ps, written + data)
    ensures m.draining != [] && data == [] ==> Framed(m.(draining := m.draining + data), ps, written + data)
    ensures m.draining != [] && data != [] ==> !Intact(m.(draining := m.draining + data), written + data)
  {
    hide Strip, EncodeAll, Payloads;
    if m.draining == [] {
      assert Payloads(ps) + (m.buffered + data) == (Payloads(ps) + m.buffered) + data;
    } else {
      assert m.wire + (m.draining + data) == (m.wire + m.draining) + data;
      StripEncoded(ps, data);
      StripShrinks(data);
      assert written == Payloads(ps);
    }
  }

  lemma FlushKeeps(m: Moment, m': Moment, ps: seq<Packet>, written: bytes)
    requires Framed(m, ps, written) && (m.draining != [] ==> m.buffered == [])
    requires |m.buffered| + HEADER_BYTES <= 0xFFFF && m'.buffered == []
    requires m.buffered == [] ==> m'.wire + m'.draining == m.wire + m.draining
    requires m.buffered != [] ==> m'.wire + m'.draining == m.wire + Encoded(HandshakePacket(m.buffered))
    ensures Framed(m', Flushed(m, ps), written)
  {
    hide Encoded, EncodeAll, Payloads, HandshakePacket;
    if m.buffered != [] {
      Turn(ps, m.buffered);
      assert m.wire + m.draining == m.wire;
    }
    assert written + [] == written;
  }

  /** One turn adds one packet. */
  lemma Turn(ps: seq<Packet>, data: bytes)
    requires PreLoginPackets(ps) && |data| + HEADER_BYTES <= 0xFFFF
    ensures var p := HandshakePacket(data);
      && PreLoginPackets(ps + [p])
      && EncodeAll(ps + [p]) == EncodeAll(ps) + Encoded(p)
      && Payloads(ps + [p]) == Payloads(ps) + data
  {
    var p := HandshakePacket(data);
    EncodeAllConcat(ps, [p]);
    PayloadsConcat(ps, [p]);
  }

  // ------------------------------------------------------------- concrete cases

  /** One byte written, and the stream stalls three bytes short: the next flush "succeeds" and writes nothing. */
  method ShortDrainExample() returns (w: TlsPreloginWrapper, first: PollFlush, second: PollFlush)
    ensures first == FlushPending && second == FlushReady
    ensures fresh(w) && w.Valid() && w.pendingHandshake && w.headerWritten && |w.wrBuf| == 3 && |w.wire| == 6
    ensures w.wire + w.wrBuf == Encoded(HandshakePacket([7]))
  {
    hide Encoded;
    w := new TlsPreloginWrapper([], Prompt(6));
    var _ := w.Write([7]);
    assert w.wrBuf[HEADER_BYTES..] == [7];
    first := w.Flush();
    assert |w.Due()| == 3;
    w.schedule := Prompt(100);
    second := w.Flush();
  }

  /** A second byte written at that point lands behind the packet, where the peer does not find it. */
  method IntrusionExample() returns (w: TlsPreloginWrapper)
    ensures w.Valid() && Strip(w.wire + w.Draining()) == [7] && w.Buffered() == []
  {
    hide Encoded;
    var first, second;
    w, first, second := ShortDrainExample();
    ghost var p := HandshakePacket([7]);
    ghost var wire, rest := w.wire, w.wrBuf;
    var _ := w.Write([8]);
    assert wire + (rest + [8]) == Encoded(p) + [8];
    StripOne(p, [8]);
    assert [7] + Strip([8]) == [7];
  }

  /** A stray write and a later one, chosen so that the headers the peer takes are not the ones sent. */
  function Stray(): (r: bytes)
    ensures |r| == 11
  {
    [0, 0, 0, 0, 0, 0, 0, 0, 0x12, 1, 1]
  }

  function Five(): (r: bytes)
    ensures |r| == 5
  {
    [0, 0, 0, 0, 0]
  }

  /**
   * Later writes can repair such damage by accident, so that one moment does not tell: [7] is drained,
   * `Stray` intrudes, `Five` and then any 248 bytes are framed, and the peer is handed all of it.
   */
  method AccidentExample(tail: bytes) returns (w: TlsPreloginWrapper)
    requires |tail| == 248
    ensures w.Valid() && Now(w) == Moment(w.wire, [], [])
    ensures Intact(Now(w), [7] + (Stray() + (Five() + tail)))
  {
    hide Strip, Encoded, HandshakePacket, Stray, Five;
    var first, second;
    w, first, second := ShortDrainExample();
    w.schedule := Prompt(1000);
    PayloadIs([7]);
    ghost var wire, rest := w.wire, w.wrBuf;
    var _ := w.Write(Stray());
    first := w.Flush();
    assert w.wire == Encoded(HandshakePacket([7])) + Stray();
    SendOne(w, Five());
    SendOne(w, tail);
    RepairedByAccident(tail);
    assert w.wire == Encoded(HandshakePacket([7])) +
                     (Stray() + (Encoded(HandshakePacket(Five())) + Encoded(HandshakePacket(tail))));
    assert w.wire + [] == w.wire;
  }

  /** Write and flush with nothing in the way. */
  method SendOne(w: TlsPreloginWrapper, data: bytes)
    requires w.Valid() && w.pendingHandshake && !w.headerWritten && |w.wrBuf| == HEADER_BYTES
    requires 0 < |data| <= 0xFFFF - HEADER_BYTES
    modifies w`wrBuf, w`headerWritten, w`wire, w`schedule
    ensures w.Valid() && w.pendingHandshake && !w.headerWritten && |w.wrBuf| == HEADER_BYTES
    ensures w.wire == old(w.wire) + Encoded(HandshakePacket(data))
  {
    hide Encoded, HandshakePacket;
    PayloadIs(data);
    w.schedule := Prompt(|data| + HEADER_BYTES);
    var _ := w.Write(data);
    assert w.wrBuf[HEADER_BYTES..] == data;
    var _ := w.Flush();
  }

  lemma RepairedByAccident(tail: bytes)
    requires |tail| == 248
    ensures Strip(Encoded(HandshakePacket([7])) +
                  (Stray() + (Encoded(HandshakePacket(Five())) + Encoded(HandshakePacket(tail)))))
         == [7] + (Stray() + (Five() + tail))
  {
    hide Strip, Encoded, HandshakePacket, Stray, Five;
    var last := Encoded(HandshakePacket(tail));
    PayloadIs([7]);
    StripOne(HandshakePacket([7]), Stray() + (Encoded(HandshakePacket(Five())) + last));
    FrameBytes(Five());
    FrameBytes(tail);
    StrayFrames(last);
    StrayBytes(tail);
  }

  lemma StrayFrames(last: bytes)
    requires |last| == 256
    ensures Strip(Stray() + (([0x12, 1, 0, 13, 0, 0, 0, 0] + Five()) + last)) == [0, 0, 0, 0, 0, 0, 0, 0] + last
  {
    hide Strip;
    var zeros: bytes := [0, 0, 0, 0, 0, 0, 0, 0];
    var header: bytes := [0x12, 1, 1, 0x12, 1, 0, 13, 0];
    assert Stray() + (([0x12, 1, 0, 13, 0, 0, 0, 0] + Five()) + last) == zeros + (header + (zeros + last));
    StripPast(zeros, header + (zeros + last));
    StripPast(header, zeros + last);
  }

  lemma StrayBytes(tail: bytes)
    ensures [0, 0, 0, 0, 0, 0, 0, 0] + ([0x12, 1, 1, 0, 0, 0, 0, 0] + tail) == Stray() + (Five() + tail)
  {
  }

  lemma PayloadIs(data: bytes)
    requires |data| + HEADER_BYTES <= 0xFFFF
    ensures HandshakePacket(data).payload == data && HandshakePacket(data).header.ty == PreLogin
  {
  }

  lemma FrameBytes(data: bytes)
    requires |data| + HEADER_BYTES <= 0xFFFF
    ensures var n := |data| + HEADER_BYTES;
      Encoded(HandshakePacket(data)) == [0x12, 1, n / 0x100, n % 0x100, 0, 0, 0, 0] + data
  {
  }

  /** A rejected header is skipped; a body that has not all arrived is handed up as it is. */
  lemma StripPast(header: bytes, rest: bytes)
    requires |header| == HEADER_BYTES
    ensures BodyLength(header).None? ==> Strip(header + rest) == Strip(rest)
    ensures |rest| <= BodyAfter(header) ==> Strip(header + rest) == rest
  {
    BodyLengthOf(header, rest);
    EmptyBody(rest);
    assert (header + rest)[HEADER_BYTES..] == rest;
  }

  /** A packet with an empty body, then one with a byte: the read before that byte answers "no bytes". */
  method EmptyBodyExample() returns (w: TlsPreloginWrapper, r: PollRead)
    ensures w.Valid() && r == ReadReady([]) && w.Upward() == [7]
  {
    hide Strip, Body, BodyLength, Encoded, HandshakePacket;
    EmptyThenFull();
    w := new TlsPreloginWrapper(Encoded(HandshakePacket([])) + Encoded(HandshakePacket([7])), Prompt(0));
    ghost var coming := w.Upward();
    r := w.Read(1);
    assert coming == [] + w.Upward() == w.Upward();
  }

  lemma EmptyThenFull()
    ensures var s := Encoded(HandshakePacket([])) + Encoded(HandshakePacket([7]));
      |s| >= HEADER_BYTES && BodyLength(s) == Some(0) && Strip(s) == [7]
  {
    hide Strip;
    var empty, full := HandshakePacket([]), HandshakePacket([7]);
    StripOne(empty, Encoded(full));
    StripOne(full, []);
    NothingWritten();
    assert Encoded(full) + [] == Encoded(full);
    HeaderRoundTrip(empty.header, Encoded(full));
    assert Encoded(empty) == EncodeHeader(empty.header);
  }
}
