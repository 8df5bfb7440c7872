/**
 * The connection (src/client/connection.rs) over a framed transport.
 *
 * Every await is a point where the operation may finish, fail, or be dropped by its caller; failing
 * and dropping leave the same state, so both are `Interrupted`. Such choices, the sizes of partial
 * writes and reads, and "pending" answers are nondeterministic, so each contract below holds for
 * every schedule. While the environment is `steady`, nothing fails, stalls or is dropped; the
 * clauses about it say what operations then achieve. The flag `commandDesync` may be raised by a
 * timeout at any moment.
 */
module Connections {
  import opened Bytes
  import opened Header
  import opened Packets
  import opened Framing

  datatype Outcome = Done | Rejected | EncodeFailed | Interrupted

  /** An item to send, as its encoder leaves it: some bytes, or an encoding error. */
  datatype Item = Encodes(payload: bytes) | Fails

  datatype PollPacket = NoPacket | NextPacket(packet: Packet) | PacketError | EndOfStream

  datatype PollBytes = NoBytes | Bytes(data: bytes) | BytesError

  /** What a write of `message` may have added to the wire, by outcome. */
  ghost predicate Wrote(before: bytes, after: bytes, message: bytes, r: Outcome)
  {
    match r
    case Done => after == before + message
    case Interrupted => before <= after <= before + message
    case Rejected => after == before
    case EncodeFailed => after == before
  }

  class Connection {
    // The transport: bytes handed to the stream, the codec's write buffer, bytes the peer has sent
    // but the stream has not delivered, whether the peer will send more, the codec's read buffer.
    var wire: bytes
    var writeBuf: bytes
    var inbound: bytes
    var closed: bool
    var readBuf: bytes

    // How many bytes of the wire a completed flush has pushed out.
    var pushed: nat

    // The environment lets every operation complete; otherwise anything may happen at an await.
    var steady: bool

    // The connection's own state.
    var flushed: bool
    var poisoned: bool
    var commandDesync: bool
    var buf: bytes
    var packetSize: nat
    var packetId: u8

    /** The codec's write buffer is empty whenever the connection is not poisoned. */
    ghost predicate Valid()
      reads this
    {
      HEADER_BYTES < packetSize <= 0xFFFF && (!poisoned ==> writeBuf == [])
    }

    predicate Usable()
      reads this
    {
      !poisoned && !commandDesync
    }

    function Room(): (r: nat)
      requires Valid()
      reads this
      ensures ValidRoom(r)
    {
      packetSize - HEADER_BYTES
    }

    /** What the peer's bytes hold for this reader: whole packets, then an incomplete rest. */
    function Arriving(): Reading
      reads this
    {
      DecodeAll(readBuf + inbound)
    }

    /** The payload bytes still to be read, packet boundaries forgotten. */
    function Stream(): bytes
      reads this
    {
      buf + Payloads(Arriving().packets)
    }

    /** The peer has sent something no packet can start with. */
    ghost predicate Garbled()
      reads this
    {
      Decode(Arriving().rest).Malformed?
    }

    constructor (packetSize: nat)
      requires HEADER_BYTES < packetSize <= 0xFFFF
      ensures Valid() && Usable() && !flushed && !closed && !steady && this.packetSize == packetSize
      ensures wire == [] && inbound == [] && readBuf == [] && buf == [] && packetId == 0 && pushed == 0
    {
      this.packetSize := packetSize;
      wire, writeBuf, inbound, readBuf, buf := [], [], [], [], [];
      flushed, poisoned, commandDesync, closed, steady := false, false, false, false, false;
      packetId, pushed := 0, 0;
    }

    /** An await: it may fail or be dropped, unless the environment is steady. */
    method Await() returns (completed: bool)
      ensures steady ==> completed
    {
      completed := *;
      completed := completed || steady;
    }

    // ------------------------------------------------------------------ writing

    /** Writes positive-sized pieces of the write buffer until it is empty or the write is interrupted. */
    method FlushSink() returns (ok: bool)
      modifies this`wire, this`writeBuf, this`pushed
      ensures wire + writeBuf == old(wire + writeBuf) && old(wire) <= wire
      ensures ok ==> writeBuf == [] && pushed == |wire|
      ensures steady ==> ok
    {
      while writeBuf != []
        invariant wire + writeBuf == old(wire + writeBuf) && old(wire) <= wire
        decreases |writeBuf|
      {
        ok := Await();
        if !ok {
          return false;
        }
        var n: nat :| 0 < n <= |writeBuf|;
        wire, writeBuf := wire + writeBuf[..n], writeBuf[n..];
      }
      ok := PushOut();
    }

    /** The flush of the stream itself. */
    method PushOut() returns (ok: bool)
      modifies this`pushed
      ensures ok ==> pushed == |wire|
      ensures steady ==> ok
    {
      ok := Await();
      if ok {
        pushed := |wire|;
      }
    }

    /** `write_to_wire`: encode one packet behind whatever the write buffer holds, then drain it. */
    method WriteToWire(header: PacketHeader, data: bytes) returns (ok: bool)
      requires |data| + HEADER_BYTES <= 0xFFFF
      modifies this`wire, this`writeBuf, this`flushed, this`pushed
      ensures !flushed
      ensures wire + writeBuf == old(wire) + EncodeInto(old(writeBuf), header, data) && old(wire) <= wire
      ensures old(writeBuf) == [] ==> wire + writeBuf == old(wire) + Encoded(Sized(header, data))
      ensures ok ==> writeBuf == [] && pushed == |wire|
      ensures steady ==> ok
    {
      flushed := false;
      writeBuf := EncodePacket(writeBuf, header, data);
      ok := FlushSink();
    }

    method NextPacketId() returns (id: u8)
      modifies this`packetId
      ensures id == old(packetId) && packetId == (old(packetId) + 1) % 0x100
    {
      id := packetId;
      packetId := (packetId + 1) % 0x100;
    }

    /** `send`. */
    method Send(header: PacketHeader, item: Item) returns (r: Outcome)
      requires Valid()
      modifies this`wire, this`writeBuf, this`flushed, this`poisoned, this`pushed
      ensures Valid()
      ensures Wrote(old(wire), wire, if item.Encodes? then EncodeAll(Split(header, item.payload, Room())) else [], r)
      ensures r == Rejected <==> !old(Usable())
      ensures r == EncodeFailed <==> old(Usable()) && item.Fails?
      ensures poisoned == (old(poisoned) || r == Interrupted)
      ensures flushed == (r == Rejected && old(flushed))
      ensures r != Interrupted ==> writeBuf == old(writeBuf)
      ensures steady ==> r != Interrupted
      ensures r == Done ==> pushed == |wire|
    {
      hide Encoded, EncodeAll, Sized, EncodeInto;
      if !Usable() {
        return Rejected;
      }
      flushed := false;
      var room := Room();
      var payload := [];
      match item {
        case Fails => return EncodeFailed;
        case Encodes(bytes) => payload := bytes;
      }
      poisoned := true;

      var header' := header;
      ghost var target := wire + EncodeAll(Split(header, payload, room));
      NothingToSend(header, room);
      while payload != []
        invariant Valid() && poisoned && !flushed && writeBuf == [] && Room() == room
        invariant header'.(status := header.status) == header
        invariant wire + EncodeAll(Split(header, payload, room)) == target && old(wire) <= wire
        decreases |payload|
      {
        var writable := if |payload| < room then |payload| else room;
        var chunk := payload[..writable];
        SplitStep(header, payload, room);
        payload := payload[writable..];
        header' := header'.(status := if payload == [] then EndOfMessage else NormalMessage);
        ghost var later := EncodeAll(Split(header, payload, room));
        Ungroup(wire, Encoded(Sized(header', chunk)), later, target);
        var ok := WriteToWire(header', chunk);
        Regroup(wire, writeBuf, later, target);
        if !ok {
          return Interrupted;
        }
      }
      var ok := FlushSink();
      if !ok {
        return Interrupted;
      }
      poisoned := false;
      r := Done;
    }

    /** `cancel_request`, write side: a single end-of-message packet without payload. */
    method Cancel() returns (r: Outcome)
      requires Valid()
      modifies this`wire, this`writeBuf, this`flushed, this`poisoned, this`packetId, this`pushed
      ensures Valid()
      ensures Wrote(old(wire), wire, Encoded(Sized(AttentionHeader(old(packetId)), [])), r)
      ensures Wrote(old(wire), wire, [6, 1, 0, 8, 0, 0, old(packetId), 0], r)
      ensures r == Rejected <==> !old(Usable())
      ensures r != EncodeFailed
      ensures poisoned == (old(poisoned) || r == Interrupted)
      ensures flushed == (r == Rejected && old(flushed))
      ensures r != Interrupted ==> writeBuf == old(writeBuf)
      ensures packetId == if r == Rejected then old(packetId) else (old(packetId) + 1) % 0x100
      ensures steady ==> r != Interrupted
      ensures r == Done ==> pushed == |wire|
    {
      if !Usable() {
        return Rejected;
      }
      hide Encoded, Sized, EncodeInto;
      var id := NextPacketId();
      AttentionBytes(id);
      poisoned := true;
      var ok := WriteToWire(AttentionHeader(id), []);
      if !ok {
        return Interrupted;
      }
      ok := FlushSink();
      if !ok {
        return Interrupted;
      }
      poisoned := false;
      r := Done;
    }

    /** `write_all` on the stream itself; what it returns was not written. */
    method WriteAll(data: bytes) returns (left: bytes)
      modifies this`wire
      ensures wire + left == old(wire) + data && old(wire) <= wire
      ensures steady ==> left == []
    {
      left := data;
      while left != []
        invariant wire + left == old(wire) + data && old(wire) <= wire
        decreases |left|
      {
        var ok := Await();
        if !ok {
          return;
        }
        var n: nat :| 0 < n <= |left|;
        wire, left := wire + left[..n], left[n..];
      }
    }

    method WriteFrames(frames: seq<bytes>) returns (ok: bool)
      modifies this`wire
      ensures old(wire) <= wire <= old(wire) + Concat(frames)
      ensures ok ==> wire == old(wire) + Concat(frames)
      ensures steady ==> ok
    {
      ghost var target := wire + Concat(frames);
      var pending := frames;
      while pending != []
        invariant wire + Concat(pending) == target && old(wire) <= wire
        decreases |pending|
      {
        Ungroup(wire, pending[0], Concat(pending[1..]), target);
        var left := WriteAll(pending[0]);
        Regroup(wire, left, Concat(pending[1..]), target);
        if left != [] {
          return false;
        }
        pending := pending[1..];
      }
      ok := true;
    }

    method WriteLogin(header: PacketHeader, payload: bytes) returns (ok: bool)
      requires Valid()
      modifies this`wire
      ensures old(wire) <= wire <= old(wire) + EncodeAll(Split(header, payload, Room()))
      ensures ok ==> wire == old(wire) + EncodeAll(Split(header, payload, Room()))
      ensures steady ==> ok
    {
      hide Encoded, EncodeAll, Split, Concat;
      var frames := FrameSensitiveLogin(header, payload, Room());
      ok := WriteFrames(frames);
    }

    /** `send_sensitive_login`: frames written straight to the stream, past the codec's buffer. */
    method SendSensitiveLogin(header: PacketHeader, payload: bytes) returns (r: Outcome)
      requires Valid()
      modifies this`wire, this`flushed, this`poisoned, this`pushed
      ensures Valid()
      ensures Wrote(old(wire), wire, EncodeAll(Split(header, payload, Room())), r)
      ensures r == Rejected <==> !old(Usable())
      ensures r != EncodeFailed
      ensures poisoned == (old(poisoned) || r == Interrupted)
      ensures flushed == (r == Rejected && old(flushed))
      ensures steady ==> r != Interrupted
      ensures r == Done ==> pushed == |wire|
    {
      if !Usable() {
        return Rejected;
      }
      hide EncodeAll, Split;
      flushed := false;
      poisoned := true;
      var ok := WriteLogin(header, payload);
      if !ok {
        return Interrupted;
      }
      ok := PushOut();
      if !ok {
        return Interrupted;
      }
      poisoned := false;
      r := Done;
    }

    // ------------------------------------------------------------------ reading

    /** `poll_next`: the framed transport's decode-or-receive loop, then the end-of-message mark. */
    method PollNext() returns (r: PollPacket)
      modifies this`inbound, this`readBuf, this`flushed
      ensures r.NextPacket? ==>
                && old(Arriving()) == Reading([r.packet] + Arriving().packets, Arriving().rest)
                && flushed == IsLast(r.packet)
      ensures !r.NextPacket? ==> flushed == old(flushed)
      ensures r.NoPacket? || r.EndOfStream? ==> readBuf + inbound == old(readBuf + inbound)
      ensures r.PacketError? && !old(Garbled()) ==> readBuf + inbound == old(readBuf + inbound)
      ensures r.EndOfStream? ==> closed && readBuf == [] && inbound == []
      ensures old(Decode(readBuf).Complete?) ==> r.NextPacket?
      ensures steady && old(Arriving().packets != []) ==> r.NextPacket?
      ensures old(Arriving()) == Reading([], []) ==> !r.NextPacket?
      ensures r.NoPacket? ==> !closed || inbound != []
      ensures steady && old(Arriving().packets) == [] ==>
                r == if old(Garbled()) then PacketError
                     else if !closed then NoPacket
                     else if old(Arriving().rest) == [] then EndOfStream else PacketError
    {
      hide DecodeAll, Decode;
      while true
        invariant readBuf + inbound == old(readBuf + inbound) && flushed == old(flushed)
        invariant old(Decode(readBuf).Complete?) ==> readBuf == old(readBuf)
        decreases |inbound|
      {
        ArrivingStep(readBuf, inbound);
        var step, left := TakePacket(readBuf);
        readBuf := left;
        match step {
          case Took(packet) =>
            flushed := IsLast(packet);
            return NextPacket(packet);
          case Invalid =>
            return PacketError;
          case NotYet =>
        }
        if inbound == [] {
          // Nothing to receive: either the peer is done, or the read is pending.
          if closed {
            return if readBuf == [] then EndOfStream else PacketError;
          }
          return NoPacket;
        }
        var ok := Await();
        if !ok {
          var stalled: bool := *;
          return if stalled then NoPacket else PacketError;
        }
        var n: nat :| 0 < n <= |inbound|;
        readBuf, inbound := readBuf + inbound[..n], inbound[n..];
      }
    }

    /**
     * `poll_read`: hands out exactly `size` bytes of the stream, or none at all. `taken` are the
     * packets moved into the buffer meanwhile.
     */
    method PollRead(size: nat) returns (r: PollBytes, ghost taken: seq<Packet>)
      modifies this`inbound, this`readBuf, this`flushed, this`buf
      ensures r.Bytes? ==> |r.data| == size && old(Stream()) == r.data + Stream()
      ensures !r.Bytes? && !old(Garbled()) ==> Stream() == old(Stream())
      ensures r.Bytes? || !old(Garbled()) ==> old(Arriving()) == Reading(taken + Arriving().packets, Arriving().rest)
      ensures flushed == if taken == [] then old(flushed) else IsLast(taken[|taken| - 1])
      ensures size <= old(|buf|) ==> r.Bytes? && taken == []
      ensures r.NoBytes? ==> !closed || inbound != []
      ensures steady ==>
                r.Bytes? == (size <= old(|Stream()|))
                && (size > old(|Stream()|) ==> r == if closed || old(Garbled()) then BytesError else NoBytes)
    {
      hide DecodeAll, Decode, IsLast, Payloads;
      PayloadsNone();
      taken := [];
      if |buf| < size {
        while |buf| < size
          invariant Stream() == old(Stream())
          invariant old(Arriving()) == Reading(taken + Arriving().packets, Arriving().rest)
          invariant flushed == if taken == [] then old(flushed) else IsLast(taken[|taken| - 1])
          decreases |Arriving().packets|
        {
          ghost var ahead, whole := Arriving(), Stream();
          var next := PollNext();
          match next {
            case NoPacket => return NoBytes, taken;
            case PacketError => return BytesError, taken;
            case EndOfStream => break;
            case NextPacket(packet) =>
              PayloadsStep(packet, Arriving().packets);
              Ungroup(buf, packet.payload, Payloads(Arriving().packets), whole);
              assert taken + ahead.packets == (taken + [packet]) + Arriving().packets;
              buf := buf + packet.payload;
              taken := taken + [packet];
          }
        }
        if |buf| < size {
          return BytesError, taken;
        }
      }
      r := Bytes(buf[..size]);
      buf := buf[size..];
    }

    /**
     * `flush_stream`: forget the half-read payload, then take packets up to the end of a message.
     * `taken` are the packets it discarded.
     */
    method FlushStream() returns (r: Outcome, ghost taken: seq<Packet>)
      modifies this`inbound, this`readBuf, this`flushed, this`buf, this`poisoned
      ensures r == Rejected <==> !old(Usable())
      ensures r != EncodeFailed
      ensures r == Rejected ==> buf == old(buf)
      ensures r != Rejected ==> buf == []
      ensures r == Rejected || old(flushed) ==> taken == [] && readBuf + inbound == old(readBuf + inbound)
      ensures poisoned ==> old(poisoned) || r == Interrupted
      ensures old(poisoned) ==> poisoned
      ensures !poisoned || !old(Garbled()) ==> old(Arriving()) == Reading(taken + Arriving().packets, Arriving().rest)
      ensures forall i :: 0 <= i < |taken| - 1 ==> !IsLast(taken[i])
      ensures flushed == if taken == [] then old(flushed) else IsLast(taken[|taken| - 1])
      ensures r == Done ==> flushed || (closed && readBuf == [] && inbound == [])
      ensures old(Usable() && flushed) ==> r == Done
      ensures steady && old(Usable() && Finals(Arriving().packets) > 0) ==> r == Done
      ensures steady && closed && old(Usable() && Arriving().rest == []) ==> r == Done
      ensures steady && r == Interrupted ==> poisoned == (closed || old(Garbled()))
    {
      hide DecodeAll, Decode, IsLast, Finals;
      FinalsNone();
      EmptyIsNotGarbled();
      taken := [];
      if !Usable() {
        return Rejected, taken;
      }
      buf := [];
      if flushed {
        return Done, taken;
      }
      while true
        invariant buf == [] && !poisoned && !flushed
        invariant old(Arriving()) == Reading(taken + Arriving().packets, Arriving().rest)
        invariant forall i :: 0 <= i < |taken| ==> !IsLast(taken[i])
        invariant Finals(Arriving().packets) == old(Finals(Arriving().packets))
        decreases |Arriving().packets|
      {
        var next := PollNext();
        match next {
          case NextPacket(packet) =>
            FinalsStep(packet, Arriving().packets);
            TakeOne(taken, packet, Arriving().packets);
            taken := taken + [packet];
            if IsLast(packet) {
              return Done, taken;
            }
          case EndOfStream => return Done, taken;
          case PacketError =>
            poisoned := true;
            return Interrupted, taken;
          case NoPacket => return Interrupted, taken;
        }
      }
    }

    /**
     * `collect_from`: the payload of the next message. The future can be dropped while it waits;
     * the packets it took are then lost with it.
     */
    method CollectFrom() returns (r: PollBytes, ghost taken: seq<Packet>)
      modifies this`inbound, this`readBuf, this`flushed
      ensures !r.BytesError? || !old(Garbled()) ==> old(Arriving()) == Reading(taken + Arriving().packets, Arriving().rest)
      ensures forall i :: 0 <= i < |taken| - 1 ==> !IsLast(taken[i])
      ensures flushed == if taken == [] then old(flushed) else IsLast(taken[|taken| - 1])
      ensures r.Bytes? ==> r.data == Payloads(taken)
      ensures r.Bytes? ==> (taken != [] && IsLast(taken[|taken| - 1])) || (closed && readBuf == [] && inbound == [])
      ensures steady && old(Finals(Arriving().packets)) > 0 ==> r.Bytes?
      ensures steady && closed && old(Arriving().rest) == [] ==> r.Bytes?
      ensures steady && !r.Bytes? ==> r == if closed || old(Garbled()) then BytesError else NoBytes
    {
      hide DecodeAll, Decode, IsLast, Payloads, Finals;
      taken := [];
      FinalsNone();
      EmptyIsNotGarbled();
      PayloadsNone();
      var data: bytes := [];
      while true
        invariant old(Arriving()) == Reading(taken + Arriving().packets, Arriving().rest)
        invariant forall i :: 0 <= i < |taken| ==> !IsLast(taken[i])
        invariant flushed == if taken == [] then old(flushed) else IsLast(taken[|taken| - 1])
        invariant data == Payloads(taken)
        invariant Finals(Arriving().packets) == old(Finals(Arriving().packets))
        decreases |Arriving().packets|
      {
        var next := PollNext();
        match next {
          case NextPacket(packet) =>
            FinalsStep(packet, Arriving().packets);
            PayloadsAppend(taken, packet);
            TakeOne(taken, packet, Arriving().packets);
            taken := taken + [packet];
            data := data + packet.payload;
            if IsLast(packet) {
              return Bytes(data), taken;
            }
          case EndOfStream => return Bytes(data), taken;
          case PacketError => return BytesError, taken;
          case NoPacket => return NoBytes, taken;
        }
      }
    }
  }

  /** `frame_sensitive_login`: its frames are, one by one, the packets the ordinary path would write. */
  method FrameSensitiveLogin(header: PacketHeader, payload: bytes, room: nat) returns (frames: seq<bytes>)
    requires ValidRoom(room)
    ensures |frames| == |Split(header, payload, room)|
    ensures forall i :: 0 <= i < |frames| ==> frames[i] == Encoded(Split(header, payload, room)[i])
    ensures Concat(frames) == EncodeAll(Split(header, payload, room))
  {
    frames := [];
    var offset := 0;
    var header' := header;
    ghost var all := Split(header, payload, room);
    while offset < |payload|
      invariant 0 <= offset <= |payload|
      invariant header'.(status := header.status) == header
      invariant |frames| <= |all| && Split(header, payload[offset..], room) == all[|frames|..]
      invariant forall i :: 0 <= i < |frames| ==> frames[i] == Encoded(all[i])
    {
      var end := if |payload| < offset + room then |payload| else offset + room;
      header' := header'.(status := if end == |payload| then EndOfMessage else NormalMessage);
      var chunk := payload[offset..end];
      var frame := EncodeHeader(header') + chunk;
      var size := Be16(|frame|);
      frame := frame[2 := size[0]];
      frame := frame[3 := size[1]];
      assert frame == EncodeInto([], header', chunk) by {
        assert [] + EncodeHeader(header') + chunk == EncodeHeader(header') + chunk;
      }
      EncodeIntoEmpty(header', chunk);
      ghost var rest := payload[offset..];
      assert end < |payload| ==> rest[..room] == chunk && rest[room..] == payload[end..];
      assert end == |payload| ==> rest == chunk;
      frames := frames + [frame];
      offset := end;
    }
    FramesConcat(frames, all);
  }

  lemma {:induction false} FramesConcat(frames: seq<bytes>, ps: seq<Packet>)
    requires |frames| == |ps| && forall i :: 0 <= i < |ps| ==> frames[i] == Encoded(ps[i])
    ensures Concat(frames) == EncodeAll(ps)
  {
    if ps != [] {
      FramesConcat(frames[1..], ps[1..]);
    }
  }

  lemma Regroup(a: bytes, b: bytes, c: bytes, all: bytes)
    requires (a + b) + c == all
    ensures a + (b + c) == all && a <= all
  {
  }

  lemma Ungroup(a: bytes, b: bytes, c: bytes, all: bytes)
    requires a + (b + c) == all
    ensures (a + b) + c == all
  {
  }

  lemma AttentionBytes(id: u8)
    ensures Encoded(Sized(AttentionHeader(id), [])) == [6, 1, 0, 8, 0, 0, id, 0]
  {
  }

  lemma NothingToSend(header: PacketHeader, room: nat)
    requires ValidRoom(room)
    ensures EncodeAll(Split(header, [], room)) == []
  {
  }

  /** One turn of the `send` loop peels one packet off the message. */
  lemma SplitStep(header: PacketHeader, payload: bytes, room: nat)
    requires ValidRoom(room) && payload != []
    ensures var k := if |payload| < room then |payload| else room;
      var status := if payload[k..] == [] then EndOfMessage else NormalMessage;
      && k + HEADER_BYTES <= 0xFFFF
      && EncodeAll(Split(header, payload, room)) ==
           Encoded(Sized(header.(status := status), payload[..k])) + EncodeAll(Split(header, payload[k..], room))
  {
    hide Encoded, Sized;
    assert payload[..|payload|] == payload;
  }

  /**
   * What `CollectFrom` promises pins the message: of a message followed by anything, the packets taken
   * up to the first final one are that message's packets, so the bytes returned are its payload.
   */
  lemma CollectedMessage(header: PacketHeader, payload: bytes, room: nat, more: bytes, taken: seq<Packet>, left: seq<Packet>)
    requires ValidRoom(room) && payload != []
    requires DecodeAll(EncodeAll(Split(header, payload, room)) + more).packets == taken + left
    requires taken != [] && IsLast(taken[|taken| - 1])
    requires forall i :: 0 <= i < |taken| - 1 ==> !IsLast(taken[i])
    ensures taken == Split(header, payload, room) && Payloads(taken) == payload
  {
    hide DecodeAll, EncodeAll, Split, Payloads;
    var ps := Split(header, payload, room);
    SplitIsCut(header, payload, room);
    SplitIsOneMessage(header, payload, room);
    DecodeAllEncoded(ps, more);
    var all, k := taken + left, |ps|;
    assert taken[|taken| - 1] == all[|taken| - 1];
    assert taken == all[..k] == ps;
  }

  lemma TakeOne(taken: seq<Packet>, p: Packet, left: seq<Packet>)
    ensures taken + ([p] + left) == (taken + [p]) + left
    ensures (taken + [p])[|taken|] == p && forall i :: 0 <= i < |taken| ==> (taken + [p])[i] == taken[i]
  {
  }

  lemma FinalsNone()
    ensures Finals([]) == 0
  {
  }

  lemma EmptyIsNotGarbled()
    ensures Decode([]) == NeedMore
  {
  }

  lemma FinalsStep(p: Packet, ps: seq<Packet>)
    ensures Finals([p] + ps) == (if IsLast(p) then 1 else 0) + Finals(ps)
  {
    assert ([p] + ps)[1..] == ps;
  }

  lemma PayloadsNone()
    ensures Payloads([]) == []
  {
  }

  lemma PayloadsAppend(ps: seq<Packet>, p: Packet)
    ensures Payloads(ps + [p]) == Payloads(ps) + p.payload
  {
    PayloadsConcat(ps, [p]);
  }

  lemma PayloadsStep(p: Packet, ps: seq<Packet>)
    ensures Payloads([p] + ps) == p.payload + Payloads(ps)
  {
  }

  /** What one decoding step on the received part means for everything that is coming. */
  lemma ArrivingStep(received: bytes, coming: bytes)
    ensures var d := Decode(received);
      && (d.Complete? ==>
            DecodeAll(received + coming).packets == [d.packet] + DecodeAll(d.rest + coming).packets
            && DecodeAll(received + coming).rest == DecodeAll(d.rest + coming).rest)
      && (d.Malformed? ==>
            DecodeAll(received + coming).packets == [] && Decode(DecodeAll(received + coming).rest).Malformed?
            && DecodeAll(received + coming).rest != [])
      && (d.NeedMore? && coming == [] ==> DecodeAll(received + coming) == Reading([], received))
  {
    assert coming == [] ==> received + coming == received;
    if !Decode(received).NeedMore? {
      DecodeStable(received, coming);
    }
  }
}
