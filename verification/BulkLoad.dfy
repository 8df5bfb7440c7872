/** The incremental bulk-load packetizer (src/tds/codec/bulk_load.rs). */
module BulkLoads {
  import opened Bytes
  import opened Header
  import opened Packets
  import opened Framing
  import opened Connections

  /** A row as its encoder leaves it: its bytes, or the part written before it failed. */
  datatype Row = RowEncodes(data: bytes) | RowFails(partial: bytes)

  /** `TokenDone::default()` encoded: the token type and twelve zero bytes. */
  const DONE: bytes := [0xFD, 0, 0, 0, 0, 0, 0, 0, 0, 0, 0, 0, 0]

  /**
   * The refinement invariant. Whatever is still to come (`more`), the bytes on the wire followed by
   * a one-shot `send` of the buffered bytes and `more` are the bytes that were on the wire when the
   * bulk load began followed by a one-shot `send` of the whole stream and `more`.
   */
  ghost predicate Refines(base: bytes, wire: bytes, header: PacketHeader, buf: bytes, stream: bytes, room: nat)
    requires ValidRoom(room)
  {
    forall more: bytes :: buf + more != [] ==>
      wire + EncodeAll(Split(header, buf + more, room)) == base + EncodeAll(Split(header, stream + more, room))
  }

  /** At any later moment the wire holds a prefix of that one-shot message. */
  ghost predicate WithinMessage(base: bytes, wire: bytes, header: PacketHeader, stream: bytes, room: nat)
    requires ValidRoom(room)
  {
    forall more: bytes :: stream + more != [] ==> wire <= base + EncodeAll(Split(header, stream + more, room))
  }

  lemma RefinesAppend(base: bytes, wire: bytes, header: PacketHeader, buf: bytes, stream: bytes, room: nat, row: bytes)
    requires ValidRoom(room) && Refines(base, wire, header, buf, stream, room)
    ensures Refines(base, wire, header, buf + row, stream + row, room)
  {
    hide EncodeAll, Split;
    forall more: bytes | buf + row + more != []
      ensures wire + EncodeAll(Split(header, buf + row + more, room))
           == base + EncodeAll(Split(header, stream + row + more, room))
    {
      assert buf + row + more == buf + (row + more) && stream + row + more == stream + (row + more);
    }
  }

  lemma RefinesPacket(base: bytes, wire: bytes, header: PacketHeader, buf: bytes, stream: bytes, room: nat)
    requires ValidRoom(room) && Refines(base, wire, header, buf, stream, room)
    requires header.status == NormalMessage && |buf| > room
    ensures Refines(base, wire + Encoded(Sized(header, buf[..room])), header, buf[room..], stream, room)
  {
    hide Encoded, Sized;
    var full := Encoded(Sized(header, buf[..room]));
    forall more: bytes | buf[room..] + more != []
      ensures wire + full + EncodeAll(Split(header, buf[room..] + more, room))
           == base + EncodeAll(Split(header, stream + more, room))
    {
      SplitStep(header, buf + more, room);
      assert (buf + more)[..room] == buf[..room] && (buf + more)[room..] == buf[room..] + more;
      Ungroup(wire, full, EncodeAll(Split(header, buf[room..] + more, room)),
              base + EncodeAll(Split(header, stream + more, room)));
    }
  }

  lemma RefinesWithin(base: bytes, wire: bytes, header: PacketHeader, buf: bytes, stream: bytes, room: nat)
    requires ValidRoom(room) && Refines(base, wire, header, buf, stream, room)
    requires buf == [] ==> stream == []
    ensures WithinMessage(base, wire, header, stream, room)
  {
  }

  class BulkLoadRequest {
    const conn: Connection
    const packetId: u8
    var buf: bytes

    /** The wire when the request was opened, and everything buffered so far. */
    ghost const base: bytes
    ghost var stream: bytes

    function BulkHeader(): PacketHeader
    {
      BulkLoadHeader(packetId)
    }

    /** No byte of the message has left the buffer. */
    ghost predicate Untouched()
      reads this, conn
    {
      buf == stream && conn.wire == base
    }

    /** Some packets have left; the final one never has, and it will not be empty. */
    ghost predicate Started()
      requires conn.Valid()
      reads this, conn
    {
      0 < |buf| < |stream| && |base| < |conn.wire| && conn.Room() < |stream|
    }

    ghost predicate Valid()
      reads this, conn
    {
      && conn.Valid()
      && base <= conn.wire
      && WithinMessage(base, conn.wire, BulkHeader(), stream, conn.Room())
      && (!conn.poisoned ==>
            && Refines(base, conn.wire, BulkHeader(), buf, stream, conn.Room())
            && (Untouched() || Started()))
    }

    /** `BulkLoadRequest::new`, for column metadata that encodes. */
    constructor (conn: Connection, metadata: bytes)
      requires conn.Valid()
      modifies conn`packetId
      ensures Valid() && this.conn == conn && base == conn.wire && stream == buf == metadata
      ensures packetId == old(conn.packetId) && conn.packetId == (old(conn.packetId) + 1) % 0x100
    {
      this.conn := conn;
      base := conn.wire;
      stream := metadata;
      buf := metadata;
      packetId := conn.packetId;
      new;
      var _ := conn.NextPacketId();
    }

    /** `write_packets`: full packets leave as long as more than one packet is buffered. */
    method WritePackets() returns (ok: bool)
      requires Valid() && !conn.poisoned
      modifies this`buf, conn`wire, conn`writeBuf, conn`flushed, conn`poisoned, conn`pushed
      ensures Valid() && old(conn.wire) <= conn.wire
      ensures ok == !conn.poisoned
      ensures conn.steady ==> ok
      ensures conn.flushed ==> old(conn.flushed) && conn.wire == old(conn.wire)
      ensures ok ==> |buf| <= conn.Room() && (Untouched() <==> |stream| <= conn.Room())
      ensures ok && old(buf) != [] ==> buf != []
    {
      hide Encoded, EncodeAll, Sized, EncodeInto, Split, Refines, WithinMessage;
      var room := conn.Room();
      if |buf| <= room {
        return true;
      }
      conn.poisoned := true;
      while |buf| > room
        invariant conn.Valid() && conn.poisoned && conn.writeBuf == [] && conn.Room() == room
        invariant conn.flushed ==> old(conn.flushed) && conn.wire == old(conn.wire)
        invariant old(conn.wire) <= conn.wire && Refines(base, conn.wire, BulkHeader(), buf, stream, room)
        invariant (room < |buf| && Untouched()) || Started()
        decreases |buf|
      {
        var data := buf[..room];
        ghost var after := conn.wire + Encoded(Sized(BulkHeader(), data));
        RefinesPacket(base, conn.wire, BulkHeader(), buf, stream, room);
        buf := buf[room..];
        RefinesWithin(base, after, BulkHeader(), buf, stream, room);
        var ok := conn.WriteToWire(BulkHeader(), data);
        assert conn.wire + conn.writeBuf == after;
        if !ok {
          WithinPrefix(base, conn.wire, after, BulkHeader(), stream, room);
          return false;
        }
        assert conn.wire == after;
      }
      RefinesWithin(base, conn.wire, BulkHeader(), buf, stream, room);
      conn.poisoned := false;
      ok := true;
    }

    /** `send`: buffer one row, or roll its partial bytes back. */
    method Send(row: Row) returns (r: Outcome)
      requires Valid()
      modifies this`buf, this`stream, conn`wire, conn`writeBuf, conn`flushed, conn`poisoned, conn`pushed
      ensures Valid() && old(conn.wire) <= conn.wire
      ensures r == Rejected <==> !old(conn.Usable())
      ensures r == EncodeFailed <==> old(conn.Usable()) && row.RowFails?
      ensures r in {Rejected, EncodeFailed} ==> stream == old(stream) && buf == old(buf) && conn.wire == old(conn.wire)
      ensures r in {Done, Interrupted} ==> row.RowEncodes? && stream == old(stream) + row.data
      ensures conn.poisoned == (old(conn.poisoned) || r == Interrupted)
      ensures r == Done ==> (Untouched() <==> |stream| <= conn.Room())
      ensures conn.steady ==> r != Interrupted
      ensures conn.flushed ==> old(conn.flushed) && conn.wire == old(conn.wire)
    {
      hide Refines, WithinMessage;
      if !conn.Usable() {
        return Rejected;
      }
      var start := |buf|;
      match row {
        case RowFails(partial) =>
          buf := buf + partial;
          buf := buf[..start];
          return EncodeFailed;
        case RowEncodes(data) =>
          Buffer(data);
      }
      var ok := WritePackets();
      r := if ok then Done else Interrupted;
    }

    /** Extends the buffer, and with it the stream. */
    method Buffer(data: bytes)
      requires Valid() && !conn.poisoned
      modifies this`buf, this`stream
      ensures Valid() && buf == old(buf) + data && stream == old(stream) + data
    {
      RefinesAppend(base, conn.wire, BulkHeader(), buf, stream, conn.Room(), data);
      buf, stream := buf + data, stream + data;
      RefinesWithin(base, conn.wire, BulkHeader(), buf, stream, conn.Room());
    }

    /** `finalize`: the DONE token, the remaining full packets, one end-of-message packet. */
    method Finalize() returns (r: Outcome)
      requires Valid()
      modifies this`buf, this`stream, conn`wire, conn`writeBuf, conn`flushed, conn`poisoned, conn`pushed
      ensures conn.Valid() && old(conn.wire) <= conn.wire
      ensures r == Rejected <==> !old(conn.Usable())
      ensures r != EncodeFailed
      ensures r == Rejected ==> conn.wire == old(conn.wire)
      ensures conn.flushed ==> old(conn.flushed) && conn.wire == old(conn.wire)
      ensures r == Done ==> !conn.flushed && buf == [] && conn.pushed == |conn.wire|
      ensures conn.steady ==> r != Interrupted
      ensures conn.wire <= base + EncodeAll(Split(BulkHeader(), old(stream) + DONE, conn.Room()))
      ensures r == Done ==>
                conn.wire == base + EncodeAll(Split(BulkHeader(), old(stream) + DONE, conn.Room()))
      ensures conn.poisoned == (old(conn.poisoned) || r == Interrupted)
    {
      hide Encoded, EncodeAll, Sized, EncodeInto, Split, Refines, WithinMessage;
      WithinNow(base, conn.wire, BulkHeader(), stream, conn.Room(), DONE);
      if !conn.Usable() {
        return Rejected;
      }
      Buffer(DONE);
      var ok := WritePackets();
      assert stream + [] == stream;
      WithinNow(base, conn.wire, BulkHeader(), stream, conn.Room(), []);
      if !ok {
        return Interrupted;
      }
      var header := BulkHeader().(status := EndOfMessage);
      var data := buf;
      RefinesLast(base, conn.wire, BulkHeader(), data, stream, conn.Room());
      buf := [];
      conn.poisoned := true;
      ok := conn.WriteToWire(header, data);
      if !ok {
        return Interrupted;
      }
      ok := conn.FlushSink();
      if !ok {
        return Interrupted;
      }
      conn.poisoned := false;
      r := Done;
    }
  }

  lemma RefinesLast(base: bytes, wire: bytes, header: PacketHeader, buf: bytes, stream: bytes, room: nat)
    requires ValidRoom(room) && Refines(base, wire, header, buf, stream, room)
    requires 0 < |buf| <= room
    ensures wire + Encoded(Sized(header.(status := EndOfMessage), buf)) == base + EncodeAll(Split(header, stream, room))
  {
    assert buf + [] == buf && stream + [] == stream;
    assert wire + EncodeAll(Split(header, buf + [], room)) == base + EncodeAll(Split(header, stream + [], room));
  }

  lemma WithinPrefix(base: bytes, wire: bytes, after: bytes, header: PacketHeader, stream: bytes, room: nat)
    requires ValidRoom(room) && WithinMessage(base, after, header, stream, room) && wire <= after
    ensures WithinMessage(base, wire, header, stream, room)
  {
  }

  lemma WithinNow(base: bytes, wire: bytes, header: PacketHeader, stream: bytes, room: nat, more: bytes)
    requires ValidRoom(room) && WithinMessage(base, wire, header, stream, room) && stream + more != []
    ensures wire <= base + EncodeAll(Split(header, stream + more, room))
  {
  }
}
