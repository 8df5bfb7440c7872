/** Safety of the outbound wire over whole runs of client operations. */
module WireRuns {
  import opened Bytes
  import opened Header
  import opened Packets
  import opened Framing
  import opened Connections
  import opened BulkLoads

  /** The bytes of the rows that encode, in order. */
  function GoodRows(rows: seq<Row>): bytes
  {
    if rows == [] then []
    else (if rows[0].RowEncodes? then rows[0].data else []) + GoodRows(rows[1..])
  }

  predicate AnyEncodes(rows: seq<Row>)
  {
    rows != [] && (rows[0].RowEncodes? || AnyEncodes(rows[1..]))
  }

  lemma {:induction false} GoodRowsAppend(rows: seq<Row>, row: Row)
    ensures GoodRows(rows + [row]) == GoodRows(rows) + (if row.RowEncodes? then row.data else [])
    ensures AnyEncodes(rows + [row]) <==> AnyEncodes(rows) || row.RowEncodes?
  {
    if rows == [] {
      assert rows + [row] == [row] && [row][1..] == [];
    } else {
      var head := if rows[0].RowEncodes? then rows[0].data else [];
      var last := if row.RowEncodes? then row.data else [];
      assert (rows + [row])[1..] == rows[1..] + [row];
      GoodRowsAppend(rows[1..], row);
      assert head + (GoodRows(rows[1..]) + last) == head + GoodRows(rows[1..]) + last;
    }
  }

  lemma {:induction false} GoodRowsPrefix(rows: seq<Row>, i: nat)
    requires i <= |rows|
    ensures GoodRows(rows[..i]) <= GoodRows(rows)
    decreases |rows| - i
  {
    if i == |rows| {
      assert rows[..i] == rows;
    } else {
      assert rows[..i + 1] == rows[..i] + [rows[i]];
      GoodRowsAppend(rows[..i], rows[i]);
      GoodRowsPrefix(rows, i + 1);
    }
  }

  lemma NoRows()
    ensures GoodRows([]) == [] && !AnyEncodes([])
  {
  }

  /** Sends the rows of one bulk load; a row that does not encode is skipped by the caller. */
  method SendRows(req: BulkLoadRequest, rows: seq<Row>) returns (r: Outcome)
    requires req.Valid()
    modifies req, req.conn
    ensures req.Valid() && old(req.conn.wire) <= req.conn.wire && req.conn.packetSize == old(req.conn.packetSize)
    ensures req.conn.steady == old(req.conn.steady)
    ensures old(req.conn.steady && req.conn.Usable()) ==> r == Done && req.conn.Usable()
    ensures r in {Done, Rejected, Interrupted}
    ensures r == Interrupted <==> req.conn.poisoned && !old(req.conn.poisoned)
    ensures r == Rejected ==> !req.conn.Usable()
    ensures !old(req.conn.Usable()) ==> !req.conn.Usable() && req.conn.wire == old(req.conn.wire)
    ensures req.stream <= old(req.stream) + GoodRows(rows) && req.conn.packetId == old(req.conn.packetId)
    ensures r == Done ==> req.stream == old(req.stream) + GoodRows(rows)
    ensures r == Done && AnyEncodes(rows) ==> (req.Untouched() <==> |req.stream| <= req.conn.Room())
    ensures r == Done && !AnyEncodes(rows) && old(req.Untouched()) ==> req.Untouched()
  {
    hide Refines, WithinMessage, EncodeAll, Split, GoodRows, AnyEncodes, Payloads;
    NoRows();
    var conn := req.conn;
    for i := 0 to |rows|
      invariant req.Valid() && old(conn.wire) <= conn.wire && conn.packetSize == old(conn.packetSize)
      invariant conn.poisoned == old(conn.poisoned) && conn.steady == old(conn.steady)
      invariant conn.packetId == old(conn.packetId)
      invariant old(conn.steady && conn.Usable()) ==> conn.Usable()
      invariant !old(conn.Usable()) ==> !conn.Usable() && conn.wire == old(conn.wire)
      invariant req.stream == old(req.stream) + GoodRows(rows[..i])
      invariant AnyEncodes(rows[..i]) ==> (req.Untouched() <==> |req.stream| <= conn.Room())
      invariant !AnyEncodes(rows[..i]) && old(req.Untouched()) ==> req.Untouched()
    {
      var calm := conn.Await();
      if !calm {
        conn.commandDesync := true;
      }
      GoodRowsAppend(rows[..i], rows[i]);
      assert rows[..i + 1] == rows[..i] + [rows[i]];
      GoodRowsPrefix(rows, i);
      GoodRowsPrefix(rows, i + 1);
      var s := req.Send(rows[i]);
      if s in {Rejected, Interrupted} {
        return s;
      }
    }
    assert rows[..|rows|] == rows;
    r := Done;
  }

  /**
   * A bulk-load message, byte by byte: every packet has type 7, no process id, the load's packet id and
   * no window, only the last has the end-of-message bit, and the payloads make up `payload`.
   */
  ghost predicate BulkMessage(message: bytes, id: u8, payload: bytes)
  {
    var ps := DecodeAll(message).packets;
    && DecodeAll(message).rest == [] && Payloads(ps) == payload
    && forall i :: 0 <= i < |ps| ==>
         var head := Encoded(ps[i])[..HEADER_BYTES];
         head[0] == 7 && head[1] == (if i == |ps| - 1 then 1 else 0) && head[4..] == [0, 0, id, 0]
  }

  lemma BulkBytes(id: u8, payload: bytes, room: nat)
    requires ValidRoom(room)
    ensures BulkMessage(EncodeAll(Split(BulkLoadHeader(id), payload, room)), id, payload)
  {
    hide Split, EncodeAll, DecodeAll, Payloads;
    SplitIsCut(BulkLoadHeader(id), payload, room);
    DecodeAllExact(Split(BulkLoadHeader(id), payload, room));
  }

  /**
   * A whole bulk load. However the rows cut the stream, and whichever of them fail to encode, the
   * wire receives what one `send` of metadata, good rows and DONE would have put there.
   */
  method BulkLoad(conn: Connection, metadata: bytes, rows: seq<Row>) returns (r: Outcome)
    requires conn.Valid()
    modifies conn
    ensures conn.Valid() && old(conn.wire) <= conn.wire && conn.packetSize == old(conn.packetSize)
    ensures r in {Done, Rejected, Interrupted}
    ensures conn.steady == old(conn.steady) && conn.packetId == (old(conn.packetId) + 1) % 0x100
    ensures old(conn.steady && conn.Usable()) ==> r == Done
    ensures conn.wire <= old(conn.wire) +
              EncodeAll(Split(BulkLoadHeader(old(conn.packetId)), metadata + GoodRows(rows) + DONE, conn.Room()))
    ensures r == Done ==>
              && !conn.poisoned
              && conn.wire == old(conn.wire) +
                   EncodeAll(Split(BulkLoadHeader(old(conn.packetId)), metadata + GoodRows(rows) + DONE, conn.Room()))
              && BulkMessage(conn.wire[|old(conn.wire)|..], old(conn.packetId),
                             metadata + GoodRows(rows) + [0xFD, 0, 0, 0, 0, 0, 0, 0, 0, 0, 0, 0, 0])
    ensures r != Done ==> !conn.Usable()
    ensures !old(conn.Usable()) ==> conn.wire == old(conn.wire) && !conn.Usable()
  {
    hide Refines, WithinMessage, EncodeAll, Split, BulkMessage;
    ghost var id, room := conn.packetId, conn.Room();
    var req := new BulkLoadRequest(conn, metadata);
    r := SendRows(req, rows);
    if r != Done {
      ghost var more := (metadata + GoodRows(rows))[|req.stream|..] + DONE;
      assert req.stream + more == metadata + GoodRows(rows) + DONE;
      WithinNow(req.base, conn.wire, req.BulkHeader(), req.stream, room, more);
      return;
    }
    r := req.Finalize();
    BulkBytes(id, metadata + GoodRows(rows) + DONE, room);
  }

  /**
   * A bulk load dropped without `finalize`: the connection stays usable although its wire may end
   * inside a message. It does exactly when some row was buffered and metadata and rows together
   * outgrew one packet.
   */
  method AbandonedLoad(conn: Connection, metadata: bytes, rows: seq<Row>) returns (r: Outcome)
    requires conn.Valid() && conn.Usable() && OnBoundary(conn.wire)
    modifies conn
    ensures conn.Valid() && conn.packetSize == old(conn.packetSize)
    ensures old(conn.steady) ==> r == Done && conn.Usable()
    ensures r == Done ==>
              && !conn.poisoned
              && (OnBoundary(conn.wire) <==>
                    !AnyEncodes(rows) || |metadata + GoodRows(rows)| <= conn.Room())
  {
    var req := new BulkLoadRequest(conn, metadata);
    r := SendRows(req, rows);
    if r == Done {
      OpenMessage(req.base, conn.wire, req.BulkHeader(), req.buf, req.stream, conn.Room());
    }
  }

  /** While a bulk load is open, the wire is on a boundary exactly when nothing was written. */
  lemma OpenMessage(base: bytes, wire: bytes, header: PacketHeader, buf: bytes, stream: bytes, room: nat)
    requires ValidRoom(room) && Refines(base, wire, header, buf, stream, room)
    requires base <= wire && OnBoundary(base) && |buf| <= |stream|
    ensures OnBoundary(wire) <==> wire == base
  {
    hide Encoded, EncodeAll, OnBoundary, Split;
    var part := wire[|base|..];
    var more := [0];
    var message := Split(header, stream + more, room);
    assert wire == base + part;
    var left := EncodeAll(Split(header, buf + more, room));
    assert base + (part + left) == base + EncodeAll(message);
    assert part + left == EncodeAll(message) by {
      assert (base + (part + left))[|base|..] == part + left;
    }
    SplitStep(header, buf + more, room);
    SplitIsOneMessage(header, stream + more, room);
    AppendPart(base, message, part);
  }

  /**
   * The smallest case: packets with room for one byte, one byte of metadata, one row of one byte, no
   * failure anywhere. The load is dropped, the connection can be used, its wire ends inside a message.
   */
  method AbandonedLoadExample() returns (conn: Connection)
    ensures conn.Valid() && conn.Usable() && !OnBoundary(conn.wire)
  {
    conn := new Connection(9);
    conn.steady := true;
    EmptyWire();
    var rows := [RowEncodes([0xD1])];
    assert AnyEncodes(rows) && GoodRows(rows) == [0xD1] by { assert rows[1..] == []; }
    var _ := AbandonedLoad(conn, [0x81], rows);
  }

  lemma EmptyWire()
    ensures OnBoundary([])
  {
  }

  // ------------------------------------------------------------------------ runs

  datatype Op =
    | SendOp(header: PacketHeader, item: Item)
    | LoginOp(header: PacketHeader, payload: bytes)
    | CancelOp
    | BulkOp(metadata: bytes, rows: seq<Row>)
    | FlushOp
    | ReadOp(size: nat)
    | TimeoutOp

  /** The safety invariant: a usable connection has whole messages on its wire. */
  ghost predicate Safe(conn: Connection)
    reads conn
  {
    conn.Valid() && (conn.Usable() ==> OnBoundary(conn.wire))
  }

  lemma WholeMessageKeepsBoundary(before: bytes, after: bytes, header: PacketHeader, payload: bytes, room: nat)
    requires ValidRoom(room) && OnBoundary(before)
    requires after == before + EncodeAll(Split(header, payload, room))
    ensures OnBoundary(after)
  {
    if payload == [] {
      assert after == before;
    } else {
      SplitIsOneMessage(header, payload, room);
      AppendMessage(before, Split(header, payload, room));
    }
  }

  datatype Snapshot = Snapshot(wire: bytes, usable: bool, packetId: u8)

  ghost function Now(conn: Connection): Snapshot
    reads conn
  {
    Snapshot(conn.wire, conn.Usable(), conn.packetId)
  }

  /** One step of a run, as far as the wire is concerned. */
  ghost predicate Grew(before: Snapshot, op: Op, after: Snapshot, room: nat, steady: bool)
    requires ValidRoom(room)
  {
    var message := Message(op, before.packetId, room);
    && before.wire <= after.wire <= before.wire + message
    && (steady && before.usable ==> after.wire == before.wire + message)
    && after.packetId == (before.packetId + if op.BulkOp? || (op.CancelOp? && before.usable) then 1 else 0) % 0x100
  }

  /** The message an operation is there to send. */
  function Message(op: Op, id: u8, room: nat): bytes
    requires ValidRoom(room)
  {
    match op
    case SendOp(header, item) => if item.Encodes? then EncodeAll(Split(header, item.payload, room)) else []
    case LoginOp(header, payload) => EncodeAll(Split(header, payload, room))
    case CancelOp => [6, 1, 0, 8, 0, 0, id, 0]
    case BulkOp(metadata, rows) => EncodeAll(Split(BulkLoadHeader(id), metadata + GoodRows(rows) + DONE, room))
    case _ => []
  }

  predicate Writes(op: Op)
  {
    op.SendOp? || op.LoginOp? || op.CancelOp? || op.BulkOp?
  }

  method Step(conn: Connection, op: Op)
    requires Safe(conn)
    modifies conn
    ensures Safe(conn) && conn.packetSize == old(conn.packetSize) && conn.steady == old(conn.steady)
    ensures Grew(old(Now(conn)), op, Now(conn), conn.Room(), conn.steady)
    ensures op.TimeoutOp? ==> !conn.Usable()
    ensures op.FlushOp? && old(conn.Usable()) ==> conn.buf == []
    ensures !old(conn.Usable()) ==> !conn.Usable() && conn.wire == old(conn.wire)
  {
    hide OnBoundary, DecodeAll, Decode, Payloads, Finals, EncodeAll, Split;
    if Writes(op) {
      Emit(conn, op);
    } else if op.FlushOp? {
      var _, _ := conn.FlushStream();
    } else if op.ReadOp? {
      var _, _ := conn.PollRead(op.size);
    } else {
      conn.commandDesync := true;
    }
  }

  /** The operations that send something. */
  method Emit(conn: Connection, op: Op)
    requires Safe(conn) && Writes(op)
    modifies conn
    ensures Safe(conn) && conn.packetSize == old(conn.packetSize) && conn.steady == old(conn.steady)
    ensures Grew(old(Now(conn)), op, Now(conn), conn.Room(), conn.steady)
    ensures !old(conn.Usable()) ==> !conn.Usable() && conn.wire == old(conn.wire)
  {
    hide OnBoundary, EncodeAll, Encoded, Split, BulkMessage, GoodRows;
    ghost var before, room, id := conn.wire, conn.Room(), conn.packetId;
    match op {
      case SendOp(header, item) =>
        var r := conn.Send(header, item);
        if r == Done {
          WholeMessageKeepsBoundary(before, conn.wire, header, item.payload, room);
        }
      case LoginOp(header, payload) =>
        var r := conn.SendSensitiveLogin(header, payload);
        if r == Done {
          WholeMessageKeepsBoundary(before, conn.wire, header, payload, room);
        }
      case CancelOp =>
        var r := conn.Cancel();
        if r == Done {
          AttentionIsOneMessage(before, id);
        }
      case BulkOp(metadata, rows) =>
        var r := BulkLoad(conn, metadata, rows);
        if r == Done && conn.Usable() {
          WholeMessageKeepsBoundary(before, conn.wire, BulkLoadHeader(id), metadata + GoodRows(rows) + DONE, room);
        }
    }
  }

  lemma AttentionIsOneMessage(before: bytes, id: u8)
    requires OnBoundary(before)
    ensures OnBoundary(before + Encoded(Sized(AttentionHeader(id), [])))
  {
    hide OnBoundary, Encoded;
    var p := Sized(AttentionHeader(id), []);
    assert EncodeAll([p]) == Encoded(p);
    AppendMessage(before, [p]);
  }

  /**
   * Every run: at each moment a usable connection has only whole messages on its wire; each operation
   * adds a part of its own message, all of it if nothing interferes; and from the first moment the
   * connection is unusable the wire never changes again.
   */
  method Run(conn: Connection, ops: seq<Op>) returns (ghost trace: seq<Snapshot>)
    requires Safe(conn)
    modifies conn
    ensures Safe(conn) && |trace| == |ops| + 1
    ensures trace[0] == old(Now(conn)) && trace[|ops|] == Now(conn)
    ensures forall i :: 0 <= i < |trace| && trace[i].usable ==> OnBoundary(trace[i].wire)
    ensures forall i :: 0 <= i < |ops| ==> Grew(trace[i], ops[i], trace[i + 1], old(conn.Room()), old(conn.steady))
    ensures forall i, j :: 0 <= i <= j < |trace| && !trace[i].usable ==>
              !trace[j].usable && trace[j].wire == trace[i].wire
  {
    hide OnBoundary, Message, Grew;
    ghost var room := conn.Room();
    trace := [Now(conn)];
    for k := 0 to |ops|
      invariant Safe(conn) && |trace| == k + 1
      invariant conn.Room() == room && conn.steady == old(conn.steady)
      invariant trace[0] == old(Now(conn)) && trace[k] == Now(conn)
      invariant forall i :: 0 <= i < |trace| && trace[i].usable ==> OnBoundary(trace[i].wire)
      invariant forall i :: 0 <= i < k ==> Grew(trace[i], ops[i], trace[i + 1], room, conn.steady)
      invariant forall i, j :: 0 <= i <= j < |trace| && !trace[i].usable ==>
                  !trace[j].usable && trace[j].wire == trace[i].wire
    {
      Step(conn, ops[k]);
      trace := trace + [Now(conn)];
    }
  }
}
