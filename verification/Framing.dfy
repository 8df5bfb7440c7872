/** Messages as packet sequences: splitting, wire form, and reassembly under any fragmentation. */
module Framing {
  import opened Bytes
  import opened Header
  import opened Packets

  /** Room for payload in one packet of the negotiated size. */
  predicate ValidRoom(room: int)
  {
    0 < room <= 0xFFFF - HEADER_BYTES
  }

  // ------------------------------------------------------------- one-shot split

  /** How `Connection::send` cuts a payload: full packets, then one end-of-message packet. */
  function Split(header: PacketHeader, payload: bytes, room: nat): seq<Packet>
    requires ValidRoom(room)
  {
    if payload == [] then []
    else if |payload| <= room then [Sized(header.(status := EndOfMessage), payload)]
    else [Sized(header.(status := NormalMessage), payload[..room])] + Split(header, payload[room..], room)
  }

  function Payloads(ps: seq<Packet>): bytes
  {
    if ps == [] then [] else ps[0].payload + Payloads(ps[1..])
  }

  function EncodeAll(ps: seq<Packet>): bytes
  {
    if ps == [] then [] else Encoded(ps[0]) + EncodeAll(ps[1..])
  }

  ghost predicate AllWellFormed(ps: seq<Packet>)
  {
    forall i :: 0 <= i < |ps| ==> WellFormed(ps[i])
  }

  /** The reference description of a cut message, with no mention of how it is computed. */
  ghost predicate IsCut(header: PacketHeader, payload: bytes, room: nat, ps: seq<Packet>)
  {
    && AllWellFormed(ps)
    && Payloads(ps) == payload
    && (forall i :: 0 <= i < |ps| ==>
          ps[i].header == header.(length := ps[i].header.length,
                                  status := if i == |ps| - 1 then EndOfMessage else NormalMessage))
    && (forall i :: 0 <= i < |ps| - 1 ==> |ps[i].payload| == room)
    && (ps != [] ==> 0 < |ps[|ps| - 1].payload| <= room)
  }

  /** `Split` meets the description ... */
  lemma {:induction false} SplitIsCut(header: PacketHeader, payload: bytes, room: nat)
    requires ValidRoom(room)
    ensures IsCut(header, payload, room, Split(header, payload, room))
  {
    if |payload| > room {
      SplitIsCut(header, payload[room..], room);
      var ps := Split(header, payload, room);
      assert ps[1..] != [] by { assert payload[room..] != []; }
    } else if payload != [] {
    }
  }

  /** ... and is the only packet list that does. */
  lemma {:induction false} CutIsUnique(header: PacketHeader, payload: bytes, room: nat, ps: seq<Packet>)
    requires ValidRoom(room) && IsCut(header, payload, room, ps)
    ensures ps == Split(header, payload, room)
    decreases |ps|
  {
    if |ps| == 1 {
      assert ps[1..] == [];
      assert Payloads(ps[1..]) == [];
      assert payload == ps[0].payload + [] == ps[0].payload;
      assert ps == [ps[0]] == [Sized(header.(status := EndOfMessage), payload)];
    } else if |ps| > 1 {
      var rest := payload[|ps[0].payload|..];
      assert payload == ps[0].payload + Payloads(ps[1..]);
      assert rest == Payloads(ps[1..]);
      CutIsUnique(header, rest, room, ps[1..]);
      PayloadsNonEmpty(ps[1..]);
      assert ps == [ps[0]] + ps[1..];
    }
  }

  lemma {:induction false} PayloadsNonEmpty(ps: seq<Packet>)
    requires ps != [] && |ps[|ps| - 1].payload| > 0
    ensures |Payloads(ps)| > 0
  {
    if |ps| > 1 {
      PayloadsNonEmpty(ps[1..]);
    }
  }

  // -------------------------------------------------------------- concatenation

  lemma {:induction false} EncodeAllConcat(a: seq<Packet>, b: seq<Packet>)
    ensures EncodeAll(a + b) == EncodeAll(a) + EncodeAll(b)
  {
    if a == [] {
      assert a + b == b;
    } else {
      assert (a + b)[1..] == a[1..] + b;
      EncodeAllConcat(a[1..], b);
    }
  }

  lemma {:induction false} PayloadsConcat(a: seq<Packet>, b: seq<Packet>)
    ensures Payloads(a + b) == Payloads(a) + Payloads(b)
  {
    if a == [] {
      assert a + b == b;
    } else {
      assert (a + b)[1..] == a[1..] + b;
      PayloadsConcat(a[1..], b);
    }
  }

  // ---------------------------------------------------------------- reassembly

  /** Everything a reader gets out of a byte string, and the bytes it is left holding. */
  datatype Reading = Reading(packets: seq<Packet>, rest: bytes)

  function DecodeAll(src: bytes): Reading
    decreases |src|
  {
    match Decode(src)
    case NeedMore => Reading([], src)
    case Malformed(_) => Reading([], src)
    case Complete(p, rest) =>
      DecodeSound(src);
      var tail := DecodeAll(rest);
      Reading([p] + tail.packets, tail.rest)
  }

  /** Reading loses and invents nothing: packets plus remainder are the bytes read. */
  lemma {:induction false} DecodeAllSound(src: bytes)
    ensures var r := DecodeAll(src);
      AllWellFormed(r.packets) && src == EncodeAll(r.packets) + r.rest && !Decode(r.rest).Complete?
    decreases |src|
  {
    hide Decode, Encoded;
    if Decode(src).Complete? {
      DecodeSound(src);
      var rest := Decode(src).rest;
      DecodeAllSound(rest);
    }
  }

  /** Encoded packets are read back in order, whatever follows them. */
  lemma {:induction false} DecodeAllEncoded(ps: seq<Packet>, more: bytes)
    requires AllWellFormed(ps)
    ensures DecodeAll(EncodeAll(ps) + more) ==
            Reading(ps + DecodeAll(more).packets, DecodeAll(more).rest)
  {
    hide Decode, Encoded;
    if ps == [] {
      assert EncodeAll(ps) + more == more;
    } else {
      var tail := EncodeAll(ps[1..]) + more;
      assert EncodeAll(ps) + more == Encoded(ps[0]) + tail;
      DecodeEncoded(ps[0], tail);
      DecodeAllEncoded(ps[1..], more);
      assert [ps[0]] + (ps[1..] + DecodeAll(more).packets) == ps + DecodeAll(more).packets;
    }
  }

  lemma DecodeAllExact(ps: seq<Packet>)
    requires AllWellFormed(ps)
    ensures DecodeAll(EncodeAll(ps)) == Reading(ps, [])
  {
    DecodeAllEncoded(ps, []);
    assert EncodeAll(ps) + [] == EncodeAll(ps);
  }

  /** Reading in two instalments equals reading at once: fragmentation is invisible. */
  lemma {:induction false} DecodeAllInstalments(a: bytes, b: bytes)
    ensures DecodeAll(a + b).packets == DecodeAll(a).packets + DecodeAll(DecodeAll(a).rest + b).packets
    ensures DecodeAll(a + b).rest == DecodeAll(DecodeAll(a).rest + b).rest
  {
    DecodeAllSound(a);
    var r := DecodeAll(a);
    assert a + b == EncodeAll(r.packets) + (r.rest + b);
    DecodeAllEncoded(r.packets, r.rest + b);
  }

  function Concat(pieces: seq<bytes>): bytes
  {
    if pieces == [] then [] else pieces[0] + Concat(pieces[1..])
  }

  /** A reader that decodes greedily after each arriving piece (empty pieces are wake-ups without data). */
  function Feed(held: bytes, pieces: seq<bytes>): Reading
    decreases |pieces|
  {
    if pieces == [] then Reading([], held)
    else
      var now := DecodeAll(held + pieces[0]);
      var later := Feed(now.rest, pieces[1..]);
      Reading(now.packets + later.packets, later.rest)
  }

  lemma {:induction false} FeedIsDecodeAll(held: bytes, pieces: seq<bytes>)
    requires !Decode(held).Complete?
    ensures Feed(held, pieces) == DecodeAll(held + Concat(pieces))
    decreases |pieces|
  {
    hide Decode;
    if pieces == [] {
      assert held + Concat(pieces) == held;
    } else {
      var now := DecodeAll(held + pieces[0]);
      DecodeAllSound(held + pieces[0]);
      FeedIsDecodeAll(now.rest, pieces[1..]);
      DecodeAllInstalments(held + pieces[0], Concat(pieces[1..]));
      assert held + Concat(pieces) == held + pieces[0] + Concat(pieces[1..]);
    }
  }

  /**
   * Framing round trip: a message cut for any packet size and delivered in any pieces is
   * reassembled to the same packets, hence the same payload, with no byte left over.
   */
  lemma FramingRoundTrip(header: PacketHeader, payload: bytes, room: nat, pieces: seq<bytes>)
    requires ValidRoom(room)
    requires Concat(pieces) == EncodeAll(Split(header, payload, room))
    ensures Feed([], pieces) == Reading(Split(header, payload, room), [])
    ensures Payloads(Feed([], pieces).packets) == payload
  {
    var ps := Split(header, payload, room);
    SplitIsCut(header, payload, room);
    FeedIsDecodeAll([], pieces);
    assert [] + Concat(pieces) == EncodeAll(ps);
    DecodeAllExact(ps);
  }

  // ------------------------------------------------------------ message boundaries

  /** A run of packets that stops on a message boundary: only plain statuses, the last one final. */
  ghost predicate Whole(ps: seq<Packet>)
  {
    && (forall i :: 0 <= i < |ps| ==> ps[i].header.status in {NormalMessage, EndOfMessage})
    && (ps != [] ==> IsLast(ps[|ps| - 1]))
  }

  /** What a server sees on the wire: whole messages and nothing after them. */
  ghost predicate OnBoundary(wire: bytes)
  {
    DecodeAll(wire).rest == [] && Whole(DecodeAll(wire).packets)
  }

  /** The number of complete messages on the wire. */
  function Finals(ps: seq<Packet>): nat
  {
    if ps == [] then 0 else (if IsLast(ps[0]) then 1 else 0) + Finals(ps[1..])
  }

  function Requests(wire: bytes): nat
  {
    Finals(DecodeAll(wire).packets)
  }

  lemma {:induction false} FinalsConcat(a: seq<Packet>, b: seq<Packet>)
    ensures Finals(a + b) == Finals(a) + Finals(b)
  {
    if a == [] {
      assert a + b == b;
    } else {
      assert (a + b)[1..] == a[1..] + b;
      FinalsConcat(a[1..], b);
    }
  }

  lemma {:induction false} FinalsZero(ps: seq<Packet>)
    requires forall i :: 0 <= i < |ps| ==> !IsLast(ps[i])
    ensures Finals(ps) == 0
  {
    if ps != [] {
      FinalsZero(ps[1..]);
    }
  }

  /** A list whose only final packet is its last counts as one message; any proper prefix as none. */
  ghost predicate OneMessage(ps: seq<Packet>)
  {
    && ps != []
    && AllWellFormed(ps)
    && (forall i :: 0 <= i < |ps| ==> ps[i].header.status == if i == |ps| - 1 then EndOfMessage else NormalMessage)
  }

  lemma FinalsOfPrefix(ps: seq<Packet>, k: nat)
    requires OneMessage(ps) && k <= |ps|
    ensures Finals(ps[..k]) == if k == |ps| then 1 else 0
  {
    FinalsZero(ps[..if k == |ps| then k - 1 else k]);
    if k == |ps| {
      assert ps[..k] == ps[..k - 1] + [ps[k - 1]];
      FinalsConcat(ps[..k - 1], [ps[k - 1]]);
    }
  }

  lemma SplitIsOneMessage(header: PacketHeader, payload: bytes, room: nat)
    requires ValidRoom(room) && payload != []
    ensures OneMessage(Split(header, payload, room))
  {
  }

  /** Appending one whole message keeps the boundary and adds exactly one request. */
  lemma AppendMessage(wire: bytes, ps: seq<Packet>)
    requires OnBoundary(wire) && OneMessage(ps)
    ensures OnBoundary(wire + EncodeAll(ps))
    ensures Requests(wire + EncodeAll(ps)) == Requests(wire) + 1
  {
    hide DecodeAll, EncodeAll, Finals;
    var before := DecodeAll(wire);
    DecodeAllInstalments(wire, EncodeAll(ps));
    assert [] + EncodeAll(ps) == EncodeAll(ps);
    DecodeAllExact(ps);
    FinalsOfPrefix(ps, |ps|);
    assert ps[..|ps|] == ps;
    FinalsConcat(before.packets, ps);
  }

  /** A reader given a proper part of a message gets a proper prefix of its packets. */
  lemma PartReading(ps: seq<Packet>, part: bytes)
    requires AllWellFormed(ps) && part < EncodeAll(ps)
    ensures var k := |DecodeAll(part).packets|;
      k < |ps| && DecodeAll(part).packets == ps[..k]
  {
    hide Decode, DecodeAll, Encoded;
    var got := DecodeAll(part);
    var missing := EncodeAll(ps)[|part|..];
    assert part + missing == EncodeAll(ps);
    DecodeAllInstalments(part, missing);
    DecodeAllExact(ps);
    DecodeAllSound(part);
    assert got.packets != ps;
  }

  /** Appending a proper part of a message never completes a request, and breaks the boundary if non-empty. */
  lemma AppendPart(wire: bytes, ps: seq<Packet>, part: bytes)
    requires OnBoundary(wire) && OneMessage(ps) && part < EncodeAll(ps)
    ensures Requests(wire + part) == Requests(wire)
    ensures OnBoundary(wire + part) <==> part == []
  {
    hide Decode, DecodeAll, Encoded;
    var before := DecodeAll(wire);
    var got := DecodeAll(part);
    DecodeAllInstalments(wire, part);
    assert [] + part == part;
    assert DecodeAll(wire + part) == Reading(before.packets + got.packets, got.rest);
    FinalsConcat(before.packets, got.packets);
    PartReading(ps, part);
    DecodeAllSound(part);
    var k := |got.packets|;
    FinalsOfPrefix(ps, k);
    if part == [] {
      assert wire + part == wire;
    } else if got.rest == [] {
      assert got.packets != [] by { assert part == EncodeAll(got.packets) + []; }
      assert (before.packets + got.packets)[|before.packets| + k - 1] == ps[k - 1];
    }
  }
}
