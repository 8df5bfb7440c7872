/** Packets and the packet codec (src/tds/codec/packet.rs, src/tds/codec/decode.rs). */
module Packets {
  import opened Bytes
  import opened Header

  /** A packet as the reader sees it: the header's length field covers the whole packet. */
  datatype Packet = Packet(header: PacketHeader, payload: bytes)

  predicate WellFormed(p: Packet)
  {
    p.header.length == |p.payload| + HEADER_BYTES
  }

  predicate IsLast(p: Packet)
  {
    p.header.status == EndOfMessage
  }

  /** The wire form of a packet whose length field is already right. */
  function Encoded(p: Packet): (r: bytes)
    ensures |r| == HEADER_BYTES + |p.payload|
  {
    EncodeHeader(p.header) + p.payload
  }

  /** The packet that `header` and `payload` make, with the length field filled in. */
  function Sized(header: PacketHeader, payload: bytes): (p: Packet)
    requires |payload| + HEADER_BYTES < 0x1_0000
    ensures WellFormed(p)
  {
    Packet(header.(length := |payload| + HEADER_BYTES), payload)
  }

  /** What `Packet::encode` leaves in `dst`: the patch always lands on bytes 2 and 3 of the buffer. */
  function EncodeInto(dst: bytes, header: PacketHeader, payload: bytes): bytes
    requires |payload| + HEADER_BYTES < 0x1_0000
  {
    var out := dst + EncodeHeader(header) + payload;
    var size := Be16(|payload| + HEADER_BYTES);
    out[2 := size[0]][3 := size[1]]
  }

  /** `Packet::encode`. */
  method EncodePacket(dst: bytes, header: PacketHeader, payload: bytes) returns (out: bytes)
    requires |payload| + HEADER_BYTES < 0x1_0000
    ensures out == EncodeInto(dst, header, payload)
    ensures dst == [] ==> out == Encoded(Sized(header, payload))
  {
    var size := Be16(|payload| + HEADER_BYTES);
    out := dst + EncodeHeader(header);
    out := out + payload;
    out := out[2 := size[0]];
    out := out[3 := size[1]];
    if dst == [] {
      EncodeIntoEmpty(header, payload);
    }
  }

  lemma EncodeIntoEmpty(header: PacketHeader, payload: bytes)
    requires |payload| + HEADER_BYTES < 0x1_0000
    ensures EncodeInto([], header, payload) == Encoded(Sized(header, payload))
  {
  }

  /**
   * When the patch is right. On a buffer that holds earlier bytes it overwrites two of them, or the
   * packet's own type, status or length; that does no harm where they were equal already.
   */
  predicate PatchFits(dst: bytes, header: PacketHeader, size: u16)
  {
    var high, low := size / 0x100, size % 0x100;
    if |dst| == 0 then true
    else if |dst| == 1 then StatusCode(header.status) == high == low == header.length % 0x100
    else
      && header.length == size
      && high == (if |dst| == 2 then TypeCode(header.ty) else dst[2])
      && low == (if |dst| == 2 then StatusCode(header.status) else if |dst| == 3 then TypeCode(header.ty) else dst[3])
  }

  /** Encoding behind earlier bytes keeps them and frames the packet exactly when the patch fits. */
  lemma EncodeIntoDirty(dst: bytes, header: PacketHeader, payload: bytes)
    requires |payload| + HEADER_BYTES < 0x1_0000
    ensures EncodeInto(dst, header, payload) == dst + Encoded(Sized(header, payload))
       <==> PatchFits(dst, header, |payload| + HEADER_BYTES)
  {
    var e := EncodeInto(dst, header, payload);
    var n := |payload| + HEADER_BYTES;
    var want := dst + Encoded(Sized(header, payload));
    var plain := dst + EncodeHeader(header) + payload;
    var k := |dst|;
    assert forall i :: 4 <= i < |plain| ==> e[i] == plain[i];
    assert plain[k + 2] == header.length / 0x100 && plain[k + 3] == header.length % 0x100;
    assert want[k + 2] == n / 0x100 && want[k + 3] == n % 0x100;
    assert e[2] == n / 0x100 && e[3] == n % 0x100;
  }

  /** Two attention packets encoded into one buffer: the second is left with length zero. */
  method EncodeIntoDirtyExample() returns (first: bytes, both: bytes)
    ensures first == [6, 1, 0, 8, 0, 0, 0, 0]
    ensures both == [6, 1, 0, 8, 0, 0, 0, 0, 6, 1, 0, 0, 0, 0, 0, 0] && both != first + first
  {
    first := EncodePacket([], AttentionHeader(0), []);
    both := EncodePacket(first, AttentionHeader(0), []);
    assert (first + first)[11] == 8;
  }

  // ---------------------------------------------------------------- decoding

  /**
   * One step of `PacketCodec::decode`. `Malformed` carries what the failed step left in the
   * buffer: nothing is consumed for a bad length, one or two bytes for a bad type or status.
   */
  datatype Decoded = NeedMore | Malformed(left: bytes) | Complete(packet: Packet, rest: bytes)

  function Decode(src: bytes): Decoded
  {
    if |src| < HEADER_BYTES then NeedMore
    else
      var length := FromBe16(src[2..4]);
      if |src| < length then NeedMore
      else if length < HEADER_BYTES then Malformed(src)
      else match DecodeHeader(src)
        case BadType => Malformed(src[1..])
        case BadStatus => Malformed(src[2..])
        case Parsed(h) => Complete(Packet(h, src[HEADER_BYTES..length]), src[length..])
  }

  datatype Taken = NotYet | Invalid | Took(packet: Packet)

  /** `PacketCodec::decode`, consuming from the front of the buffer; `left` is what stays in it. */
  method TakePacket(src: bytes) returns (r: Taken, left: bytes)
    ensures r.NotYet? ==> Decode(src) == NeedMore && left == src
    ensures r.Invalid? ==> Decode(src) == Malformed(left)
    ensures r.Took? ==> Decode(src) == Complete(r.packet, left)
  {
    left := src;
    if |left| < HEADER_BYTES {
      return NotYet, left;
    }
    var length := FromBe16([left[2], left[3]]);
    if |left| < length {
      return NotYet, left;
    }
    if length < HEADER_BYTES {
      return Invalid, left;
    }
    var ty := TypeOfCode(left[0]);
    left := left[1..];
    if ty.None? {
      return Invalid, left;
    }
    var status := StatusOfCode(left[0]);
    left := left[1..];
    if status.None? {
      return Invalid, left;
    }
    var size := FromBe16(left);
    left := left[2..];
    var spid := FromBe16(left);
    left := left[2..];
    var id, window := left[0], left[1];
    left := left[2..];
    var payload := left[..length - HEADER_BYTES];
    left := left[length - HEADER_BYTES..];
    r := Took(Packet(PacketHeader(ty.value, status.value, size, spid, id, window), payload));
  }

  /** A packet followed by anything decodes to that packet and leaves exactly what followed. */
  lemma DecodeEncoded(p: Packet, rest: bytes)
    requires WellFormed(p)
    ensures Decode(Encoded(p) + rest) == Complete(p, rest)
  {
  }

  /** Conversely a decoded packet is well formed and the buffer was its encoding plus the rest. */
  lemma DecodeSound(src: bytes)
    requires Decode(src).Complete?
    ensures var Complete(p, rest) := Decode(src);
      WellFormed(p) && src == Encoded(p) + rest && |rest| < |src|
  {
  }

  /** What is not a packet, and what stays in the buffer: exactly these, once the announced bytes are there. */
  lemma DecodeRefused(src: bytes, left: bytes)
    ensures Decode(src) == NeedMore <==> |src| < 8 || |src| < 0x100 * src[2] as int + src[3] as int
    ensures Decode(src) == Malformed(left) <==>
              && |src| >= 8 && |src| >= 0x100 * src[2] as int + src[3] as int
              && (if src[2] == 0 && src[3] < 8 then left == src
                  else if src[0] !in {1, 2, 3, 4, 6, 7, 8, 14, 16, 17, 18} then left == src[1..]
                  else src[1] !in {0, 1, 3, 8, 16} && left == src[2..])
  {
  }

  /** "Need more" is the only answer that more bytes can change. */
  lemma DecodeStable(src: bytes, more: bytes)
    requires !Decode(src).NeedMore?
    ensures Decode(src).Complete? ==> Decode(src + more) == Complete(Decode(src).packet, Decode(src).rest + more)
    ensures Decode(src).Malformed? ==> Decode(src + more) == Malformed(Decode(src).left + more)
  {
  }
}
