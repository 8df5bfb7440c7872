/** The 8-byte packet header of section 2.2.3.1 of MS-TDS (src/tds/codec/header.rs). */
module Header {
  import opened Bytes

  const HEADER_BYTES := 8

  datatype PacketType =
    | SQLBatch
    | PreTDSv7Login
    | Rpc
    | TabularResult
    | AttentionSignal
    | BulkLoad
    | Fat
    | TransactionManagerReq
    | TDSv7Login
    | Sspi
    | PreLogin

  datatype PacketStatus =
    | NormalMessage
    | EndOfMessage
    | IgnoreEvent
    | ResetConnection
    | ResetConnectionSkipTran

  datatype PacketHeader = PacketHeader(
    ty: PacketType,
    status: PacketStatus,
    length: u16,
    spid: u16,
    id: u8,
    window: u8)

  function TypeCode(t: PacketType): u8
  {
    match t
    case SQLBatch => 1
    case PreTDSv7Login => 2
    case Rpc => 3
    case TabularResult => 4
    case AttentionSignal => 6
    case BulkLoad => 7
    case Fat => 8
    case TransactionManagerReq => 14
    case TDSv7Login => 16
    case Sspi => 17
    case PreLogin => 18
  }

  /** Inverse of `TypeCode`, on every byte. */
  function TypeOfCode(n: u8): (r: Option<PacketType>)
    ensures r.Some? ==> TypeCode(r.value) == n
    ensures r.None? ==> forall t :: TypeCode(t) != n
    ensures r.Some? <==> n in {1, 2, 3, 4, 6, 7, 8, 14, 16, 17, 18}
  {
    match n
    case 1 => Some(SQLBatch)
    case 2 => Some(PreTDSv7Login)
    case 3 => Some(Rpc)
    case 4 => Some(TabularResult)
    case 6 => Some(AttentionSignal)
    case 7 => Some(BulkLoad)
    case 8 => Some(Fat)
    case 14 => Some(TransactionManagerReq)
    case 16 => Some(TDSv7Login)
    case 17 => Some(Sspi)
    case 18 => Some(PreLogin)
    case _ => None
  }

  function StatusCode(s: PacketStatus): u8
  {
    match s
    case NormalMessage => 0
    case EndOfMessage => 1
    case IgnoreEvent => 3
    case ResetConnection => 0x08
    case ResetConnectionSkipTran => 0x10
  }

  /** Inverse of `StatusCode`, on every byte. */
  function StatusOfCode(n: u8): (r: Option<PacketStatus>)
    ensures r.Some? ==> StatusCode(r.value) == n
    ensures r.None? ==> forall s :: StatusCode(s) != n
    ensures r.Some? <==> n in {0, 1, 3, 8, 16}
  {
    match n
    case 0 => Some(NormalMessage)
    case 1 => Some(EndOfMessage)
    case 3 => Some(IgnoreEvent)
    case 0x08 => Some(ResetConnection)
    case 0x10 => Some(ResetConnectionSkipTran)
    case _ => None
  }

  /** `PacketHeader::new`: a login header with a reset status. */
  function NewHeader(length: u16, id: u8): PacketHeader
  {
    PacketHeader(TDSv7Login, ResetConnection, length, 0, id, 0)
  }

  function BulkLoadHeader(id: u8): PacketHeader
  {
    NewHeader(0, id).(ty := BulkLoad, status := NormalMessage)
  }

  function AttentionHeader(id: u8): PacketHeader
  {
    NewHeader(0, id).(ty := AttentionSignal, status := EndOfMessage)
  }

  function EncodeHeader(h: PacketHeader): (r: bytes)
    ensures |r| == HEADER_BYTES
  {
    [TypeCode(h.ty), StatusCode(h.status)] + Be16(h.length) + Be16(h.spid) + [h.id, h.window]
  }

  datatype HeaderResult = Parsed(header: PacketHeader) | BadType | BadStatus

  function DecodeHeader(src: bytes): HeaderResult
    requires |src| >= HEADER_BYTES
  {
    var ty := TypeOfCode(src[0]);
    var status := StatusOfCode(src[1]);
    if ty.None? then BadType
    else if status.None? then BadStatus
    else Parsed(PacketHeader(ty.value, status.value, FromBe16(src[2..4]), FromBe16(src[4..6]), src[6], src[7]))
  }

  /** A header survives the wire, whatever follows it. */
  lemma HeaderRoundTrip(h: PacketHeader, rest: bytes)
    ensures DecodeHeader(EncodeHeader(h) + rest) == Parsed(h)
  {
  }

  /** Every header that decodes is the encoding of the decoded header: no two byte strings share one. */
  lemma HeaderCanonical(src: bytes)
    requires |src| >= HEADER_BYTES && DecodeHeader(src).Parsed?
    ensures EncodeHeader(DecodeHeader(src).header) == src[..HEADER_BYTES]
  {
  }
}
