# tiberius, modelled in Dafny

tiberius is an asynchronous TDS (MS-TDS) client for SQL Server. This project models its wire layer,
its TLS pre-login wrapper, its ADO.NET connection-string tokenizer, its SQL identifier scanner and
its exact binary codecs, and proves what they promise for every input, every fragmentation of the
byte streams and every point at which a future can fail or be dropped.

`dafny verify dfyconfig.toml` checks everything.

## How the model works

- **Awaits.** An operation that awaits is a method whose awaits may finish, fail or be dropped.
  Failing and being dropped leave the same state, so both are the outcome `Interrupted`. Partial
  reads and writes, "pending" answers and failures are nondeterministic choices inside the methods,
  so a contract holds for every schedule. The server acts between operations; since all state a
  suspended `flush_stream` or `poll_read` needs is in the connection, suspending one is the same as
  dropping it and calling it again.
- **Steadiness.** Environment choices that go wrong can be switched off (`steady` of a connection,
  `Prompt` of the pre-login wrapper's stream). Contracts then say in addition that operations get
  somewhere, which is how concrete runs are exhibited; no safety result depends on it.
- **Transport.** `asynchronous_codec::Framed` is a read buffer, a write buffer and two byte streams.
  Sending a packet appends its encoding to the write buffer and writes positive-sized pieces until
  it is empty; what is left when interrupted stays in the buffer. Bytes not yet received may arrive
  in any pieces.
- **Items.** An item to send, a row, or column metadata is an arbitrary byte string or an encoding
  failure (for a row, with the part it had already written).
- **Numbers.** Widths are explicit: bytes and 16-bit fields are subset types, casts keep low bytes,
  machine division truncates toward zero, `i128` is bounded.
- **Text.** Connection strings and identifiers are Dafny strings; the Unicode alphanumeric test is
  a parameter, so the identifier theorems hold for any such test. Code-page characters are code
  points, B_VARCHAR strings are UTF-16 units, an instance name is its UTF-8 bytes.

| file | models |
|---|---|
| `Bytes.dfy`, `Header.dfy`, `Packet.dfy` | integer encodings, packet header, packet codec |
| `Framing.dfy` | cutting messages, reassembly, message boundaries |
| `Connection.dfy` | the connection: sending, draining, reading |
| `BulkLoad.dfy` | the incremental bulk-load packetizer |
| `WireRuns.dfy` | safety of the outbound wire over whole runs |
| `Pairing.dfy` | requests and responses against a server, over whole runs |
| `TlsPrelogin.dfy` | the TLS pre-login wrapper |
| `Quoting.dfy`, `AdoParser.dfy` | doubled delimiters, the connection-string tokenizer |
| `Identifier.dfy` | identifier validator, splitter, quoter, collation query |
| `PreLogin.dfy` | the PRELOGIN message |
| `Numeric.dfy` | NUMERIC values |
| `Collation.dfy` | CP437 and CP850 |
| `ReadBytes.dfy` | bulk reads and B_VARCHAR |

## Where the code falls short of its promise

Each of these is stated as an exact condition, with a concrete case.

- A bulk load dropped without `finalize` leaves the connection usable although its wire may end
  inside a message; it does exactly when some row was buffered and metadata and rows outgrew one
  packet (`WireRuns.AbandonedLoad`, `WireRuns.AbandonedLoadExample`).
- `send` clears the flushed mark before it knows whether it will write anything. A query on a logged-in
  open connection therefore wedges it exactly when its item fails to encode or is empty: every later
  query waits for a response nobody owes, until the server hangs up (`Pairing.Session.Query`,
  `Pairing.Run`, `Pairing.FailedItemWedges`).
- `Packet::encode` patches bytes 2 and 3 of the buffer, not of the packet. Behind earlier bytes that
  is right exactly if it changes nothing (`Packets.EncodeIntoDirty`, `Packets.EncodeIntoDirtyExample`);
  the connection never does it, because its write buffer is empty whenever it is not poisoned.
- The pre-login wrapper's flush, resumed after an interruption that left at most eight bytes, reports
  success without writing them (`TlsPrelogin.TlsPreloginWrapper.Flush`, `TlsPrelogin.ShortDrainExample`).
- A write into the pre-login wrapper while it drains a packet lands behind that packet, outside any
  packet: over a run the peer can recover what was written, at every moment, exactly if there was no
  such write (`TlsPrelogin.Run`, `TlsPrelogin.IntrusionExample`). The last moment alone does not tell:
  bytes written later can make up for the damage by accident (`TlsPrelogin.AccidentExample`).
- A read from the pre-login wrapper answers "no bytes", which means the end of a stream, with bytes
  still to come, exactly at a packet with an empty body or after a rejected header
  (`TlsPrelogin.TlsPreloginWrapper.Read`, `TlsPrelogin.EmptyBodyExample`).
- After the pre-login wrapper rejects a header, a caller that reads on gets what follows that header;
  it gets nothing exactly if only headers without a body follow (`TlsPrelogin.StripResumes`,
  `TlsPrelogin.StripAfterError`).
- PRELOGIN does not carry the nonce, sends strict encryption as `Required`, and cuts an instance name
  at a NUL (`PreLoginMessages.RoundTripExact`).
- The most negative `i128` is encoded but rejected by the decoder (`Numerics.NumericRoundTrip`).
- Where overflow wraps, `Numeric` equality can call different numbers equal, exactly when the
  rescaled product overflows (`Numerics.EqualIsRational`, `Numerics.EqualOverflow`). Builds that
  check overflow panic there instead.

## Model

| member | source | states |
|---|---|---|
| `Header.TypeOfCode` | src/tds/codec/header.rs:9-24 | inverse of the packet type codes on every byte: a byte is rejected exactly when no type has it, and the codes are those listed |
| `Header.StatusOfCode` | src/tds/codec/header.rs:29-39 | the same for the packet status codes |
| `Header.HeaderRoundTrip` | src/tds/codec/header.rs:192-228 | a header followed by anything decodes to itself |
| `Header.HeaderCanonical` | src/tds/codec/header.rs:205-228 | a header that decodes is the encoding of what it decodes to |
| `Packets.EncodePacket` | src/tds/codec/packet.rs:25-35 | what the buffer holds after encoding, and that on an empty buffer it is the packet with its length filled in |
| `Packets.EncodeIntoDirty` | src/tds/codec/packet.rs:25-35 | behind any earlier bytes the length patch is right exactly when it changes nothing: by cases, which type, status or length bytes it meets |
| `Packets.EncodeIntoDirtyExample` | src/tds/codec/packet.rs:25-35 | two Attention packets encoded into one buffer: the second keeps length zero |
| `Packets.TakePacket` | src/tds/codec/decode.rs:17-55 | the consuming decoder: "need more" leaves the buffer untouched, a bad length too, a bad type or status eats one or two bytes |
| `Packets.DecodeEncoded` | src/tds/codec/decode.rs:17-55 | a packet followed by anything decodes to that packet and leaves exactly the rest |
| `Packets.DecodeSound` | src/tds/codec/decode.rs:17-55 | a decoded packet is well formed and the buffer was its encoding followed by the rest |
| `Packets.DecodeRefused` | src/tds/codec/decode.rs:17-55 | "need more" and every refusal come exactly of the bytes that cause them, and what stays in the buffer |
| `Packets.DecodeStable` | src/tds/codec/decode.rs:17-55 | "need more" is the only answer later bytes can change |
| `Framing.SplitIsCut` | src/client/connection.rs:290-307 | `send`'s cut: payloads concatenate to the message, all packets but the last are full and normal, the last is non-empty and ends the message |
| `Framing.CutIsUnique` | src/client/connection.rs:290-307 | no other packet list meets that description |
| `Framing.DecodeAllSound` | src/tds/codec/decode.rs:17-68 | reading a byte string loses and invents no byte |
| `Framing.DecodeAllInstalments` | src/tds/codec/decode.rs:17-68 | reading in two instalments gives the packets of reading at once, for any bytes, malformed ones included |
| `Framing.FeedIsDecodeAll` | src/tds/codec/decode.rs:17-68 | the same for any number of pieces, empty ones included |
| `Framing.FramingRoundTrip` | src/tds/codec/decode.rs:17-68 | a message cut for any packet size and delivered in any pieces comes back packet for packet, nothing left over |
| `Framing.AppendMessage` | src/client/connection.rs:286-311 | a whole message keeps the wire on a message boundary and adds one request |
| `Framing.AppendPart` | src/client/connection.rs:286-311 | a proper part of a message completes no request and breaks the boundary unless it is empty |
| `Connections.Connection.WriteToWire` | src/client/connection.rs:409-420 | wire and write buffer together grow by exactly one packet, interrupted or not |
| `Connections.Connection.Send` | src/client/connection.rs:275-312 | refused exactly when poisoned or desynced; done: the wire grows by the cut message and is flushed; interrupted: by a prefix of it, and the connection is poisoned |
| `Connections.Connection.Cancel` | src/client/connection.rs:435-459 | the same for the single empty Attention packet, whose eight bytes are given for every packet id |
| `Connections.Connection.SendSensitiveLogin` | src/client/connection.rs:368-402 | the same, with the bytes `send` would write for that header and payload |
| `Connections.FrameSensitiveLogin` | src/client/connection.rs:1025-1068 | its frames are one by one the encoded packets of `send`'s cut |
| `Connections.Connection.PollNext` | src/client/connection.rs:1209-1220 | hands out the first packet of the arriving bytes for any fragmentation; otherwise consumes nothing; marks flushed exactly on a final packet; on a steady stream the answer is determined, end of stream and a cut packet included |
| `Connections.Connection.PollRead` | src/client/connection.rs:1224-1263 | hands out exactly the next `size` payload bytes, or none and loses none; too few bytes are an error at the end of the stream and pending before it |
| `Connections.Connection.FlushStream` | src/client/connection.rs:471-512 | drops the half-read payload and takes packets up to one end of message; success means flushed or a finished stream |
| `Connections.Connection.CollectFrom` | src/tds/codec.rs:50-68 | returns the payload of exactly the next message |
| `Connections.CollectedMessage` | src/tds/codec.rs:50-68 | what `collect_from` takes of a cut message followed by anything is exactly that message, its payload the original |
| `BulkLoads.RefinesPacket` | src/tds/codec/bulk_load.rs:150-160 | taking a full packet off the buffer keeps the refinement of the one-shot `send`, whatever comes later |
| `BulkLoads.RefinesAppend` | src/tds/codec/bulk_load.rs:80-87 | so does buffering a row |
| `BulkLoads.BulkLoadRequest.Send` | src/tds/codec/bulk_load.rs:69-91 | a good row extends the stream; a failing row leaves no byte; nothing has left the buffer exactly while the stream fits one packet |
| `BulkLoads.BulkLoadRequest.WritePackets` | src/tds/codec/bulk_load.rs:134-165 | keeps the refinement invariant; on success at most one packet stays buffered, else the connection is poisoned |
| `BulkLoads.BulkLoadRequest.Finalize` | src/tds/codec/bulk_load.rs:104-132 | the wire becomes what one `send` of the whole stream and DONE would have made it |
| `WireRuns.BulkLoad` | src/tds/codec/bulk_load.rs:30-165 | a whole bulk load writes `send`'s cut of metadata, good rows and DONE, independent of row boundaries and failed rows; interrupted, a prefix of it; the bytes of every packet header are given |
| `WireRuns.BulkBytes` | src/tds/codec/header.rs:123-129 | every packet of a bulk load starts with type 7, has the end-of-message byte on the last packet alone, and carries the load's packet id |
| `WireRuns.OpenMessage` | src/tds/codec/bulk_load.rs:134-165 | while a bulk load is open the wire is on a boundary exactly when nothing was written |
| `WireRuns.AbandonedLoad` | src/tds/codec/bulk_load.rs:58-63 | when a bulk load dropped without `finalize` leaves whole messages: exactly if no row was buffered or everything fitted one packet |
| `WireRuns.AbandonedLoadExample` | src/tds/codec/bulk_load.rs:58-63 | packet size 9, one byte of metadata, one row of one byte, no failure: the abandoned load leaves a usable connection inside a message |
| `WireRuns.Step` | src/client/connection.rs:275-518 | every operation keeps "usable implies whole messages on the wire" and adds a part of its own message, all of it if nothing interferes; on an unusable connection it adds no byte and does not revive it |
| `WireRuns.Run` | src/client/connection.rs:319-333 | over every run: whole messages at each usable moment, each operation adding only a part of its own message (all of it if nothing interferes), and from the first unusable moment the wire never changes |
| `Pairing.Session.Drain` | src/client/connection.rs:471-512 | a successful `flush_stream` leaves nothing of any earlier response to read |
| `Pairing.Session.Ask` | src/client/connection.rs:275-312 | a send when every answer has been read, as in the handshake: what follows on the stream belongs to this request alone, also when the send is interrupted |
| `Pairing.Session.Query` | src/client/connection.rs:275-312 | the same for `flush_stream; send` at any time; it wedges an open session exactly if the item fails or is empty, and a wedged session sends nothing |
| `Pairing.Session.Read` | src/client/connection.rs:1224-1263 | what was read since the query is a prefix of the response to that query |
| `Pairing.Session.Collect` | src/tds/codec.rs:50-68 | the same for a collected message; it ends exactly at the end of the response |
| `Pairing.Step` | src/client/connection.rs:275-518 | every event keeps the answers recorded so far sound and has its effect; all events but a hang-up keep a wedged session wedged and its wire unchanged |
| `Pairing.Run` | src/client/connection.rs:471-518 | over every run, from the handshake on, of requests, reads, collected messages, answers, hang-ups and timeouts: all bytes read after a request are a prefix of its own response; a wedged session stays wedged until the server hangs up |
| `Pairing.Connected` | src/client/connection.rs:528-549 | from a new connection the handshake reaches a logged-in session with its response collected |
| `Pairing.Exchange` | src/client/connection.rs:471-512 | on a steady connection a query gets exactly the bytes of its own response and leaves the session ready for the next |
| `Pairing.Dialogue` | src/client/connection.rs:471-512 | hence from a new connection any number of queries, each returning its own response |
| `Pairing.FailedItemWedges` | src/client/connection.rs:279-285 | after a good handshake, one failing or empty item wedges a healthy connection |
| `TlsPrelogin.TlsPreloginWrapper.ReadHeader` | src/client/tls.rs:205-245 | fills the header across partial reads; rejects exactly headers of another type or shorter than a header |
| `TlsPrelogin.TlsPreloginWrapper.Read` | src/client/tls.rs:190-262 | what is handed up followed by what is still to be handed up never changes, pending and errors included; an empty answer before the end comes exactly from a header with no body behind it |
| `TlsPrelogin.StripEncoded` | src/client/tls.rs:190-262 | from pre-login packets exactly the payloads are handed up |
| `TlsPrelogin.StripPrefix` | src/client/tls.rs:190-262 | while packets are arriving, a prefix of their payloads and no header byte |
| `TlsPrelogin.StripsToNothing` | src/client/tls.rs:190-262 | nothing is handed up exactly if the stream holds only headers without a body |
| `TlsPrelogin.StripResumes` | src/client/tls.rs:223-239 | behind any rejected header, of another type, undecodable or too short, reading on hands up exactly what the following bytes carry; nothing exactly if those are headers without a body |
| `TlsPrelogin.StripAfterError` | src/client/tls.rs:223-239 | a case: a header of another type, then a one-byte packet, whose byte is handed up |
| `TlsPrelogin.TlsPreloginWrapper.Flush` | src/client/tls.rs:288-327 | wire and owed bytes are conserved; success means everything owed is written, except exactly when a drain resumes with at most eight bytes; panics exactly on more than one packet of bytes |
| `TlsPrelogin.ShortDrainExample` | src/client/tls.rs:288-327 | a drain stalled three bytes short, and the next flush succeeds with the wire unchanged |
| `TlsPrelogin.Run` | src/client/tls.rs:190-327 | over every run of writes, flushes and reads, pending or failing anywhere: what was written is recoverable at every moment exactly if no write came during a drain; reads hand up the peer's bytes in order |
| `TlsPrelogin.Handshake` | src/client/tls.rs:190-327 | two wrappers face to face: the reader's answers are a prefix of what was written, and all of it once the wire is drained and read |
| `TlsPrelogin.IntrusionExample` | src/client/tls.rs:271-286 | a byte written during a drain is not recoverable |
| `TlsPrelogin.AccidentExample` | src/client/tls.rs:271-327 | a run with such a write after which, by the bytes written later, the whole wire strips to everything written |
| `TlsPrelogin.EmptyBodyExample` | src/client/tls.rs:246-262 | a packet with an empty body makes a read answer zero bytes before the next packet's byte |
| `AdoParser.SkipTrailingAt` | src/client/config/ado_parser.rs:171-179 | only blanks may precede the next `;` or the end |
| `AdoParser.Parse` | src/client/config/ado_parser.rs:44-167 | terminates with every index in range on every input and computes the tokenizer's specification |
| `AdoParser.ReadValuePrinted` | src/client/config/ado_parser.rs:90-155 | each of the four value forms, with blanks around it, is read back as the value it was printed from |
| `AdoParser.SpelledParse` | src/client/config/ado_parser.rs:44-167 | however a list of pairs is written (keys in any letter case, blanks around keys and values, runs of `;` and blanks, the last `;` left out), parsing gives the last-wins map of the lower-case keys and the values |
| `AdoParser.PrintParse` | src/client/config/ado_parser.rs:44-167 | parsing the print of any list of pairs, each in any form that can carry its value, gives the last-wins map |
| `AdoParser.ParsedIsCanonical` | src/client/config/ado_parser.rs:83-88 | every accepted string yields only canonical keys and ASCII values |
| `AdoParser.ReprintAccepted` | src/client/config/ado_parser.rs:44-167 | reprinting the map of any accepted string and parsing it gives the same map |
| `AdoParser.DefectRefused` | src/client/config/ado_parser.rs:69-179 | a string whose last pair lacks its key or its separator, leaves a quote or brace open, or has text behind a closed value is refused for exactly that reason, however the pairs before it are written |
| `AdoParser.NonAsciiRefused` | src/client/config/ado_parser.rs:49-51 | refused as non-ASCII exactly if some character is |
| `Quoting.ReadQuotedDoubled` | src/client/config/ado_parser.rs:96-122 | reading delimited text undoes doubling its delimiter |
| `Identifiers.Validate` | src/client.rs:1331-1454 | computes the scan's verdict, first offence first |
| `Identifiers.AcceptedIsNeutral` | src/client.rs:1331-1454 | accepted exactly if control-free and, to a reference lexer started at any paren depth, neutral: ends outside brackets at that depth, never below it, exposing only allowed characters, no top-level space or comma, nothing but `.` after a closing bracket |
| `Identifiers.VerdictIsFirstOffence` | src/client.rs:1331-1454 | the verdict on every text is that of the first offence the reference lexer exposes, control characters first, else of the state the text ends in |
| `Identifiers.SpliceKeepsState` | src/client.rs:1331-1454 | text after an accepted identifier is lexed as if the identifier were absent, unless it starts with `]` |
| `Identifiers.SplitMultipart` | src/client.rs:1210-1239 | computes the splitter's specification |
| `Identifiers.SplitSpelled` | src/client.rs:1210-1239 | splitting a name gives the texts of its parts, each written in brackets (any text) or plain |
| `Identifiers.SplitJoin` | src/client.rs:1202-1239 | splitting the joined quoted parts returns the parts, whatever they hold |
| `Identifiers.JoinAccepted` | src/client.rs:1202-1204 | the joined quoted form of control-free parts is accepted |
| `Identifiers.NormalForm` | src/client.rs:1202-1239 | quote-after-split is accepted, names the same parts and is idempotent on accepted identifiers |
| `Identifiers.NormalFormSpelled` | src/client.rs:1202-1239 | for an accepted name however written, it is the same name with every part in brackets |
| `Identifiers.CollationQuery` | src/client.rs:1157-1199 | the whole collation query as the server reads it: the catalog part in brackets, `tempdb` or nothing, the procedure, and one literal that ends the query and splits into exactly the schema and table parts |
| `Identifiers.CollationLiteral` | src/client.rs:1180-1198 | the string literal is closed by its last quote, and its text splits into the two parts, empty ones included |
| `Identifiers.CollationCatalog` | src/client.rs:1170-1178 | a catalog part is spliced in as an accepted identifier naming that part alone |
| `PreLoginMessages.ReorderSwaps` | src/tds/codec/guid.rs:5-10 | the first three groups of a GUID change between big and little endian, the rest stays |
| `PreLoginMessages.ReorderTwice` | src/tds/codec/guid.rs:5-10 | reordering a GUID twice restores it |
| `PreLoginMessages.Encode` | src/tds/codec/pre_login.rs:153-219 | table, terminator and data area of the message |
| `PreLoginMessages.TableTiles` | src/tds/codec/pre_login.rs:200-216 | every entry points at exactly its own data and the entries tile the data area |
| `PreLoginMessages.Decode` | src/tds/codec/pre_login.rs:221-329 | terminates on every input and computes the table walk |
| `PreLoginMessages.DecodeMeans` | src/tds/codec/pre_login.rs:221-329 | on every input: succeeds exactly on a terminated table of options in any order and repetition, giving the last value of each kind; fails with a reason exactly if such a table is spoiled for that reason first |
| `PreLoginMessages.DecodeNothing` | src/tds/codec/pre_login.rs:221-329 | options a peer does not mention keep their defaults |
| `PreLoginMessages.EncodingOpens` | src/tds/codec/pre_login.rs:153-219 | the encoding is such a table, of the message's options in the order written |
| `PreLoginMessages.DecodeEncoded` | src/tds/codec/pre_login.rs:153-329 | for every message, decoding its encoding gives what survives the wire |
| `PreLoginMessages.RoundTripExact` | src/tds/codec/pre_login.rs:153-329 | the round trip is exact if and only if there is no nonce, the level is not strict, and the name is absent or non-empty and NUL-free |
| `Numerics.Parts` | src/tds/numeric.rs:46-59 | integer and decimal part recompose the value; the fraction is below one |
| `Numerics.Precision` | src/tds/numeric.rs:74-88 | the division loop counts decimal digits |
| `Numerics.PrecisionBounds` | src/tds/numeric.rs:74-88 | the precision is the digit count of the magnitude, or one more than the scale below one, and is between 1 and 39 |
| `Numerics.WidthHolds` | src/tds/numeric.rs:90-97 | the chosen width always holds the magnitude |
| `Numerics.WidthIsSmallest` | src/tds/numeric.rs:90-97 | the chosen width is the smallest that holds every number of that precision |
| `Numerics.Encode` | src/tds/numeric.rs:177-207 | length, sign and little-endian magnitude |
| `Numerics.MagnitudeIsValue` | src/tds/numeric.rs:103-122 | the two-part read with its zero shortcut is the little-endian value |
| `Numerics.DecodeGot` | src/tds/numeric.rs:99-175 | a value is decoded exactly from a NULL or a number in any of the four widths, narrowest or not, whatever follows |
| `Numerics.DecodeRefused` | src/tds/numeric.rs:99-175 | bad sign, bad length, too large and too short are answered exactly on their inputs; only the widest form can be too large |
| `Numerics.NumericRoundTrip` | src/tds/numeric.rs:99-207 | decoding an encoded value returns value and scale for every `i128` but the minimum, which is rejected |
| `Numerics.FormatDenotes` | src/tds/numeric.rs:209-226 | the printed form denotes value / 10^scale exactly, with `scale` fraction digits when there are any |
| `Numerics.EqualIsRational` | src/tds/numeric.rs:254-266 | "different" is always right, "equal" exactly when the rescaled product fits |
| `Numerics.EqualOverflow` | src/tds/numeric.rs:254-266 | two different numbers that compare equal through overflow |
| `Numerics.EqualIsEquivalence` | src/tds/numeric.rs:254-266 | where the products fit, `==` is reflexive, symmetric and transitive |
| `Collations.EncodeSingle` | src/tds/collation.rs:192-202 | fails exactly if some character is not in the page |
| `Collations.EncodeAfterDecode` | src/tds/collation.rs:182-202 | for an injective table every byte string survives decoding and encoding |
| `Collations.DecodeAfterEncode` | src/tds/collation.rs:182-202 | text that encodes survives encoding and decoding |
| `Collations.CodePagesAreExact` | src/tds/collation.rs:92-127 | CP437 and CP850 are exact inverses in both directions |
| `ReadBytes.ReadBytesInto` | src/sql_read_bytes.rs:31-72 | appends exactly the next `len` bytes and reads no more; at early end exactly the delivered ones; fails exactly if a read failed; never more than one window unfilled |
| `ReadBytes.EncodeBVarchar` | src/tds/codec/encode.rs:16-36 | count byte and little-endian units, refused exactly above 255 units |
| `ReadBytes.PollInteger` | src/sql_read_bytes.rs:160-222 | a newly built integer reader gets all its bytes or takes none |
| `ReadBytes.ValidIsEncoded` | src/sql_read_bytes.rs:74-158 | text is accepted exactly if it is the UTF-16 encoding of Unicode scalar values |
| `ReadBytes.VarcharReader.Poll` | src/sql_read_bytes.rs:74-158 | bytes seen and bytes still to come are conserved across polls; on a steady stream it answers exactly if the string has arrived whole |
| `ReadBytes.BVarcharPrefixCode` | src/tds/codec/encode.rs:16-36 | a stream starts with at most one B_VARCHAR |
| `ReadBytes.ReadBVarchar` | src/sql_read_bytes.rs:74-158 | reading back what was encoded, with any number of pending polls, gives the string and leaves what followed |

## Left out

- Sockets, TLS backends, certificates, and the pass-through of the pre-login wrapper's writes after the handshake: foreign libraries and plain delegation.
- Login authentication, GSSAPI, SSPI, NTLM, secret zeroization: foreign calls.
- Timeouts as real time; a command timeout is only the desync flag becoming true.
- The token stream, PLP and row, metadata and login encoders: an encoded item is any byte string or a failure.
- The drain of the Attention acknowledgement; `Connections.Connection.Cancel` models the write side, and `Pairing.Run` has no cancellations or bulk loads.
- `Connection::close` and the transport replacement after login.
- Liveness beyond a steady environment: nothing says a peer answers or a pending read wakes up.
- Packet sizes outside 9 to 65535 bytes: the code underflows, loops or wraps there.
- Identifiers with more than 2^32 open parentheses, which overflow the depth counter.
- Replacement of ill-formed UTF-8 in a received instance name.
- JDBC strings, the `encoding_rs` code pages, LCID and sort-id tables.
- Date and time codecs: easier versions of the NUMERIC round trip.
- `FromSql`, `ToSql`, `Row`, `Config`, proc macros, encryption negotiation, SQL Browser: one-branch facts and I/O.
