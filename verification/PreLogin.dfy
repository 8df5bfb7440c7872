/** The PRELOGIN message and its offset table (src/tds/codec/pre_login.rs). */
module PreLoginMessages {
  import opened Bytes

  datatype Encryption = Off | On | NotSupported | Required | Strict

  /** `as_wire_value`: strict mode advertises `Required`. */
  function WireValue(e: Encryption): u8
  {
    match e
    case Off => 0
    case On => 1
    case NotSupported => 2
    case Required => 3
    case Strict => 3
  }

  function EncryptionOf(n: u8): Option<Encryption>
  {
    match n
    case 0 => Some(Off)
    case 1 => Some(On)
    case 2 => Some(NotSupported)
    case 3 => Some(Required)
    case 4 => Some(Strict)
    case _ => None
  }

  type Guid = b: bytes | |b| == 16 witness seq(16, _ => 0)

  datatype ActivityId = ActivityId(id: Guid, sequence: u32)

  /** An instance name is its UTF-8 bytes. */
  datatype Message = Message(
    version: u32,
    subBuild: u16,
    encryption: Encryption,
    instanceName: Option<bytes>,
    threadId: u32,
    mars: bool,
    activityId: Option<ActivityId>,
    fedAuthRequired: bool,
    nonce: Option<bytes>)

  /** `PreloginMessage::new`, for a given driver version. */
  function NewMessage(version: u32, subBuild: u16): Message
  {
    Message(version, subBuild, NotSupported, None, 0, false, None, false, None)
  }

  const VERSION: u8 := 0
  const ENCRYPTION: u8 := 1
  const INSTOPT: u8 := 2
  const THREADID: u8 := 3
  const MARS: u8 := 4
  const TRACEID: u8 := 5
  const FEDAUTHREQUIRED: u8 := 6
  const NONCEOPT: u8 := 7
  const TERMINATOR: u8 := 0xFF

  /** `reorder_bytes`: swaps within the first three groups. */
  function Reorder(b: Guid): Guid
  {
    [b[3], b[2], b[1], b[0], b[5], b[4], b[7], b[6]] + b[8..]
  }

  /** The first three groups change between big and little endian; the rest stays. */
  lemma ReorderSwaps(b: Guid)
    ensures var r := Reorder(b);
      && LeValue(r[..4]) == BeValue(b[..4]) && LeValue(r[4..6]) == BeValue(b[4..6])
      && LeValue(r[6..8]) == BeValue(b[6..8]) && r[8..] == b[8..]
  {
    var r := Reorder(b);
    LeIsBe(r[..4], b[..4]);
    LeIsBe(r[4..6], b[4..6]);
    LeIsBe(r[6..8], b[6..8]);
  }

  lemma {:induction false} LeIsBe(a: bytes, b: bytes)
    requires |a| == |b| && forall i :: 0 <= i < |a| ==> a[i] == b[|b| - 1 - i]
    ensures LeValue(a) == BeValue(b)
  {
    if a != [] {
      LeIsBe(a[1..], b[..|b| - 1]);
    }
  }

  lemma ReorderTwice(b: Guid)
    ensures Reorder(Reorder(b)) == b
  {
  }

  // ---------------------------------------------------------------------- encoding

  datatype Field = Field(token: u8, data: bytes)

  function NameOf(m: Message): bytes
  {
    match m.instanceName
    case Some(name) => name
    case None => []
  }

  /** The options in the order they are written, each with its data. */
  function Fields(m: Message): seq<Field>
  {
    [ Field(VERSION, BeBytes(m.version, 4) + BeBytes(m.subBuild, 2)),
      Field(ENCRYPTION, [WireValue(m.encryption)]),
      Field(INSTOPT, NameOf(m) + [0]),
      Field(THREADID, BeBytes(m.threadId, 4)),
      Field(MARS, [if m.mars then 1 else 0]) ]
    + (match m.activityId
       case Some(a) => [Field(TRACEID, Reorder(a.id) + LeBytes(a.sequence, 4))]
       case None => [])
    + (if m.fedAuthRequired then [Field(FEDAUTHREQUIRED, [1])] else [])
  }

  function Data(fields: seq<Field>): bytes
  {
    if fields == [] then [] else fields[0].data + Data(fields[1..])
  }

  /** The message fits its 16-bit offsets. */
  predicate FitsU16(m: Message)
  {
    5 * |Fields(m)| + 1 + |Data(Fields(m))| <= 0xFFFF
  }

  function Entry(token: u8, offset: u16, length: u16): (r: bytes)
    ensures |r| == 5
  {
    [token] + Be16(offset) + Be16(length)
  }

  function Table(fields: seq<Field>, offset: nat): (r: bytes)
    requires offset + |Data(fields)| <= 0xFFFF
    ensures |r| == 5 * |fields|
  {
    if fields == [] then []
    else Entry(fields[0].token, offset, |fields[0].data|) + Table(fields[1..], offset + |fields[0].data|)
  }

  function Encoding(m: Message): (r: bytes)
    requires FitsU16(m)
  {
    Table(Fields(m), 5 * |Fields(m)| + 1) + [TERMINATOR] + Data(Fields(m))
  }

  lemma {:induction false} DataAppend(fields: seq<Field>, f: Field)
    ensures Data(fields + [f]) == Data(fields) + f.data
  {
    if fields == [] {
    } else {
      assert (fields + [f])[1..] == fields[1..] + [f];
      DataAppend(fields[1..], f);
    }
  }

  /** The field list and data cursor `encode` fills, against the options they stand for. */
  ghost predicate Gathered(options: seq<(u8, nat)>, data: bytes, fields: seq<Field>)
  {
    && data == Data(fields)
    && |options| == |fields| && forall i :: 0 <= i < |fields| ==> options[i] == (fields[i].token, |fields[i].data|)
  }

  lemma Gather(options: seq<(u8, nat)>, data: bytes, fields: seq<Field>, f: Field)
    requires Gathered(options, data, fields)
    ensures Gathered(options + [(f.token, |f.data|)], data + f.data, fields + [f])
  {
    DataAppend(fields, f);
  }

  method Options(m: Message) returns (options: seq<(u8, nat)>, data: bytes)
    ensures Gathered(options, data, Fields(m))
  {
    hide Gathered;
    ghost var all := Fields(m);
    options, data := [], [];
    NothingGathered();

    Gather(options, data, [], all[0]);
    options := options + [(VERSION, 0x06)];
    data := data + (BeBytes(m.version, 4) + BeBytes(m.subBuild, 2));
    assert all[..1] == [] + [all[0]];

    Gather(options, data, all[..1], all[1]);
    options := options + [(ENCRYPTION, 0x01)];
    data := data + [WireValue(m.encryption)];
    assert all[..2] == all[..1] + [all[1]];

    Gather(options, data, all[..2], all[2]);
    var instance := NameOf(m);
    options := options + [(INSTOPT, |instance| + 1)];
    data := data + (instance + [0]);
    assert all[..3] == all[..2] + [all[2]];

    Gather(options, data, all[..3], all[3]);
    options := options + [(THREADID, 0x04)];
    data := data + BeBytes(m.threadId, 4);
    assert all[..4] == all[..3] + [all[3]];

    Gather(options, data, all[..4], all[4]);
    options := options + [(MARS, 0x01)];
    data := data + [if m.mars then 1 else 0];
    assert all[..5] == all[..4] + [all[4]];

    ghost var n := 5;
    if m.activityId.Some? {
      Gather(options, data, all[..5], all[5]);
      options := options + [(TRACEID, 0x14)];
      data := data + (Reorder(m.activityId.value.id) + LeBytes(m.activityId.value.sequence, 4));
      assert all[..6] == all[..5] + [all[5]];
      n := 6;
    }

    if m.fedAuthRequired {
      Gather(options, data, all[..n], all[n]);
      options := options + [(FEDAUTHREQUIRED, 0x01)];
      data := data + [1];
      n := n + 1;
    }
    assert all[..n] == all;
  }

  lemma NothingGathered()
    ensures Gathered([], [], [])
  {
  }

  lemma EntryBytes(token: u8, offset: u16, length: u16)
    ensures Entry(token, offset, length) == [token] + Be16(offset) + Be16(length)
  {
  }

  /** `PreloginMessage::encode`. */
  method Encode(dst: bytes, m: Message) returns (out: bytes)
    requires FitsU16(m)
    ensures out == dst + Encoding(m)
  {
    hide Fields, Entry;
    var options, data := Options(m);
    ghost var all := Fields(m);
    var offset := |options| * 5 + 1;
    out := dst;
    ghost var table := Table(all, offset);
    assert all[0..] == all;
    for i := 0 to |options|
      invariant 0 <= offset && offset + |Data(all[i..])| == 5 * |all| + 1 + |Data(all)|
      invariant out + Table(all[i..], offset) == dst + table
    {
      ghost var entry := Entry(all[i].token, offset, |all[i].data|);
      assert out + (entry + Table(all[i + 1..], offset + |all[i].data|))
          == (out + entry) + Table(all[i + 1..], offset + |all[i].data|);
      var (token, length) := options[i];
      EntryBytes(token, offset, length);
      out := out + ([token] + Be16(offset) + Be16(length));
      offset := offset + length;
    }
    out := out + [TERMINATOR];
    out := out + data;
    assert dst + table + [TERMINATOR] + data == dst + Encoding(m);
  }

  // ------------------------------------------------------------------ the offset table

  /** Where the data of field `i` starts. */
  function Offset(fields: seq<Field>, i: nat): nat
    requires i <= |fields|
  {
    5 * |fields| + 1 + |Data(fields[..i])|
  }

  lemma {:induction false} DataConcat(a: seq<Field>, b: seq<Field>)
    ensures Data(a + b) == Data(a) + Data(b)
  {
    if a == [] {
      assert a + b == b;
    } else {
      assert (a + b)[1..] == a[1..] + b;
      DataConcat(a[1..], b);
    }
  }

  lemma {:induction false} TableEntry(fields: seq<Field>, offset: nat, i: nat)
    requires offset + |Data(fields)| <= 0xFFFF && i < |fields|
    ensures |Data(fields[..i])| + |fields[i].data| <= |Data(fields)|
    ensures Table(fields, offset)[5 * i..5 * i + 5] ==
            Entry(fields[i].token, offset + |Data(fields[..i])|, |fields[i].data|)
    decreases i
  {
    hide Entry;
    var table := Table(fields, offset);
    if i > 0 {
      var first, rest := fields[0], fields[1..];
      TableEntry(rest, offset + |first.data|, i - 1);
      assert rest[..i - 1] == fields[..i][1..];
      assert table == Entry(first.token, offset, |first.data|) + Table(rest, offset + |first.data|);
      assert table[5 * i..5 * i + 5] == Table(rest, offset + |first.data|)[5 * i - 5..5 * i];
    } else {
      assert fields[..i] == [];
    }
  }

  /**
   * The table tiles the data area: entry `i` sits at byte `5 * i` and points at exactly its own data,
   * each field starts where the one before it ends, the first behind the terminator and the last
   * ends with the message.
   */
  lemma TableTiles(m: Message, i: nat)
    requires FitsU16(m) && i < |Fields(m)|
    ensures var fields, e := Fields(m), Encoding(m);
      var from, to := Offset(fields, i), Offset(fields, i + 1);
      && to == from + |fields[i].data| <= |e| <= 0xFFFF
      && e[5 * i..5 * i + 5] == Entry(fields[i].token, from, |fields[i].data|)
      && e[from..to] == fields[i].data
      && Offset(fields, 0) == 5 * |fields| + 1 && e[5 * |fields|] == TERMINATOR
      && Offset(fields, |fields|) == |e|
  {
    hide Fields, Data, Entry, Table;
    var fields := Fields(m);
    var base := 5 * |fields| + 1;
    TableEntry(fields, base, i);
    DataSlice(fields, i);
    assert fields[..0] == [] && fields[..|fields|] == fields;
    NoData();
  }

  lemma NoData()
    ensures Data([]) == []
  {
  }

  lemma DataSlice(fields: seq<Field>, i: nat)
    requires i < |fields|
    ensures var k := |Data(fields[..i])|;
      && |Data(fields[..i + 1])| == k + |fields[i].data| <= |Data(fields)|
      && Data(fields)[k..k + |fields[i].data|] == fields[i].data
  {
    assert fields[..i + 1] == fields[..i] + [fields[i]];
    DataAppend(fields[..i], fields[i]);
    assert fields == fields[..i + 1] + fields[i + 1..];
    DataConcat(fields[..i + 1], fields[i + 1..]);
  }

  // ---------------------------------------------------------------------- decoding

  datatype Failure = Eof | BadEncryption | BadThreadIdLength | UnknownToken

  datatype Result<T> = Ok(value: T) | Err(error: Failure)

  /** `acc` and the bytes up to the first NUL; nothing if there is no NUL. */
  function UntilNul(b: bytes, acc: bytes): Option<bytes>
  {
    if b == [] then None
    else if b[0] == 0 then Some(acc)
    else UntilNul(b[1..], acc + [b[0]])
  }

  /** One option, read from the position its table entry gives. */
  function ReadOption(token: u8, length: u16, at: bytes, m: Message): Result<Message>
  {
    if token == VERSION then
      if |at| < 6 then Err(Eof) else
        BeBounds(at[..4]);
        BeBounds(at[4..6]);
        Ok(m.(version := BeValue(at[..4]), subBuild := BeValue(at[4..6])))
    else if token == ENCRYPTION then
      if at == [] then Err(Eof)
      else if EncryptionOf(at[0]).None? then Err(BadEncryption)
      else Ok(m.(encryption := EncryptionOf(at[0]).value))
    else if token == INSTOPT then
      var name := UntilNul(at, []);
      if name.None? then Err(Eof) else Ok(if name.value == [] then m else m.(instanceName := name))
    else if token == THREADID then
      if length == 0 then Ok(m.(threadId := 0))
      else if length != 4 then Err(BadThreadIdLength)
      else if |at| < 4 then Err(Eof)
      else
        BeBounds(at[..4]);
        Ok(m.(threadId := BeValue(at[..4])))
    else if token == MARS then
      if at == [] then Err(Eof) else Ok(m.(mars := at[0] != 0))
    else if token == TRACEID then
      if |at| < 20 then Err(Eof)
      else
        LeBounds(at[16..20]);
        Ok(m.(activityId := Some(ActivityId(Reorder(at[..16]), LeValue(at[16..20])))))
    else if token == FEDAUTHREQUIRED then
      if at == [] then Err(Eof) else Ok(m.(fedAuthRequired := at[0] != 0))
    else if token == NONCEOPT then
      if |at| < 32 then Err(Eof) else Ok(m.(nonce := Some(at[..32])))
    else Err(UnknownToken)
  }

  lemma {:induction false} BeBounds(b: bytes)
    ensures BeValue(b) < Pow(0x100, |b|)
    ensures Pow(0x100, 2) == 0x1_0000 && Pow(0x100, 4) == 0x1_0000_0000
  {
    if b != [] {
      BeBounds(b[..|b| - 1]);
    }
  }

  lemma LeBounds(b: bytes)
    requires |b| == 4
    ensures LeValue(b) < 0x1_0000_0000
  {
    LeBound(b);
    BeBounds([]);
  }

  function From(src: bytes, offset: nat): bytes
  {
    if offset <= |src| then src[offset..] else []
  }

  /** The options from table position `pos` on. */
  function DecodeFrom(src: bytes, pos: nat, m: Message): Result<Message>
    requires pos <= |src|
    decreases |src| - pos
  {
    if pos == |src| then Err(Eof)
    else if src[pos] == TERMINATOR then Ok(m)
    else if |src| < pos + 5 then Err(Eof)
    else
      var next := ReadOption(src[pos], FromBe16(src[pos + 3..]), From(src, FromBe16(src[pos + 1..])), m);
      if next.Err? then next else DecodeFrom(src, pos + 5, next.value)
  }

  /** The INSTOPT loop. */
  method ReadName(at: bytes) returns (r: Option<bytes>)
    ensures r == UntilNul(at, [])
  {
    var name: bytes := [];
    var i := 0;
    while i < |at|
      invariant 0 <= i <= |at| && UntilNul(at[i..], name) == UntilNul(at, [])
    {
      if at[i] == 0 {
        return Some(name);
      }
      name := name + [at[i]];
      i := i + 1;
    }
    r := None;
  }

  /** `PreloginMessage::decode`: ends on every input, as each entry moves the table position by five. */
  method Decode(src: bytes, initial: Message) returns (r: Result<Message>)
    ensures r == DecodeFrom(src, 0, initial)
  {
    var m, pos := initial, 0;
    while true
      invariant 0 <= pos <= |src| && DecodeFrom(src, pos, m) == DecodeFrom(src, 0, initial)
      decreases |src| - pos
    {
      if pos == |src| {
        return Err(Eof);
      }
      var token := src[pos];
      if token == TERMINATOR {
        return Ok(m);
      }
      if |src| < pos + 5 {
        return Err(Eof);
      }
      var offset, length := FromBe16(src[pos + 1..]), FromBe16(src[pos + 3..]);
      var at := From(src, offset);
      var next;
      if token == INSTOPT {
        var name := ReadName(at);
        next := if name.None? then Err(Eof) else Ok(if name.value == [] then m else m.(instanceName := name));
      } else {
        next := ReadOption(token, length, at, m);
      }
      if next.Err? {
        return next;
      }
      m, pos := next.value, pos + 5;
    }
  }

  // ----------------------------------------------------------- what an option list means

  /** An option as a peer may give it; the thread id may be left out by giving it no bytes. */
  datatype Given =
    | GivenVersion(version: u32, subBuild: u16)
    | GivenEncryption(level: Encryption)
    | GivenInstance(name: bytes)
    | GivenThreadId(id: Option<u32>)
    | GivenMars(flag: u8)
    | GivenTrace(trace: ActivityId)
    | GivenFedAuth(flag: u8)
    | GivenNonce(nonce: bytes)

  predicate Sendable(g: Given)
  {
    match g
    case GivenInstance(name) => 0 !in name
    case GivenNonce(nonce) => |nonce| == 32
    case _ => true
  }

  function Token(g: Given): (r: u8)
    ensures r <= 7
  {
    match g
    case GivenVersion(_, _) => 0
    case GivenEncryption(_) => 1
    case GivenInstance(_) => 2
    case GivenThreadId(_) => 3
    case GivenMars(_) => 4
    case GivenTrace(_) => 5
    case GivenFedAuth(_) => 6
    case GivenNonce(_) => 7
  }

  function Be32(n: u32): (r: bytes)
    ensures |r| == 4
  {
    [n / 0x100_0000, n / 0x1_0000 % 0x100, n / 0x100 % 0x100, n % 0x100]
  }

  function Le32(n: u32): (r: bytes)
    ensures |r| == 4
  {
    [n % 0x100, n / 0x100 % 0x100, n / 0x1_0000 % 0x100, n / 0x100_0000]
  }

  /** The bytes that carry it. */
  function Carried(g: Given): bytes
  {
    match g
    case GivenVersion(version, subBuild) => Be32(version) + Be16(subBuild)
    case GivenEncryption(level) =>
      [match level case Off => 0 case On => 1 case NotSupported => 2 case Required => 3 case Strict => 4]
    case GivenInstance(name) => name + [0]
    case GivenThreadId(id) => if id.Some? then Be32(id.value) else []
    case GivenMars(flag) => [flag]
    case GivenTrace(trace) => Reorder(trace.id) + Le32(trace.sequence)
    case GivenFedAuth(flag) => [flag]
    case GivenNonce(nonce) => nonce
  }

  /** What it makes of a message; an empty name leaves the name alone. */
  function Give(g: Given, m: Message): Message
  {
    match g
    case GivenVersion(version, subBuild) => m.(version := version, subBuild := subBuild)
    case GivenEncryption(level) => m.(encryption := level)
    case GivenInstance(name) => if name == [] then m else m.(instanceName := Some(name))
    case GivenThreadId(id) => m.(threadId := if id.Some? then id.value else 0)
    case GivenMars(flag) => m.(mars := flag != 0)
    case GivenTrace(trace) => m.(activityId := Some(trace))
    case GivenFedAuth(flag) => m.(fedAuthRequired := flag != 0)
    case GivenNonce(nonce) => m.(nonce := Some(nonce))
  }

  /** A list of options, in any order and with repetitions: the last of a kind counts. */
  function GiveAll(gs: seq<Given>, m: Message): Message
  {
    if gs == [] then m else Give(gs[|gs| - 1], GiveAll(gs[..|gs| - 1], m))
  }

  /** The length an entry announces matters for the thread id only. */
  predicate Carries(g: Given, length: u16, at: bytes)
  {
    Carried(g) <= at && (g.GivenThreadId? ==> length == |Carried(g)|)
  }

  function Length(src: bytes, pos: nat): u16
    requires pos + 5 <= |src|
  {
    0x100 * src[pos + 3] as int + src[pos + 4] as int
  }

  function Pointed(src: bytes, pos: nat): bytes
    requires pos + 5 <= |src|
  {
    var offset := 0x100 * src[pos + 1] as int + src[pos + 2] as int;
    if offset <= |src| then src[offset..] else []
  }

  /** The table opens with entries for `gs`, each pointing at its data. */
  ghost predicate Opens(src: bytes, gs: seq<Given>)
  {
    && 5 * |gs| <= |src|
    && forall i :: 0 <= i < |gs| ==>
         && Sendable(gs[i]) && src[5 * i] == Token(gs[i])
         && Carries(gs[i], Length(src, 5 * i), Pointed(src, 5 * i))
  }

  predicate Ends(src: bytes, pos: nat)
  {
    pos < |src| && src[pos] == 0xFF
  }

  /** Why the option at an entry cannot be read: the token, its value, its length, or missing data. */
  predicate Unreadable(token: u8, length: u16, at: bytes, why: Failure)
  {
    match why
    case UnknownToken => 8 <= token < 0xFF
    case BadEncryption => token == 1 && at != [] && at[0] > 4
    case BadThreadIdLength => token == 3 && length !in {0, 4}
    case Eof =>
      || (token == 0 && |at| < 6)
      || (token in {1, 4, 6} && at == [])
      || (token == 2 && 0 !in at)
      || (token == 3 && length == 4 && |at| < 4)
      || (token == 5 && |at| < 20)
      || (token == 7 && |at| < 32)
  }

  /** The table is spoiled at `pos`: it stops there, or its entry cannot be read. */
  predicate Faulty(src: bytes, pos: nat, why: Failure)
  {
    if pos + 5 <= |src| then Unreadable(src[pos], Length(src, pos), Pointed(src, pos), why)
    else why == Eof && pos <= |src| && !Ends(src, pos)
  }

  lemma ReadGiven(g: Given, length: u16, at: bytes, m: Message)
    requires Sendable(g) && Carries(g, length, at)
    ensures ReadOption(Token(g), length, at, m) == Ok(Give(g, m))
  {
    hide BeValue, LeValue, UntilNul, Be32, Le32, Reorder;
    var data := Carried(g);
    assert at == data + at[|data|..];
    match g
    case GivenVersion(version, subBuild) =>
      assert at[..4] == Be32(version) && at[4..6] == Be16(subBuild);
      Big(version);
      BigHalf(subBuild);
    case GivenInstance(name) =>
      UntilNulAt(name, at, []);
      assert [] + name == name;
    case GivenThreadId(id) =>
      if id.Some? {
        assert at[..4] == Be32(id.value);
        Big(id.value);
      }
    case GivenTrace(trace) =>
      assert at[..16] == Reorder(trace.id) && at[16..20] == Le32(trace.sequence);
      ReorderTwice(trace.id);
      Little(trace.sequence);
    case GivenNonce(nonce) =>
      assert at[..32] == nonce;
    case _ =>
  }

  lemma Big(n: u32)
    ensures BeValue(Be32(n)) == n
  {
    BytesOf(n);
    BeBounds([]);
    BeRoundTrip(n, 4);
  }

  lemma BigHalf(n: u16)
    ensures BeValue(Be16(n)) == n
  {
    BytesOf(n);
    BeBounds([]);
    BeRoundTrip(n, 2);
  }

  lemma Little(n: u32)
    ensures LeValue(Le32(n)) == n
  {
    BytesOf(n);
    BeBounds([]);
    LeRoundTrip(n, 4);
  }

  lemma BytesOf(n: u32)
    ensures BeBytes(n, 4) == Be32(n) && LeBytes(n, 4) == Le32(n)
    ensures n < 0x1_0000 ==> BeBytes(n, 2) == Be16(n)
  {
    hide BeBytes, LeBytes;
    var a, b, c := n / 0x100, n / 0x1_0000, n / 0x100_0000;
    Quotients(n);
    BytesStep(n, 3);
    BytesStep(a, 2);
    BytesStep(b, 1);
    BytesStep(c, 0);
    BytesStep(n, 1);
    BytesStep(a, 0);
  }

  lemma Quotients(n: u32)
    ensures n / 0x100 / 0x100 == n / 0x1_0000 && n / 0x1_0000 / 0x100 == n / 0x100_0000 < 0x100
  {
  }

  lemma BytesStep(n: nat, k: nat)
    ensures BeBytes(n, k + 1) == BeBytes(n / 0x100, k) + [n % 0x100]
    ensures LeBytes(n, k + 1) == [n % 0x100] + LeBytes(n / 0x100, k)
    ensures BeBytes(n, 0) == [] && LeBytes(n, 0) == []
  {
  }

  lemma {:induction false} UntilNulAt(name: bytes, b: bytes, acc: bytes)
    requires 0 !in name && name + [0] <= b
    ensures UntilNul(b, acc) == Some(acc + name)
    decreases |name|
  {
    if name == [] {
      assert b[0] == (name + [0])[0] && acc + name == acc;
    } else {
      assert b[0] == (name + [0])[0] && name[1..] + [0] <= b[1..];
      UntilNulAt(name[1..], b[1..], acc + [b[0]]);
      assert acc + [b[0]] + name[1..] == acc + name;
    }
  }

  lemma {:induction false} UntilNulNone(b: bytes, acc: bytes)
    requires 0 !in b
    ensures UntilNul(b, acc) == None
  {
    if b != [] {
      UntilNulNone(b[1..], acc + [b[0]]);
    }
  }

  function BeforeNul(b: bytes): bytes
  {
    if b == [] || b[0] == 0 then [] else [b[0]] + BeforeNul(b[1..])
  }

  lemma {:induction false} BeforeNulIs(b: bytes)
    ensures var n := BeforeNul(b);
      0 !in n && n + [0] <= b + [0] && (0 in b ==> n + [0] <= b) && (n == b <==> 0 !in b)
  {
    if b != [] && b[0] != 0 {
      BeforeNulIs(b[1..]);
      assert b == [b[0]] + b[1..];
    }
  }

  /** Conversely every option that is read was given. */
  lemma WhatIsRead(token: u8, length: u16, at: bytes, m: Message) returns (g: Given)
    requires token != TERMINATOR && ReadOption(token, length, at, m).Ok?
    ensures Sendable(g) && Token(g) == token && Carries(g, length, at)
  {
    hide BeValue, LeValue, UntilNul, Reorder, BeforeNul, Be32, Le32;
    if token == VERSION {
      var (v, b) := (Unpack(at[..4]), at[4..6]);
      g := GivenVersion(v, FromBe16(b));
      assert Carried(g) == at[..6];
    } else if token == ENCRYPTION {
      g := GivenEncryption(EncryptionOf(at[0]).value);
    } else if token == INSTOPT {
      if 0 !in at {
        UntilNulNone(at, []);
      }
      BeforeNulIs(at);
      g := GivenInstance(BeforeNul(at));
    } else if token == THREADID {
      g := GivenThreadId(if length == 0 then None else Some(Unpack(at[..4])));
    } else if token == MARS {
      g := GivenMars(at[0]);
    } else if token == TRACEID {
      ReorderTwice(at[..16]);
      g := GivenTrace(ActivityId(Reorder(at[..16]), UnpackLittle(at[16..20])));
      assert Carried(g) == at[..20];
    } else if token == FEDAUTHREQUIRED {
      g := GivenFedAuth(at[0]);
    } else {
      g := GivenNonce(at[..32]);
    }
  }

  function Unpack(b: bytes): (n: u32)
    requires |b| == 4
    ensures Be32(n) == b
  {
    BeBounds(b);
    BeCanonical(b);
    BytesOf(BeValue(b));
    BeValue(b)
  }

  function UnpackLittle(b: bytes): (n: u32)
    requires |b| == 4
    ensures Le32(n) == b
  {
    LeBounds(b);
    LeCanonical(b);
    BytesOf(LeValue(b));
    LeValue(b)
  }

  lemma {:induction false} BeCanonical(b: bytes)
    ensures BeBytes(BeValue(b), |b|) == b
  {
    if b != [] {
      BeCanonical(b[..|b| - 1]);
    }
  }

  lemma {:induction false} LeCanonical(b: bytes)
    ensures LeBytes(LeValue(b), |b|) == b
  {
    if b != [] {
      LeCanonical(b[1..]);
      var v := LeValue(b[1..]);
      assert (b[0] + 0x100 * v) / 0x100 == v && (b[0] + 0x100 * v) % 0x100 == b[0];
    }
  }

  lemma UnreadableIs(token: u8, length: u16, at: bytes, m: Message, why: Failure)
    requires token != TERMINATOR
    ensures ReadOption(token, length, at, m) == Err(why) <==> Unreadable(token, length, at, why)
  {
    hide BeValue, LeValue, UntilNul, Reorder;
    if 0 in at {
      BeforeNulIs(at);
      UntilNulAt(BeforeNul(at), at, []);
    } else {
      UntilNulNone(at, []);
    }
  }

  /** One entry of the table. */
  lemma DecodeEntry(src: bytes, pos: nat, m: Message)
    requires pos + 5 <= |src| && src[pos] != TERMINATOR
    ensures var next := ReadOption(src[pos], Length(src, pos), Pointed(src, pos), m);
      DecodeFrom(src, pos, m) == if next.Err? then next else DecodeFrom(src, pos + 5, next.value)
  {
    hide ReadOption;
    assert FromBe16(src[pos + 3..]) == Length(src, pos);
    assert From(src, FromBe16(src[pos + 1..])) == Pointed(src, pos);
  }

  lemma {:induction false} DecodeOpening(src: bytes, gs: seq<Given>, m: Message)
    requires Opens(src, gs)
    ensures DecodeFrom(src, 0, m) == DecodeFrom(src, 5 * |gs|, GiveAll(gs, m))
    decreases |gs|
  {
    hide ReadOption, DecodeFrom, Carries, Sendable, Length, Pointed, Give;
    if gs != [] {
      var k := |gs| - 1;
      var x := GiveAll(gs[..k], m);
      DecodeOpening(src, gs[..k], m);
      DecodeEntry(src, 5 * k, x);
      ReadGiven(gs[k], Length(src, 5 * k), Pointed(src, 5 * k), x);
    }
  }

  /** Every table opens with options up to its terminator or its first fault. */
  lemma {:induction false} ReadTable(src: bytes, gs: seq<Given>) returns (all: seq<Given>)
    requires Opens(src, gs)
    ensures Opens(src, all)
    ensures Ends(src, 5 * |all|) || exists why :: Faulty(src, 5 * |all|, why)
    decreases |src| - 5 * |gs|
  {
    hide ReadOption, Carries, Sendable, Length, Pointed, Unreadable;
    all := gs;
    var pos := 5 * |gs|;
    if pos + 5 > |src| {
      assert Ends(src, pos) || Faulty(src, pos, Eof);
    } else if src[pos] != TERMINATOR {
      var length, at, m := Length(src, pos), Pointed(src, pos), NewMessage(0, 0);
      var next := ReadOption(src[pos], length, at, m);
      if next.Ok? {
        var g := WhatIsRead(src[pos], length, at, m);
        all := ReadTable(src, gs + [g]);
      } else {
        UnreadableIs(src[pos], length, at, m, next.error);
        assert Faulty(src, pos, next.error);
      }
    }
  }

  /**
   * What decoding means, on every input. It succeeds exactly on a table of options, in any order and
   * with repetitions, that ends in a terminator, and gives the last value of each kind; it fails with
   * a reason exactly if such a table is spoiled, for that reason, before its terminator.
   */
  lemma DecodeMeans(src: bytes, m: Message, x: Message, why: Failure)
    ensures DecodeFrom(src, 0, m) == Ok(x) <==>
              exists gs :: Opens(src, gs) && Ends(src, 5 * |gs|) && x == GiveAll(gs, m)
    ensures DecodeFrom(src, 0, m) == Err(why) <==>
              exists gs :: Opens(src, gs) && Faulty(src, 5 * |gs|, why)
  {
    hide DecodeFrom, Ends, Faulty, GiveAll, Carries, Sendable, Token, Length, Pointed;
    forall gs | Opens(src, gs)
      ensures Ends(src, 5 * |gs|) ==> DecodeFrom(src, 0, m) == Ok(GiveAll(gs, m))
      ensures forall reason :: Faulty(src, 5 * |gs|, reason) ==> DecodeFrom(src, 0, m) == Err(reason)
    {
      DecodeOpening(src, gs, m);
      DecodeStops(src, 5 * |gs|, GiveAll(gs, m));
    }
    NothingOpened(src);
    var all := ReadTable(src, []);
  }

  lemma DecodeStops(src: bytes, pos: nat, m: Message)
    ensures Ends(src, pos) ==> DecodeFrom(src, pos, m) == Ok(m)
    ensures forall why :: Faulty(src, pos, why) ==> pos <= |src| && DecodeFrom(src, pos, m) == Err(why)
  {
    hide ReadOption, Length, Pointed;
    if pos + 5 <= |src| && src[pos] != TERMINATOR {
      DecodeEntry(src, pos, m);
      forall why ensures Faulty(src, pos, why) ==> DecodeFrom(src, pos, m) == Err(why) {
        UnreadableIs(src[pos], Length(src, pos), Pointed(src, pos), m, why);
      }
    }
  }

  /** What a peer does not mention keeps its default. */
  lemma DecodeNothing(version: u32, subBuild: u16)
    ensures DecodeFrom([0xFF], 0, NewMessage(version, subBuild)) ==
            Ok(Message(version, subBuild, NotSupported, None, 0, false, None, false, None))
  {
  }

  lemma NothingOpened(src: bytes)
    ensures Opens(src, [])
  {
  }

  // --------------------------------------------------------------------- round trip

  /** What survives the wire: no nonce is sent, strict mode arrives as `Required`, a name ends at a NUL. */
  function Received(m: Message): Message
  {
    m.(nonce := None,
       encryption := if m.encryption == Strict then Required else m.encryption,
       instanceName := if BeforeNul(NameOf(m)) == [] then None else Some(BeforeNul(NameOf(m))))
  }

  /** The options a message is sent as, in the order of the table. */
  function Sending(m: Message): seq<Given>
  {
    [ GivenVersion(m.version, m.subBuild),
      GivenEncryption(if m.encryption == Strict then Required else m.encryption),
      GivenInstance(BeforeNul(NameOf(m))),
      GivenThreadId(Some(m.threadId)),
      GivenMars(if m.mars then 1 else 0) ]
    + (if m.activityId.Some? then [GivenTrace(m.activityId.value)] else [])
    + (if m.fedAuthRequired then [GivenFedAuth(1)] else [])
  }

  lemma FieldIsGiven(m: Message, i: nat)
    requires i < |Fields(m)|
    ensures |Sending(m)| == |Fields(m)|
    ensures var g, f := Sending(m)[i], Fields(m)[i];
      Sendable(g) && f.token == Token(g) && Carried(g) <= f.data && (g.GivenThreadId? ==> |f.data| == |Carried(g)|)
  {
    hide BeBytes, LeBytes, BeforeNul, Reorder;
    BeforeNulIs(NameOf(m));
    BytesOf(m.version);
    BytesOf(m.threadId);
    BytesOf(m.subBuild);
    if m.activityId.Some? {
      BytesOf(m.activityId.value.sequence);
    }
  }

  /** The encoding is a table of those options. */
  lemma EncodingOpens(m: Message)
    requires FitsU16(m)
    ensures Opens(Encoding(m), Sending(m)) && Ends(Encoding(m), 5 * |Sending(m)|)
  {
    hide Fields, Encoding, Sending, Carried, Sendable, Token;
    var e, gs := Encoding(m), Sending(m);
    NotEmpty(m);
    TableTiles(m, 0);
    FieldIsGiven(m, 0);
    forall i | 0 <= i < |gs|
      ensures 5 * i + 5 <= |e| && Sendable(gs[i]) && e[5 * i] == Token(gs[i])
      ensures Carries(gs[i], Length(e, 5 * i), Pointed(e, 5 * i))
    {
      FieldIsGiven(m, i);
      EntryPoints(m, i);
    }
  }

  lemma NotEmpty(m: Message)
    ensures Fields(m) != []
  {
  }

  lemma EntryPoints(m: Message, i: nat)
    requires FitsU16(m) && i < |Fields(m)|
    ensures var e, f := Encoding(m), Fields(m)[i];
      5 * i + 5 <= |e| && e[5 * i] == f.token && Length(e, 5 * i) == |f.data| && f.data <= Pointed(e, 5 * i)
  {
    hide Fields, Encoding;
    TableTiles(m, i);
    var e, f := Encoding(m), Fields(m)[i];
    var entry := e[5 * i..5 * i + 5];
    assert entry[0] == e[5 * i] && entry[1] == e[5 * i + 1] && entry[2] == e[5 * i + 2]
        && entry[3] == e[5 * i + 3] && entry[4] == e[5 * i + 4];
    var from, to := Offset(Fields(m), i), Offset(Fields(m), i + 1);
    assert e[from..] == f.data + e[to..];
  }

  /** For every message, decoding what was encoded gives what survives the wire. */
  lemma DecodeEncoded(m: Message, version: u32, subBuild: u16)
    requires FitsU16(m)
    ensures DecodeFrom(Encoding(m), 0, NewMessage(version, subBuild)) == Ok(Received(m))
  {
    hide Encoding, DecodeFrom, Opens, Sending, Received;
    EncodingOpens(m);
    SendingGives(m, version, subBuild);
    DecodeOpening(Encoding(m), Sending(m), NewMessage(version, subBuild));
    DecodeStops(Encoding(m), 5 * |Sending(m)|, Received(m));
  }

  lemma SendingGives(m: Message, version: u32, subBuild: u16)
    ensures GiveAll(Sending(m), NewMessage(version, subBuild)) == Received(m)
  {
    hide BeforeNul, GiveAll;
    var gs, x := Sending(m), NewMessage(version, subBuild);
    GiveStep(gs, 0, x);
    GiveStep(gs, 1, x);
    GiveStep(gs, 2, x);
    GiveStep(gs, 3, x);
    GiveStep(gs, 4, x);
    if |gs| > 5 {
      GiveStep(gs, 5, x);
    }
    if |gs| > 6 {
      GiveStep(gs, 6, x);
    }
    assert gs[..|gs|] == gs && gs[..0] == [];
  }

  lemma GiveStep(gs: seq<Given>, i: nat, m: Message)
    requires i < |gs|
    ensures GiveAll(gs[..i + 1], m) == Give(gs[i], GiveAll(gs[..i], m)) && GiveAll([], m) == m
  {
    assert gs[..i + 1][..i] == gs[..i];
  }

  /** The round trip is exact for exactly the messages the wire can carry. */
  lemma RoundTripExact(m: Message, version: u32, subBuild: u16)
    requires FitsU16(m)
    ensures DecodeFrom(Encoding(m), 0, NewMessage(version, subBuild)) == Ok(m) <==>
              && m.nonce == None
              && m.encryption != Strict
              && (m.instanceName.Some? ==> m.instanceName.value != [] && 0 !in m.instanceName.value)
  {
    hide Encoding, DecodeFrom;
    DecodeEncoded(m, version, subBuild);
    BeforeNulIs(NameOf(m));
  }
}
