/** Reading values that span packets (src/sql_read_bytes.rs), and B_VARCHAR (src/tds/codec/encode.rs). */
module ReadBytes {
  import opened Bytes
  import opened Connections

  // ---------------------------------------------------------------- bulk reads

  /** Any byte source: each read delivers some of what is asked for, nothing only at the end, or fails. */
  class Reader {
    var data: bytes

    /** Some read has failed. */
    var failed: bool

    constructor (data: bytes)
      ensures this.data == data && !failed
    {
      this.data, failed := data, false;
    }

    method Read(size: nat) returns (r: PollBytes)
      requires size > 0
      modifies this
      ensures r.Bytes? ==> |r.data| <= size && old(data) == r.data + data
      ensures r.Bytes? && r.data == [] ==> data == []
      ensures !r.Bytes? ==> r == BytesError && data == old(data)
      ensures failed == (old(failed) || r.BytesError?)
    {
      if * {
        failed := true;
        return BytesError;
      }
      var most := if size < |data| then size else |data|;
      var n: nat :| n <= most && (n == 0 ==> most == 0);
      r := Bytes(data[..n]);
      data := data[n..];
    }
  }

  datatype ReadOutcome = Complete | EarlyEof | Failed

  function Zeros(n: nat): (r: bytes)
    ensures |r| == n
    ensures forall i :: 0 <= i < n ==> r[i] == 0
  {
    seq(n, _ => 0)
  }

  /**
   * `read_bytes_into`. `got` are the bytes taken from the source; `peak` is the largest reserved but
   * unfilled tail the buffer ever had.
   */
  method ReadBytesInto(src: Reader, dst: bytes, len: nat, cap: nat)
    returns (r: ReadOutcome, out: bytes, ghost got: bytes, ghost peak: nat)
    requires cap > 0
    modifies src
    ensures old(src.data) == got + src.data
    ensures r == Complete ==> |got| == len && out == dst + got
    ensures r == EarlyEof ==> |got| < len && src.data == [] && out == dst + got
    ensures r == Failed ==> |got| < len && |dst + got| <= |out| <= |dst + got| + cap
    ensures r == Failed ==> out == dst + got + Zeros(|out| - |dst + got|)
    ensures peak == if len < cap then len else cap
    ensures src.failed == (old(src.failed) || r == Failed)
  {
    hide Zeros;
    out, got, peak := dst, [], 0;
    var remaining := len;
    while remaining > 0
      invariant 0 <= remaining <= len && |got| == len - remaining
      invariant old(src.data) == got + src.data && out == dst + got
      invariant peak == (if remaining == len then 0 else if len < cap then len else cap) && src.failed == old(src.failed)
    {
      var want := if remaining < cap then remaining else cap;
      peak := if peak < want then want else peak;
      ghost var more, before := [], got;
      r, out, more := FillWindow(src, out, want);
      assert before + (more + src.data) == (before + more) + src.data;
      assert dst + (before + more) == dst + before + more;
      got := before + more;
      if r != Complete {
        return;
      }
      remaining := remaining - want;
    }
    r := Complete;
  }

  /** One window: reserve `want` bytes behind `dst` and read until they are filled. */
  method FillWindow(src: Reader, dst: bytes, want: nat) returns (r: ReadOutcome, out: bytes, ghost got: bytes)
    modifies src
    ensures old(src.data) == got + src.data && |got| <= want && src.failed == (old(src.failed) || r == Failed)
    ensures r == Complete ==> |got| == want && out == dst + got
    ensures r == EarlyEof ==> |got| < want && src.data == [] && out == dst + got
    ensures r == Failed ==> |got| < want && out == dst + got + Zeros(want - |got|)
  {
    hide Zeros;
    NoZeros();
    var start, end := |dst|, |dst| + want;
    out, got := dst + Zeros(want), [];
    var filled := start;
    while filled < end
      invariant start <= filled <= end == |out| && |got| == filled - start
      invariant old(src.data) == got + src.data && src.failed == old(src.failed)
      invariant out == dst + got + Zeros(end - filled)
      decreases end - filled
    {
      var piece := src.Read(end - filled);
      if piece.BytesError? {
        return Failed, out, got;
      }
      if piece.data == [] {
        out := out[..filled];
        return EarlyEof, out, got;
      }
      FillZeros(dst, got, piece.data, end - filled);
      out := out[..filled] + piece.data + out[filled + |piece.data|..];
      assert got + (piece.data + src.data) == (got + piece.data) + src.data;
      got := got + piece.data;
      filled := filled + |piece.data|;
    }
    r := Complete;
  }

  lemma NoZeros()
    ensures Zeros(0) == []
  {
  }

  lemma FillZeros(dst: bytes, got: bytes, piece: bytes, k: nat)
    requires |piece| <= k
    ensures var filled, out := |dst + got|, dst + got + Zeros(k);
      out[..filled] + piece + out[filled + |piece|..] == dst + (got + piece) + Zeros(k - |piece|)
  {
  }

  // ------------------------------------------------------------------- B_VARCHAR

  function Units(units: seq<u16>): (r: bytes)
    ensures |r| == 2 * |units|
  {
    if units == [] then [] else Units(units[..|units| - 1]) + [units[|units| - 1] % 0x100, units[|units| - 1] / 0x100]
  }

  /** The wire form: a count byte, then each unit low byte first. */
  function BVarchar(units: seq<u16>): bytes
    requires |units| <= 0xFF
  {
    [|units|] + Units(units)
  }

  /** `encode_b_varchar`, on the UTF-16 units of the string. */
  method EncodeBVarchar(dst: bytes, units: seq<u16>) returns (r: Option<bytes>)
    ensures r.None? <==> |units| > 0xFF
    ensures r.Some? ==> r.value == dst + BVarchar(units)
    ensures r.Some? ==> |r.value| == |dst| + 1 + 2 * |units| && r.value[|dst|] == |units|
    ensures r.Some? ==> forall i :: 0 <= i < |units| ==>
              var at := |dst| + 1 + 2 * i; units[i] == r.value[at] as int + 0x100 * r.value[at + 1] as int
  {
    if |units| > 0xFF {
      return None;
    }
    var out := dst + [|units|];
    assert units[..0] == [];
    for i := 0 to |units|
      invariant out == dst + [|units|] + Units(units[..i])
      invariant |out| == |dst| + 1 + 2 * i && out[|dst|] == |units|
      invariant forall j :: 0 <= j < i ==>
                  var at := |dst| + 1 + 2 * j; units[j] == out[at] as int + 0x100 * out[at + 1] as int
    {
      assert units[..i + 1][..i] == units[..i];
      out := out + [units[i] % 0x100, units[i] / 0x100];
    }
    assert units[..|units|] == units;
    assert dst + [|units|] + Units(units) == dst + BVarchar(units);
    r := Some(out);
  }

  /** Well-formed UTF-16: surrogates come in pairs, high before low. */
  predicate ValidUtf16(units: seq<u16>)
  {
    if units == [] then true
    else if 0xD800 <= units[0] < 0xDC00 then
      |units| > 1 && 0xDC00 <= units[1] < 0xE000 && ValidUtf16(units[2..])
    else !(0xDC00 <= units[0] < 0xE000) && ValidUtf16(units[1..])
  }

  // What that means: the text is the encoding of some code points.

  predicate IsScalar(c: nat)
  {
    c < 0xD800 || 0xE000 <= c < 0x11_0000
  }

  function Utf16(c: nat): (r: seq<u16>)
    requires IsScalar(c)
    ensures r != []
  {
    if c < 0x1_0000 then [c] else [0xD800 + (c - 0x1_0000) / 0x400, 0xDC00 + (c - 0x1_0000) % 0x400]
  }

  ghost predicate AllScalars(cs: seq<nat>)
  {
    forall i :: 0 <= i < |cs| ==> IsScalar(cs[i])
  }

  ghost function Utf16All(cs: seq<nat>): seq<u16>
    requires AllScalars(cs)
  {
    if cs == [] then [] else Utf16(cs[0]) + Utf16All(cs[1..])
  }

  /** Well-formed text is exactly the UTF-16 encoding of a sequence of Unicode scalar values. */
  lemma ValidIsEncoded(units: seq<u16>)
    ensures ValidUtf16(units) <==> exists cs :: AllScalars(cs) && units == Utf16All(cs)
  {
    if ValidUtf16(units) {
      var _ := CodePoints(units);
    }
    if exists cs :: AllScalars(cs) && units == Utf16All(cs) {
      var cs :| AllScalars(cs) && units == Utf16All(cs);
      EncodedIsValid(cs);
    }
  }

  lemma {:induction false} CodePoints(units: seq<u16>) returns (cs: seq<nat>)
    requires ValidUtf16(units)
    ensures AllScalars(cs) && units == Utf16All(cs)
  {
    cs := [];
    if units != [] {
      var pair := 0xD800 <= units[0] < 0xDC00;
      var c: nat := if pair then 0x1_0000 + 0x400 * (units[0] as int - 0xD800) + (units[1] as int - 0xDC00)
                    else units[0] as int;
      var rest := CodePoints(units[if pair then 2 else 1..]);
      cs := [c] + rest;
      assert cs[1..] == rest;
      assert units == Utf16(c) + units[if pair then 2 else 1..];
    }
  }

  lemma {:induction false} EncodedIsValid(cs: seq<nat>)
    requires AllScalars(cs)
    ensures ValidUtf16(Utf16All(cs))
  {
    if cs != [] {
      EncodedIsValid(cs[1..]);
      var first, rest := Utf16(cs[0]), Utf16All(cs[1..]);
      assert (first + rest)[|first|..] == rest;
    }
  }

  /**
   * One poll of a `bytes_reader!` future of `count` bytes, newly built: what it had read would be lost
   * with it, but the connection never hands it a part.
   */
  method PollInteger(conn: Connection, count: nat) returns (r: PollBytes)
    requires count > 0
    modifies conn`inbound, conn`readBuf, conn`flushed, conn`buf
    ensures r.Bytes? ==> |r.data| == count && old(conn.Stream()) == r.data + conn.Stream()
    ensures !r.Bytes? && !old(conn.Garbled()) ==> conn.Stream() == old(conn.Stream())
    ensures !r.BytesError? && !old(conn.Garbled()) ==> !conn.Garbled()
    ensures conn.steady ==>
              r.Bytes? == (count <= old(|conn.Stream()|))
              && (!r.Bytes? ==> r == if conn.closed || old(conn.Garbled()) then BytesError else NoBytes)
  {
    var read: bytes := [];
    while |read| < count
      invariant |read| in {0, count} && old(conn.Stream()) == read + conn.Stream()
      invariant read == [] ==> conn.Garbled() == old(conn.Garbled())
      invariant !old(conn.Garbled()) ==> !conn.Garbled()
      decreases count - |read|
    {
      assert read == [] ==> read + conn.Stream() == conn.Stream();
      var piece, _ := conn.PollRead(count - |read|);
      match piece {
        case NoBytes => return NoBytes;
        case BytesError => return BytesError;
        case Bytes(data) =>
          if data == [] {
            return BytesError;
          }
          assert read + data == data;
          read := read + data;
      }
    }
    r := Bytes(read);
  }

  /** A B_VARCHAR has arrived whole. */
  predicate WholeString(s: bytes)
  {
    s != [] && |s| >= 1 + 2 * s[0] as int
  }

  datatype PollString = StringPending | StringError | InvalidUtf16 | StringReady(units: seq<u16>)

  /** The `varchar_reader!` future with a one-byte length. */
  class VarcharReader {
    const conn: Connection
    var length: Option<nat>
    var units: seq<u16>

    constructor (conn: Connection)
      ensures this.conn == conn && Valid() && Seen() == []
    {
      this.conn := conn;
      length := None;
      units := [];
    }

    ghost predicate Valid()
      reads this
    {
      match length
      case None => units == []
      case Some(n) => |units| <= n <= 0xFF
    }

    /** The bytes this reader has taken off the stream. */
    ghost function Seen(): bytes
      requires Valid()
      reads this
    {
      if length.None? then [] else [length.value] + Units(units)
    }

    /** `poll`: across any number of pending answers no byte is lost or read twice. */
    method Poll() returns (r: PollString)
      requires Valid()
      modifies this`length, this`units, conn`inbound, conn`readBuf, conn`flushed, conn`buf
      ensures Valid()
      ensures !old(conn.Garbled()) ==> Seen() + conn.Stream() == old(Seen() + conn.Stream())
      ensures !old(conn.Garbled()) && r != StringError ==> !conn.Garbled()
      ensures r.StringReady? || r.InvalidUtf16? ==> length == Some(|units|)
      ensures r.StringReady? ==> r.units == units && ValidUtf16(units)
      ensures r == InvalidUtf16 ==> !ValidUtf16(units)
      ensures conn.steady && !old(conn.Garbled()) ==>
                if WholeString(old(Seen() + conn.Stream())) then r.StringReady? || r.InvalidUtf16?
                else r == if conn.closed then StringError else StringPending
    {
      hide Connection.Stream, Connection.Garbled, Units, ValidUtf16, WholeString;
      if length.None? {
        var n := PollLength();
        match n {
          case NoBytes => return StringPending;
          case BytesError => return StringError;
          case Bytes(_) =>
        }
      }
      while |units| < length.value
        invariant Valid() && length.Some?
        invariant !old(conn.Garbled()) ==> Seen() + conn.Stream() == old(Seen() + conn.Stream())
        invariant !old(conn.Garbled()) ==> !conn.Garbled()
        decreases length.value - |units|
      {
        var n := PollUnit();
        match n {
          case NoBytes => return StringPending;
          case BytesError => return StringError;
          case Bytes(_) =>
        }
      }
      StringSeen(units, conn.Stream());
      r := if ValidUtf16(units) then StringReady(units) else InvalidUtf16;
    }

    method PollLength() returns (r: PollBytes)
      requires Valid() && length.None?
      modifies this`length, this`units, conn`inbound, conn`readBuf, conn`flushed, conn`buf
      ensures Valid() && length.Some? == r.Bytes?
      ensures !old(conn.Garbled()) ==> Seen() + conn.Stream() == old(Seen() + conn.Stream())
      ensures !old(conn.Garbled()) && !r.BytesError? ==> !conn.Garbled()
      ensures conn.steady && !old(conn.Garbled()) && !r.Bytes? ==>
                !WholeString(old(Seen() + conn.Stream())) && r == if conn.closed then BytesError else NoBytes
    {
      hide Connection.Stream, Connection.Garbled, Units;
      NoUnits();
      r := PollInteger(conn, 1);
      if r.Bytes? {
        assert r.data == [r.data[0]] + Units([]);
        length, units := Some(r.data[0]), [];
      }
    }

    method PollUnit() returns (r: PollBytes)
      requires Valid() && length.Some? && |units| < length.value
      modifies this`units, conn`inbound, conn`readBuf, conn`flushed, conn`buf
      ensures Valid() && |units| == old(|units|) + (if r.Bytes? then 1 else 0)
      ensures !old(conn.Garbled()) ==> Seen() + conn.Stream() == old(Seen() + conn.Stream())
      ensures !old(conn.Garbled()) && !r.BytesError? ==> !conn.Garbled()
      ensures conn.steady && !old(conn.Garbled()) && !r.Bytes? ==>
                !WholeString(old(Seen() + conn.Stream())) && r == if conn.closed then BytesError else NoBytes
    {
      hide Connection.Stream, Connection.Garbled, Units;
      ghost var before, taken := Seen(), units;
      r := PollInteger(conn, 2);
      if r.Bytes? {
        UnitsAppend(taken, r.data);
        units := units + [r.data[0] as int + 0x100 * r.data[1] as int];
        assert Seen() == before + r.data;
        assert before + (r.data + conn.Stream()) == (before + r.data) + conn.Stream();
      }
    }
  }

  lemma StringSeen(units: seq<u16>, more: bytes)
    requires |units| <= 0xFF
    ensures WholeString([|units|] + Units(units) + more)
  {
  }

  lemma NoUnits()
    ensures Units([]) == []
  {
  }

  lemma UnitsAppend(units: seq<u16>, data: bytes)
    requires |data| == 2
    ensures Units(units + [data[0] as int + 0x100 * data[1] as int]) == Units(units) + data
  {
  }

  /** Two strings on the same stream are the same string: the wire form is a prefix code. */
  lemma {:induction false} UnitsInjective(a: seq<u16>, b: seq<u16>)
    requires |a| == |b| && Units(a) == Units(b)
    ensures a == b
  {
    if a != [] {
      var k := |a| - 1;
      assert Units(a)[..2 * k] == Units(a[..k]) && Units(b)[..2 * k] == Units(b[..k]);
      UnitsInjective(a[..k], b[..k]);
      assert Units(a)[2 * k] == a[k] % 0x100 && Units(a)[2 * k + 1] == a[k] / 0x100;
      assert Units(b)[2 * k] == b[k] % 0x100 && Units(b)[2 * k + 1] == b[k] / 0x100;
      assert a == a[..k] + [a[k]] && b == b[..k] + [b[k]];
    }
  }

  lemma BVarcharPrefixCode(a: seq<u16>, restA: bytes, b: seq<u16>, restB: bytes)
    requires |a| <= 0xFF && |b| <= 0xFF && BVarchar(a) + restA == BVarchar(b) + restB
    ensures a == b && restA == restB
  {
    var s, t := BVarchar(a) + restA, BVarchar(b) + restB;
    assert s[0] == |a| && t[0] == |b|;
    assert s[1..1 + 2 * |a|] == Units(a) && t[1..1 + 2 * |b|] == Units(b);
    UnitsInjective(a, b);
    assert s[1 + 2 * |a|..] == restA && t[1 + 2 * |b|..] == restB;
  }

  /**
   * The round trip: reading what `encode_b_varchar` wrote, with the stream pending anywhere and as
   * often as it likes, gives the string and leaves exactly what followed it.
   */
  method ReadBVarchar(conn: Connection, ghost text: seq<u16>, ghost rest: bytes, polls: nat) returns (r: PollString)
    requires |text| <= 0xFF && ValidUtf16(text)
    requires conn.Stream() == BVarchar(text) + rest && !conn.Garbled()
    modifies conn`inbound, conn`readBuf, conn`flushed, conn`buf
    ensures r != InvalidUtf16
    ensures r.StringReady? ==> r.units == text && conn.Stream() == rest
    ensures conn.steady && polls > 0 ==> r.StringReady?
  {
    hide Connection.Stream, Connection.Garbled, ValidUtf16, WholeString;
    StringSeen(text, rest);
    var reader := new VarcharReader(conn);
    r := StringPending;
    assert reader.Seen() + conn.Stream() == conn.Stream();
    for i := 0 to polls
      invariant reader.Valid() && reader.conn == conn && fresh(reader) && r == StringPending
      invariant conn.steady ==> i == 0
      invariant reader.Seen() + conn.Stream() == BVarchar(text) + rest && !conn.Garbled()
    {
      r := reader.Poll();
      if r.InvalidUtf16? || r.StringReady? {
        assert reader.Seen() == BVarchar(reader.units);
        BVarcharPrefixCode(reader.units, conn.Stream(), text, rest);
      }
      if r != StringPending {
        return;
      }
    }
  }
}
