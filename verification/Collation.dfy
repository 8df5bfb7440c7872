/** The single-byte code pages CP437 and CP850 (src/tds/collation.rs). */
module Collations {
  import opened Bytes

  /** A character, as its Unicode code point. */
  type CodePoint = n: int | 0 <= n < 0x11_0000

  const CP437_HIGH: seq<CodePoint> :=
    var r0 := [0xC7, 0xFC, 0xE9, 0xE2, 0xE4, 0xE0, 0xE5, 0xE7,
               0xEA, 0xEB, 0xE8, 0xEF, 0xEE, 0xEC, 0xC4, 0xC5];
    var r1 := [0xC9, 0xE6, 0xC6, 0xF4, 0xF6, 0xF2, 0xFB, 0xF9,
               0xFF, 0xD6, 0xDC, 0xA2, 0xA3, 0xA5, 0x20A7, 0x192];
    var r2 := [0xE1, 0xED, 0xF3, 0xFA, 0xF1, 0xD1, 0xAA, 0xBA,
               0xBF, 0x2310, 0xAC, 0xBD, 0xBC, 0xA1, 0xAB, 0xBB];
    var r3 := [0x2591, 0x2592, 0x2593, 0x2502, 0x2524, 0x2561, 0x2562, 0x2556,
               0x2555, 0x2563, 0x2551, 0x2557, 0x255D, 0x255C, 0x255B, 0x2510];
    var r4 := [0x2514, 0x2534, 0x252C, 0x251C, 0x2500, 0x253C, 0x255E, 0x255F,
               0x255A, 0x2554, 0x2569, 0x2566, 0x2560, 0x2550, 0x256C, 0x2567];
    var r5 := [0x2568, 0x2564, 0x2565, 0x2559, 0x2558, 0x2552, 0x2553, 0x256B,
               0x256A, 0x2518, 0x250C, 0x2588, 0x2584, 0x258C, 0x2590, 0x2580];
    var r6 := [0x3B1, 0xDF, 0x393, 0x3C0, 0x3A3, 0x3C3, 0xB5, 0x3C4,
               0x3A6, 0x398, 0x3A9, 0x3B4, 0x221E, 0x3C6, 0x3B5, 0x2229];
    var r7 := [0x2261, 0xB1, 0x2265, 0x2264, 0x2320, 0x2321, 0xF7, 0x2248,
               0xB0, 0x2219, 0xB7, 0x221A, 0x207F, 0xB2, 0x25A0, 0xA0];
    r0 + r1 + r2 + r3 + r4 + r5 + r6 + r7

  const CP850_HIGH: seq<CodePoint> :=
    var r0 := [0xC7, 0xFC, 0xE9, 0xE2, 0xE4, 0xE0, 0xE5, 0xE7,
               0xEA, 0xEB, 0xE8, 0xEF, 0xEE, 0xEC, 0xC4, 0xC5];
    var r1 := [0xC9, 0xE6, 0xC6, 0xF4, 0xF6, 0xF2, 0xFB, 0xF9,
               0xFF, 0xD6, 0xDC, 0xF8, 0xA3, 0xD8, 0xD7, 0x192];
    var r2 := [0xE1, 0xED, 0xF3, 0xFA, 0xF1, 0xD1, 0xAA, 0xBA,
               0xBF, 0xAE, 0xAC, 0xBD, 0xBC, 0xA1, 0xAB, 0xBB];
    var r3 := [0x2591, 0x2592, 0x2593, 0x2502, 0x2524, 0xC1, 0xC2, 0xC0,
               0xA9, 0x2563, 0x2551, 0x2557, 0x255D, 0xA2, 0xA5, 0x2510];
    var r4 := [0x2514, 0x2534, 0x252C, 0x251C, 0x2500, 0x253C, 0xE3, 0xC3,
               0x255A, 0x2554, 0x2569, 0x2566, 0x2560, 0x2550, 0x256C, 0xA4];
    var r5 := [0xF0, 0xD0, 0xCA, 0xCB, 0xC8, 0x131, 0xCD, 0xCE,
               0xCF, 0x2518, 0x250C, 0x2588, 0x2584, 0xA6, 0xCC, 0x2580];
    var r6 := [0xD3, 0xDF, 0xD4, 0xD2, 0xF5, 0xD5, 0xB5, 0xFE,
               0xDE, 0xDA, 0xDB, 0xD9, 0xFD, 0xDD, 0xAF, 0xB4];
    var r7 := [0xAD, 0xB1, 0x2017, 0xBE, 0xB6, 0xA7, 0xF7, 0xB8,
               0xB0, 0xA8, 0xB7, 0xB9, 0xB3, 0xB2, 0x25A0, 0xA0];
    r0 + r1 + r2 + r3 + r4 + r5 + r6 + r7

  // ------------------------------------------------------------------------- codec

  /** `decode_single_byte`. */
  function DecodeSingle(b: bytes, high: seq<CodePoint>): (r: seq<CodePoint>)
    requires |high| == 128
    ensures |r| == |b|
  {
    seq(|b|, i requires 0 <= i < |b| => if b[i] < 0x80 then b[i] else high[b[i] - 0x80])
  }

  /** The first place of a character in the table, counted from `from`. */
  function Position(c: CodePoint, high: seq<CodePoint>, from: nat): (r: Option<nat>)
    requires from <= |high|
    ensures r.Some? ==> from <= r.value < |high| && high[r.value] == c
    ensures r.None? ==> forall i :: from <= i < |high| ==> high[i] != c
    decreases |high| - from
  {
    if from == |high| then None
    else if high[from] == c then Some(from)
    else Position(c, high, from + 1)
  }

  /** The byte of one character. */
  function ByteOf(c: CodePoint, high: seq<CodePoint>): Option<u8>
    requires |high| == 128
  {
    if c < 0x80 then Some(c)
    else match Position(c, high, 0)
      case Some(k) => Some(k + 0x80)
      case None => None
  }

  function EncodeSpec(text: seq<CodePoint>, high: seq<CodePoint>): Option<bytes>
    requires |high| == 128
  {
    if text == [] then Some([])
    else
      var head, tail := ByteOf(text[0], high), EncodeSpec(text[1..], high);
      if head.Some? && tail.Some? then Some([head.value] + tail.value) else None
  }

  ghost function Behind(out: bytes, tail: Option<bytes>): Option<bytes>
  {
    if tail.Some? then Some(out + tail.value) else None
  }

  /** `encode_single_byte`: gives up at the first character the page lacks. */
  method EncodeSingle(text: seq<CodePoint>, high: seq<CodePoint>) returns (r: Option<bytes>)
    requires |high| == 128
    ensures r == EncodeSpec(text, high)
    ensures r.None? <==> exists i :: 0 <= i < |text| && ByteOf(text[i], high).None?
  {
    var out: bytes := [];
    assert EncodeSpec(text, high).Some? ==> [] + EncodeSpec(text, high).value == EncodeSpec(text, high).value;
    EncodeFails(text, high);
    for i := 0 to |text|
      invariant forall j :: 0 <= j < i ==> ByteOf(text[j], high).Some?
      invariant EncodeSpec(text, high) == Behind(out, EncodeSpec(text[i..], high))
    {
      var b := ByteOf(text[i], high);
      ghost var tail := EncodeSpec(text[i + 1..], high);
      assert b.Some? && tail.Some? ==> out + ([b.value] + tail.value) == (out + [b.value]) + tail.value;
      if b.None? {
        return None;
      }
      out := out + [b.value];
    }
    assert out + [] == out;
    r := Some(out);
  }

  lemma {:induction false} EncodeFails(text: seq<CodePoint>, high: seq<CodePoint>)
    requires |high| == 128
    ensures EncodeSpec(text, high).None? <==> exists i :: 0 <= i < |text| && ByteOf(text[i], high).None?
  {
    if text != [] {
      EncodeFails(text[1..], high);
    }
  }

  // -------------------------------------------------------------------- inverses

  ghost predicate Injective(high: seq<CodePoint>)
  {
    && |high| == 128
    && (forall i :: 0 <= i < 128 ==> high[i] >= 0x80)
    && (forall i, j :: 0 <= i < 128 && 0 <= j < 128 && high[i] == high[j] ==> i == j)
  }

  /** Whatever encodes decodes to the same text, for any table. */
  lemma {:induction false} DecodeAfterEncode(text: seq<CodePoint>, high: seq<CodePoint>)
    requires |high| == 128 && EncodeSpec(text, high).Some?
    ensures DecodeSingle(EncodeSpec(text, high).value, high) == text
  {
    if text != [] {
      DecodeAfterEncode(text[1..], high);
    }
  }

  /** Every byte string decodes to text that encodes to the same bytes. */
  lemma {:induction false} EncodeAfterDecode(b: bytes, high: seq<CodePoint>)
    requires Injective(high)
    ensures EncodeSpec(DecodeSingle(b, high), high) == Some(b)
  {
    if b != [] {
      EncodeAfterDecode(b[1..], high);
      var text := DecodeSingle(b, high);
      assert text[1..] == DecodeSingle(b[1..], high);
      assert [b[0]] + b[1..] == b;
    }
  }

  /** Both code pages are exact inverses, in both directions. */
  lemma CodePagesAreExact(b: bytes, text: seq<CodePoint>)
    ensures |CP437_HIGH| == 128 && |CP850_HIGH| == 128
    ensures EncodeSpec(DecodeSingle(b, CP437_HIGH), CP437_HIGH) == Some(b)
    ensures EncodeSpec(DecodeSingle(b, CP850_HIGH), CP850_HIGH) == Some(b)
    ensures EncodeSpec(text, CP437_HIGH).Some? ==> DecodeSingle(EncodeSpec(text, CP437_HIGH).value, CP437_HIGH) == text
    ensures EncodeSpec(text, CP850_HIGH).Some? ==> DecodeSingle(EncodeSpec(text, CP850_HIGH).value, CP850_HIGH) == text
  {
    Cp437IsInjective();
    Cp850IsInjective();
    PageIsExact(b, text, CP437_HIGH);
    PageIsExact(b, text, CP850_HIGH);
  }

  lemma PageIsExact(b: bytes, text: seq<CodePoint>, high: seq<CodePoint>)
    requires Injective(high)
    ensures EncodeSpec(DecodeSingle(b, high), high) == Some(b)
    ensures EncodeSpec(text, high).Some? ==> DecodeSingle(EncodeSpec(text, high).value, high) == text
  {
    EncodeAfterDecode(b, high);
    if EncodeSpec(text, high).Some? {
      DecodeAfterEncode(text, high);
    }
  }

  // --------------------------------------------------- the tables have no duplicates

  /** The place of a character in `CP437_HIGH`. */
  function Place437(c: CodePoint): int
  {
    match c
    case 0xC7 => 0 case 0xFC => 1 case 0xE9 => 2 case 0xE2 => 3 case 0xE4 => 4 case 0xE0 => 5 case 0xE5 => 6 case 0xE7 => 7
    case 0xEA => 8 case 0xEB => 9 case 0xE8 => 10 case 0xEF => 11 case 0xEE => 12 case 0xEC => 13 case 0xC4 => 14 case 0xC5 => 15
    case 0xC9 => 16 case 0xE6 => 17 case 0xC6 => 18 case 0xF4 => 19 case 0xF6 => 20 case 0xF2 => 21 case 0xFB => 22 case 0xF9 => 23
    case 0xFF => 24 case 0xD6 => 25 case 0xDC => 26 case 0xA2 => 27 case 0xA3 => 28 case 0xA5 => 29 case 0x20A7 => 30 case 0x192 => 31
    case 0xE1 => 32 case 0xED => 33 case 0xF3 => 34 case 0xFA => 35 case 0xF1 => 36 case 0xD1 => 37 case 0xAA => 38 case 0xBA => 39
    case 0xBF => 40 case 0x2310 => 41 case 0xAC => 42 case 0xBD => 43 case 0xBC => 44 case 0xA1 => 45 case 0xAB => 46 case 0xBB => 47
    case 0x2591 => 48 case 0x2592 => 49 case 0x2593 => 50 case 0x2502 => 51 case 0x2524 => 52 case 0x2561 => 53 case 0x2562 => 54 case 0x2556 => 55
    case 0x2555 => 56 case 0x2563 => 57 case 0x2551 => 58 case 0x2557 => 59 case 0x255D => 60 case 0x255C => 61 case 0x255B => 62 case 0x2510 => 63
    case 0x2514 => 64 case 0x2534 => 65 case 0x252C => 66 case 0x251C => 67 case 0x2500 => 68 case 0x253C => 69 case 0x255E => 70 case 0x255F => 71
    case 0x255A => 72 case 0x2554 => 73 case 0x2569 => 74 case 0x2566 => 75 case 0x2560 => 76 case 0x2550 => 77 case 0x256C => 78 case 0x2567 => 79
    case 0x2568 => 80 case 0x2564 => 81 case 0x2565 => 82 case 0x2559 => 83 case 0x2558 => 84 case 0x2552 => 85 case 0x2553 => 86 case 0x256B => 87
    case 0x256A => 88 case 0x2518 => 89 case 0x250C => 90 case 0x2588 => 91 case 0x2584 => 92 case 0x258C => 93 case 0x2590 => 94 case 0x2580 => 95
    case 0x3B1 => 96 case 0xDF => 97 case 0x393 => 98 case 0x3C0 => 99 case 0x3A3 => 100 case 0x3C3 => 101 case 0xB5 => 102 case 0x3C4 => 103
    case 0x3A6 => 104 case 0x398 => 105 case 0x3A9 => 106 case 0x3B4 => 107 case 0x221E => 108 case 0x3C6 => 109 case 0x3B5 => 110 case 0x2229 => 111
    case 0x2261 => 112 case 0xB1 => 113 case 0x2265 => 114 case 0x2264 => 115 case 0x2320 => 116 case 0x2321 => 117 case 0xF7 => 118 case 0x2248 => 119
    case 0xB0 => 120 case 0x2219 => 121 case 0xB7 => 122 case 0x221A => 123 case 0x207F => 124 case 0xB2 => 125 case 0x25A0 => 126 case 0xA0 => 127
    case _ => -1
  }

  lemma Cp437Row0(k: nat)
    requires 0 <= k < 16
    ensures |CP437_HIGH| == 128 && CP437_HIGH[k] >= 0x80 && Place437(CP437_HIGH[k]) == k
  {
  }

  lemma Cp437Row1(k: nat)
    requires 16 <= k < 32
    ensures |CP437_HIGH| == 128 && CP437_HIGH[k] >= 0x80 && Place437(CP437_HIGH[k]) == k
  {
  }

  lemma Cp437Row2(k: nat)
    requires 32 <= k < 48
    ensures |CP437_HIGH| == 128 && CP437_HIGH[k] >= 0x80 && Place437(CP437_HIGH[k]) == k
  {
  }

  lemma Cp437Row3(k: nat)
    requires 48 <= k < 64
    ensures |CP437_HIGH| == 128 && CP437_HIGH[k] >= 0x80 && Place437(CP437_HIGH[k]) == k
  {
  }

  lemma Cp437Row4(k: nat)
    requires 64 <= k < 80
    ensures |CP437_HIGH| == 128 && CP437_HIGH[k] >= 0x80 && Place437(CP437_HIGH[k]) == k
  {
  }

  lemma Cp437Row5(k: nat)
    requires 80 <= k < 96
    ensures |CP437_HIGH| == 128 && CP437_HIGH[k] >= 0x80 && Place437(CP437_HIGH[k]) == k
  {
  }

  lemma Cp437Row6(k: nat)
    requires 96 <= k < 112
    ensures |CP437_HIGH| == 128 && CP437_HIGH[k] >= 0x80 && Place437(CP437_HIGH[k]) == k
  {
  }

  lemma Cp437Row7(k: nat)
    requires 112 <= k < 128
    ensures |CP437_HIGH| == 128 && CP437_HIGH[k] >= 0x80 && Place437(CP437_HIGH[k]) == k
  {
  }

  lemma Cp437IsInjective()
    ensures Injective(CP437_HIGH)
  {
    hide Place437;
    Cp437Row0(0);
    forall k | 0 <= k < 128
      ensures CP437_HIGH[k] >= 0x80 && Place437(CP437_HIGH[k]) == k
    {
      if k < 16 {
        Cp437Row0(k);
      } else if k < 32 {
        Cp437Row1(k);
      } else if k < 48 {
        Cp437Row2(k);
      } else if k < 64 {
        Cp437Row3(k);
      } else if k < 80 {
        Cp437Row4(k);
      } else if k < 96 {
        Cp437Row5(k);
      } else if k < 112 {
        Cp437Row6(k);
      } else {
        Cp437Row7(k);
      }
    }
  }

  /** The place of a character in `CP850_HIGH`. */
  function Place850(c: CodePoint): int
  {
    match c
    case 0xC7 => 0 case 0xFC => 1 case 0xE9 => 2 case 0xE2 => 3 case 0xE4 => 4 case 0xE0 => 5 case 0xE5 => 6 case 0xE7 => 7
    case 0xEA => 8 case 0xEB => 9 case 0xE8 => 10 case 0xEF => 11 case 0xEE => 12 case 0xEC => 13 case 0xC4 => 14 case 0xC5 => 15
    case 0xC9 => 16 case 0xE6 => 17 case 0xC6 => 18 case 0xF4 => 19 case 0xF6 => 20 case 0xF2 => 21 case 0xFB => 22 case 0xF9 => 23
    case 0xFF => 24 case 0xD6 => 25 case 0xDC => 26 case 0xF8 => 27 case 0xA3 => 28 case 0xD8 => 29 case 0xD7 => 30 case 0x192 => 31
    case 0xE1 => 32 case 0xED => 33 case 0xF3 => 34 case 0xFA => 35 case 0xF1 => 36 case 0xD1 => 37 case 0xAA => 38 case 0xBA => 39
    case 0xBF => 40 case 0xAE => 41 case 0xAC => 42 case 0xBD => 43 case 0xBC => 44 case 0xA1 => 45 case 0xAB => 46 case 0xBB => 47
    case 0x2591 => 48 case 0x2592 => 49 case 0x2593 => 50 case 0x2502 => 51 case 0x2524 => 52 case 0xC1 => 53 case 0xC2 => 54 case 0xC0 => 55
    case 0xA9 => 56 case 0x2563 => 57 case 0x2551 => 58 case 0x2557 => 59 case 0x255D => 60 case 0xA2 => 61 case 0xA5 => 62 case 0x2510 => 63
    case 0x2514 => 64 case 0x2534 => 65 case 0x252C => 66 case 0x251C => 67 case 0x2500 => 68 case 0x253C => 69 case 0xE3 => 70 case 0xC3 => 71
    case 0x255A => 72 case 0x2554 => 73 case 0x2569 => 74 case 0x2566 => 75 case 0x2560 => 76 case 0x2550 => 77 case 0x256C => 78 case 0xA4 => 79
    case 0xF0 => 80 case 0xD0 => 81 case 0xCA => 82 case 0xCB => 83 case 0xC8 => 84 case 0x131 => 85 case 0xCD => 86 case 0xCE => 87
    case 0xCF => 88 case 0x2518 => 89 case 0x250C => 90 case 0x2588 => 91 case 0x2584 => 92 case 0xA6 => 93 case 0xCC => 94 case 0x2580 => 95
    case 0xD3 => 96 case 0xDF => 97 case 0xD4 => 98 case 0xD2 => 99 case 0xF5 => 100 case 0xD5 => 101 case 0xB5 => 102 case 0xFE => 103
    case 0xDE => 104 case 0xDA => 105 case 0xDB => 106 case 0xD9 => 107 case 0xFD => 108 case 0xDD => 109 case 0xAF => 110 case 0xB4 => 111
    case 0xAD => 112 case 0xB1 => 113 case 0x2017 => 114 case 0xBE => 115 case 0xB6 => 116 case 0xA7 => 117 case 0xF7 => 118 case 0xB8 => 119
    case 0xB0 => 120 case 0xA8 => 121 case 0xB7 => 122 case 0xB9 => 123 case 0xB3 => 124 case 0xB2 => 125 case 0x25A0 => 126 case 0xA0 => 127
    case _ => -1
  }

  lemma Cp850Row0(k: nat)
    requires 0 <= k < 16
    ensures |CP850_HIGH| == 128 && CP850_HIGH[k] >= 0x80 && Place850(CP850_HIGH[k]) == k
  {
  }

  lemma Cp850Row1(k: nat)
    requires 16 <= k < 32
    ensures |CP850_HIGH| == 128 && CP850_HIGH[k] >= 0x80 && Place850(CP850_HIGH[k]) == k
  {
  }

  lemma Cp850Row2(k: nat)
    requires 32 <= k < 48
    ensures |CP850_HIGH| == 128 && CP850_HIGH[k] >= 0x80 && Place850(CP850_HIGH[k]) == k
  {
  }

  lemma Cp850Row3(k: nat)
    requires 48 <= k < 64
    ensures |CP850_HIGH| == 128 && CP850_HIGH[k] >= 0x80 && Place850(CP850_HIGH[k]) == k
  {
  }

  lemma Cp850Row4(k: nat)
    requires 64 <= k < 80
    ensures |CP850_HIGH| == 128 && CP850_HIGH[k] >= 0x80 && Place850(CP850_HIGH[k]) == k
  {
  }

  lemma Cp850Row5(k: nat)
    requires 80 <= k < 96
    ensures |CP850_HIGH| == 128 && CP850_HIGH[k] >= 0x80 && Place850(CP850_HIGH[k]) == k
  {
  }

  lemma Cp850Row6(k: nat)
    requires 96 <= k < 112
    ensures |CP850_HIGH| == 128 && CP850_HIGH[k] >= 0x80 && Place850(CP850_HIGH[k]) == k
  {
  }

  lemma Cp850Row7(k: nat)
    requires 112 <= k < 128
    ensures |CP850_HIGH| == 128 && CP850_HIGH[k] >= 0x80 && Place850(CP850_HIGH[k]) == k
  {
  }

  lemma Cp850IsInjective()
    ensures Injective(CP850_HIGH)
  {
    hide Place850;
    Cp850Row0(0);
    forall k | 0 <= k < 128
      ensures CP850_HIGH[k] >= 0x80 && Place850(CP850_HIGH[k]) == k
    {
      if k < 16 {
        Cp850Row0(k);
      } else if k < 32 {
        Cp850Row1(k);
      } else if k < 48 {
        Cp850Row2(k);
      } else if k < 64 {
        Cp850Row3(k);
      } else if k < 80 {
        Cp850Row4(k);
      } else if k < 96 {
        Cp850Row5(k);
      } else if k < 112 {
        Cp850Row6(k);
      } else {
        Cp850Row7(k);
      }
    }
  }
}
