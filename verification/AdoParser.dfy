/** The ADO.NET connection-string tokenizer (src/client/config/ado_parser.rs). */
module AdoParser {
  import opened Bytes
  import opened Quoting

  datatype Reason =
    | NonAscii
    | MissingEquals
    | EmptyKey
    | UnclosedSingleQuote
    | UnclosedDoubleQuote
    | UnclosedBrace
    | JunkAfterQuote
    | JunkAfterBrace

  datatype ParseResult = Parsed(pairs: map<string, string>) | Refused(reason: Reason)

  predicate IsAscii(s: string)
  {
    forall i :: 0 <= i < |s| ==> s[i] as int < 128
  }

  /** `is_ascii_whitespace`: the vertical tab is not among them. */
  predicate IsSpace(c: char)
  {
    c == ' ' || c == '\t' || c == '\n' || c == '\r' || c as int == 0x0C
  }

  function TrimStart(s: string): string
  {
    if s != "" && IsSpace(s[0]) then TrimStart(s[1..]) else s
  }

  function TrimEnd(s: string): string
  {
    if s != "" && IsSpace(s[|s| - 1]) then TrimEnd(s[..|s| - 1]) else s
  }

  function LowerChar(c: char): char
  {
    if 'A' <= c <= 'Z' then (c as int + 32) as char else c
  }

  function Lower(s: string): (r: string)
    ensures |r| == |s|
  {
    seq(|s|, i requires 0 <= i < |s| => LowerChar(s[i]))
  }

  /** What becomes of the raw text before the separating `=`. */
  function KeyOf(raw: string): string
  {
    Lower(TrimEnd(TrimStart(raw)))
  }

  // ------------------------------------------------------- reading, on what is left

  function SkipSeparators(s: string): (r: string)
    ensures |r| <= |s| && (r != "" ==> r[0] != ';' && !IsSpace(r[0]))
  {
    if s != "" && (s[0] == ';' || IsSpace(s[0])) then SkipSeparators(s[1..]) else s
  }

  function ReadKey(s: string, acc: string): (r: Token)
    ensures r.Token? ==> |r.rest| < |s|
    decreases |s|
  {
    if s == "" || s[0] == ';' then NoToken
    else if s[0] == '=' then
      if |s| > 1 && s[1] == '=' then ReadKey(s[2..], acc + "=") else Token(acc, s[1..])
    else ReadKey(s[1..], acc + [s[0]])
  }

  function ReadBraced(s: string, acc: string): (r: Token)
    ensures r.Token? ==> |r.rest| < |s|
    decreases |s|
  {
    if s == "" then NoToken
    else if s[0] == '}' then Token(acc, s[1..])
    else ReadBraced(s[1..], acc + [s[0]])
  }

  function ReadPlain(s: string, acc: string): (r: Token)
    ensures r.Token? && |r.rest| <= |s|
    decreases |s|
  {
    if s == "" || s[0] == ';' then Token(acc, s) else ReadPlain(s[1..], acc + [s[0]])
  }

  function SkipTrailing(s: string): (r: Option<string>)
    ensures r.Some? ==> |r.value| <= |s|
  {
    if s == "" || s[0] == ';' then Some(s)
    else if IsSpace(s[0]) then SkipTrailing(s[1..])
    else None
  }

  datatype ValueRead = ValueRead(value: string, rest: string) | BadValue(reason: Reason)

  function Closed(t: Token, unclosed: Reason, junk: Reason): ValueRead
  {
    if t.NoToken? then BadValue(unclosed)
    else if SkipTrailing(t.rest).None? then BadValue(junk)
    else ValueRead(t.text, SkipTrailing(t.rest).value)
  }

  /** A value in one of its four forms, after the blanks that may precede it. */
  function ReadValue(s: string): (r: ValueRead)
    ensures r.ValueRead? ==> |r.rest| <= |s|
  {
    var v := TrimStart(s);
    TrimStartShorter(s);
    if v != "" && v[0] == '\'' then Closed(ReadQuoted(v[1..], '\'', ""), UnclosedSingleQuote, JunkAfterQuote)
    else if v != "" && v[0] == '"' then Closed(ReadQuoted(v[1..], '"', ""), UnclosedDoubleQuote, JunkAfterQuote)
    else if v != "" && v[0] == '{' then Closed(ReadBraced(v[1..], ""), UnclosedBrace, JunkAfterBrace)
    else var t := ReadPlain(v, ""); ValueRead(TrimEnd(t.text), t.rest)
  }

  lemma TrimStartShorter(s: string)
    ensures |TrimStart(s)| <= |s|
  {
  }

  function ReadPairs(s: string, pairs: map<string, string>): ParseResult
    decreases |s|
  {
    var start := SkipSeparators(s);
    if start == "" then Parsed(pairs)
    else
      var key := ReadKey(start, "");
      if key.NoToken? then Refused(MissingEquals)
      else if KeyOf(key.text) == "" then Refused(EmptyKey)
      else
        match ReadValue(key.rest)
        case BadValue(reason) => Refused(reason)
        case ValueRead(value, rest) =>
          ReadPairs(if rest != "" && rest[0] == ';' then rest[1..] else rest, pairs[KeyOf(key.text) := value])
  }

  function ParseSpec(input: string): ParseResult
  {
    if IsAscii(input) then ReadPairs(input, map[]) else Refused(NonAscii)
  }

  // -------------------------------------------------------------------- the parser

  /** `skip_trailing`, moving the index. */
  method SkipTrailingAt(b: string, i: nat) returns (ok: bool, j: nat)
    requires i <= |b|
    ensures i <= j <= |b|
    ensures ok <==> SkipTrailing(b[i..]).Some?
    ensures ok ==> SkipTrailing(b[i..]) == Some(b[j..])
  {
    j := i;
    while j < |b| && b[j] != ';'
      invariant i <= j <= |b| && SkipTrailing(b[j..]) == SkipTrailing(b[i..])
    {
      if !IsSpace(b[j]) {
        return false, j;
      }
      j := j + 1;
    }
    ok := true;
  }

  /** The loop over a quoted value, entered behind the opening quote. */
  method QuotedAt(b: string, i: nat, quote: char) returns (ok: bool, v: string, j: nat)
    requires i <= |b|
    ensures i <= j <= |b|
    ensures ReadQuoted(b[i..], quote, "") == if ok then Token(v, b[j..]) else NoToken
  {
    v, j := "", i;
    while true
      invariant i <= j <= |b| && ReadQuoted(b[j..], quote, v) == ReadQuoted(b[i..], quote, "")
      decreases |b| - j
    {
      if j >= |b| {
        return false, v, j;
      }
      if b[j] == quote {
        if j + 1 < |b| && b[j + 1] == quote {
          v, j := v + [quote], j + 2;
          continue;
        }
        return true, v, j + 1;
      }
      v, j := v + [b[j]], j + 1;
    }
  }

  method BracedAt(b: string, i: nat) returns (ok: bool, v: string, j: nat)
    requires i <= |b|
    ensures i <= j <= |b|
    ensures ReadBraced(b[i..], "") == if ok then Token(v, b[j..]) else NoToken
  {
    v, j := "", i;
    while true
      invariant i <= j <= |b| && ReadBraced(b[j..], v) == ReadBraced(b[i..], "")
      decreases |b| - j
    {
      if j >= |b| {
        return false, v, j;
      }
      if b[j] == '}' {
        return true, v, j + 1;
      }
      v, j := v + [b[j]], j + 1;
    }
  }

  method KeyAt(b: string, i: nat) returns (ok: bool, key: string, j: nat)
    requires i <= |b|
    ensures i <= j <= |b|
    ensures ReadKey(b[i..], "") == if ok then Token(key, b[j..]) else NoToken
  {
    key, j := "", i;
    while true
      invariant i <= j <= |b| && ReadKey(b[j..], key) == ReadKey(b[i..], "")
      decreases |b| - j
    {
      if j >= |b| || b[j] == ';' {
        return false, key, j;
      }
      if b[j] == '=' {
        if j + 1 < |b| && b[j + 1] == '=' {
          key, j := key + "=", j + 2;
          continue;
        }
        return true, key, j + 1;
      }
      key, j := key + [b[j]], j + 1;
    }
  }

  /** The value branch of `parse`, behind the blanks that may precede a value. */
  method ValueHere(b: string, start: nat) returns (r: ValueRead, i: nat)
    requires start <= |b| && TrimStart(b[start..]) == b[start..]
    ensures start <= i <= |b|
    ensures r == ReadValue(b[start..])
    ensures r.ValueRead? ==> r.rest == b[i..]
  {
    hide ReadQuoted, ReadBraced, SkipTrailing, TrimEnd, TrimStart;
    i := start;
    if i < |b| && (b[i] == '\'' || b[i] == '"') {
      var quote := b[i];
      var ok, v, j := QuotedAt(b, i + 1, quote);
      i := j;
      if !ok {
        return BadValue(if quote == '\'' then UnclosedSingleQuote else UnclosedDoubleQuote), i;
      }
      ok, i := SkipTrailingAt(b, i);
      r := if ok then ValueRead(v, b[i..]) else BadValue(JunkAfterQuote);
    } else if i < |b| && b[i] == '{' {
      var ok, v, j := BracedAt(b, i + 1);
      i := j;
      if !ok {
        return BadValue(UnclosedBrace), i;
      }
      ok, i := SkipTrailingAt(b, i);
      r := if ok then ValueRead(v, b[i..]) else BadValue(JunkAfterBrace);
    } else {
      i := PlainAt(b, start);
      r := ValueRead(TrimEnd(b[start..i]), b[i..]);
    }
  }

  method PlainAt(b: string, start: nat) returns (i: nat)
    requires start <= |b|
    ensures start <= i <= |b|
    ensures ReadPlain(b[start..], "") == Token(b[start..i], b[i..])
  {
    i := start;
    assert b[start..i] == "";
    while i < |b| && b[i] != ';'
      invariant start <= i <= |b| && ReadPlain(b[i..], b[start..i]) == ReadPlain(b[start..], "")
    {
      assert b[start..i] + [b[i]] == b[start..i + 1];
      i := i + 1;
    }
  }

  method ValueAt(b: string, start: nat) returns (r: ValueRead, i: nat)
    requires start <= |b|
    ensures start <= i <= |b|
    ensures r == ReadValue(b[start..])
    ensures r.ValueRead? ==> r.rest == b[i..]
  {
    i := start;
    while i < |b| && IsSpace(b[i])
      invariant start <= i <= |b| && TrimStart(b[i..]) == TrimStart(b[start..])
    {
      i := i + 1;
    }
    r, i := ValueHere(b, i);
  }

  /** The separators and blanks before a key. */
  method SkipSeparatorsAt(b: string, start: nat) returns (i: nat)
    requires start <= |b|
    ensures start <= i <= |b| && SkipSeparators(b[start..]) == b[i..]
  {
    i := start;
    while i < |b| && (b[i] == ';' || IsSpace(b[i]))
      invariant start <= i <= |b| && SkipSeparators(b[i..]) == SkipSeparators(b[start..])
    {
      i := i + 1;
    }
  }

  /** `parse`. Every index is in range and every loop ends, on every input. */
  method Parse(input: string) returns (r: ParseResult)
    ensures r == ParseSpec(input)
  {
    hide ReadKey, ReadValue, KeyOf, SkipSeparators;
    if !IsAscii(input) {
      return Refused(NonAscii);
    }
    var b := input;
    var i := 0;
    var pairs := map[];
    assert b[0..] == b;
    while i < |b|
      invariant 0 <= i <= |b| && ReadPairs(b[i..], pairs) == ReadPairs(b, map[])
    {
      i := SkipSeparatorsAt(b, i);
      if i >= |b| {
        return Parsed(pairs);
      }
      var ok, raw, j := KeyAt(b, i);
      if !ok {
        return Refused(MissingEquals);
      }
      var key := KeyOf(raw);
      if key == "" {
        return Refused(EmptyKey);
      }
      var value;
      value, i := ValueAt(b, j);
      if value.BadValue? {
        return Refused(value.reason);
      }
      pairs := pairs[key := value.value];
      if i < |b| && b[i] == ';' {
        i := i + 1;
      }
    }
    r := Parsed(pairs);
  }

  // ------------------------------------------------------------- the printed form

  datatype Style = DoubleQuoted | SingleQuoted | Braced | Plain

  datatype Pair = Pair(key: string, value: string, style: Style)

  function PrintValue(v: string, style: Style): string
  {
    match style
    case DoubleQuoted => "\"" + Doubled(v, '"') + "\""
    case SingleQuoted => "'" + Doubled(v, '\'') + "'"
    case Braced => "{" + v + "}"
    case Plain => v
  }

  /** Tab, line feed, form feed, carriage return, space. */
  predicate Blank(c: char)
  {
    c as int in {9, 10, 12, 13, 32}
  }

  /** Which values a form can carry. */
  predicate Fits(v: string, style: Style)
  {
    match style
    case Braced => '}' !in v
    case Plain => ';' !in v && (v != "" ==> !Blank(v[0]) && !Blank(v[|v| - 1]) && v[0] !in {'\'', '"', '{'})
    case _ => true
  }

  /** A plain value that starts with `=` would join the key if it followed the separator at once. */
  predicate Joins(v: string, style: Style)
  {
    style == Plain && v != "" && v[0] == '='
  }

  predicate CanonicalKey(k: string)
  {
    && k != "" && IsAscii(k) && ';' !in k && !Blank(k[0]) && !Blank(k[|k| - 1])
    && forall i :: 0 <= i < |k| ==> !('A' <= k[i] <= 'Z')
  }

  predicate Printable(p: Pair)
  {
    CanonicalKey(p.key) && IsAscii(p.value) && Fits(p.value, p.style) && !Joins(p.value, p.style)
  }

  function Print(ps: seq<Pair>): string
  {
    if ps == [] then ""
    else Doubled(ps[0].key, '=') + "=" + PrintValue(ps[0].value, ps[0].style) + ";" + Print(ps[1..])
  }

  function LastWins(ps: seq<Pair>, pairs: map<string, string>): map<string, string>
  {
    if ps == [] then pairs else LastWins(ps[1..], pairs[ps[0].key := ps[0].value])
  }

  lemma {:induction false} ReadKeyDoubled(k: string, rest: string, acc: string)
    requires ';' !in k && (rest == "" || rest[0] != '=')
    ensures ReadKey(Doubled(k, '=') + "=" + rest, acc) == Token(acc + k, rest)
  {
    var s := Doubled(k, '=') + "=" + rest;
    if k == "" {
      assert s[1..] == rest && acc + k == acc;
    } else {
      var tail := Doubled(k[1..], '=') + "=" + rest;
      assert s == (if k[0] == '=' then "==" else [k[0]]) + tail;
      assert if k[0] == '=' then s[2..] == tail else s[1..] == tail;
      assert acc + [k[0]] + k[1..] == acc + k;
      ReadKeyDoubled(k[1..], rest, acc + [k[0]]);
    }
  }

  lemma {:induction false} ReadBracedPrinted(v: string, rest: string, acc: string)
    requires '}' !in v
    ensures ReadBraced(v + "}" + rest, acc) == Token(acc + v, rest)
  {
    var s := v + "}" + rest;
    if v == "" {
    } else {
      assert s[1..] == v[1..] + "}" + rest;
      ReadBracedPrinted(v[1..], rest, acc + [v[0]]);
    }
  }

  lemma {:induction false} ReadPlainPrinted(v: string, rest: string, acc: string)
    requires ';' !in v && AtEnd(rest)
    ensures ReadPlain(v + rest, acc) == Token(acc + v, rest)
  {
    if v == "" {
      assert v + rest == rest && acc + v == acc;
    } else {
      assert acc + [v[0]] + v[1..] == acc + v;
      assert (v + rest)[1..] == v[1..] + rest;
      ReadPlainPrinted(v[1..], rest, acc + [v[0]]);
    }
  }

  /** A value ends where the string ends or at a `;`. */
  predicate AtEnd(s: string)
  {
    s == "" || s[0] == ';'
  }

  lemma QuotedPrinted(v: string, quote: char, more: string, rest: string)
    requires quote in {'"', '\''} && SkipTrailing(more) == Some(rest)
    ensures ReadValue([quote] + Doubled(v, quote) + [quote] + more) == ValueRead(v, rest)
  {
    hide ReadQuoted, Doubled;
    var s := [quote] + Doubled(v, quote) + [quote] + more;
    assert TrimStart(s) == s;
    assert s[1..] == Doubled(v, quote) + [quote] + more;
    ReadQuotedDoubled(v, quote, more, "");
    assert "" + v == v;
  }

  lemma BracedPrinted(v: string, more: string, rest: string)
    requires Fits(v, Braced) && SkipTrailing(more) == Some(rest)
    ensures ReadValue("{" + v + "}" + more) == ValueRead(v, rest)
  {
    hide ReadBraced, SkipTrailing;
    var s := "{" + v + "}" + more;
    assert TrimStart(s) == s;
    assert s[1..] == v + "}" + more;
    ReadBracedPrinted(v, more, "");
    assert "" + v == v;
  }

  lemma PlainPrinted(v: string, behind: string, rest: string)
    requires Fits(v, Plain) && v != "" && AllBlank(behind) && AtEnd(rest)
    ensures ReadValue(v + (behind + rest)) == ValueRead(v, rest)
  {
    hide ReadPlain, TrimEnd;
    var s := v + (behind + rest);
    assert s == (v + behind) + rest && s[0] == v[0];
    assert TrimStart(s) == s;
    ReadPlainPrinted(v + behind, rest, "");
    assert "" + (v + behind) == v + behind;
    TrimBehind(v, behind);
  }

  ghost predicate AllBlank(s: string)
  {
    forall i :: 0 <= i < |s| ==> Blank(s[i])
  }

  ghost predicate AllSeparators(s: string)
  {
    forall i :: 0 <= i < |s| ==> s[i] == ';' || Blank(s[i])
  }

  lemma {:induction false} TrimBehind(v: string, behind: string)
    requires v != "" && !Blank(v[|v| - 1]) && AllBlank(behind)
    ensures TrimEnd(v + behind) == v
  {
    var s := v + behind;
    if behind == "" {
      assert s == v;
    } else {
      var k := |behind| - 1;
      assert s[|s| - 1] == behind[k] && s[..|s| - 1] == v + behind[..k];
      TrimBehind(v, behind[..k]);
    }
  }

  lemma {:induction false} TrimBefore(before: string, s: string)
    requires AllBlank(before)
    ensures TrimStart(before + s) == TrimStart(s)
  {
    if before == "" {
      assert before + s == s;
    } else {
      assert (before + s)[1..] == before[1..] + s;
      TrimBefore(before[1..], s);
    }
  }

  lemma {:induction false} SkipBlanks(behind: string, rest: string)
    requires AllBlank(behind) && AtEnd(rest)
    ensures SkipTrailing(behind + rest) == Some(rest) && TrimStart(behind + rest) == rest
  {
    if behind == "" {
      assert behind + rest == rest;
    } else {
      assert (behind + rest)[1..] == behind[1..] + rest;
      SkipBlanks(behind[1..], rest);
    }
  }

  lemma {:induction false} SkipRun(run: string, s: string)
    requires AllSeparators(run)
    ensures SkipSeparators(run + s) == SkipSeparators(s)
  {
    if run == "" {
      assert run + s == s;
    } else {
      assert (run + s)[1..] == run[1..] + s;
      SkipRun(run[1..], s);
    }
  }

  /** Each of the four forms, with blanks around it, is read back as the value it was printed from. */
  lemma ReadValuePrinted(v: string, style: Style, before: string, behind: string, rest: string)
    requires Fits(v, style) && AllBlank(before) && AllBlank(behind) && AtEnd(rest)
    ensures ReadValue(before + (PrintValue(v, style) + (behind + rest))) == ValueRead(v, rest)
  {
    hide ReadValue;
    var more := behind + rest;
    TrimmedFirst(before, PrintValue(v, style) + more);
    SkipBlanks(behind, rest);
    match style
    case DoubleQuoted => QuotedPrinted(v, '"', more, rest);
    case SingleQuoted => QuotedPrinted(v, '\'', more, rest);
    case Braced => BracedPrinted(v, more, rest);
    case Plain =>
      if v == "" {
        assert v + more == more;
        NothingPrinted(behind, rest);
      } else {
        PlainPrinted(v, behind, rest);
      }
  }

  lemma TrimmedFirst(before: string, s: string)
    requires AllBlank(before)
    ensures ReadValue(before + s) == ReadValue(s)
  {
    hide ReadQuoted, ReadBraced, ReadPlain, TrimStart, TrimEnd;
    TrimBefore(before, s);
  }

  lemma NothingPrinted(behind: string, rest: string)
    requires AllBlank(behind) && AtEnd(rest)
    ensures ReadValue(behind + rest) == ValueRead("", rest)
  {
    SkipBlanks(behind, rest);
  }

  // ----------------------------------------------------------------- other spellings

  const CAPITALS := "ABCDEFGHIJKLMNOPQRSTUVWXYZ"
  const SMALL := "abcdefghijklmnopqrstuvwxyz"

  ghost predicate Capital(c: char, d: char)
  {
    exists j :: 0 <= j < 26 && c == CAPITALS[j] && d == SMALL[j]
  }

  /** The same key, any of its letters written as capitals. */
  ghost predicate SameKey(written: string, key: string)
  {
    |written| == |key| && forall i :: 0 <= i < |key| ==> written[i] == key[i] || Capital(written[i], key[i])
  }

  /** A pair as it may be written: its key in any case, and what stands around key and value. */
  datatype Spelling = Spelling(
    pair: Pair,
    written: string,
    before: string,
    behindKey: string,
    beforeValue: string,
    behindValue: string)

  ghost predicate Spellable(s: Spelling)
  {
    && CanonicalKey(s.pair.key) && SameKey(s.written, s.pair.key)
    && IsAscii(s.pair.value) && Fits(s.pair.value, s.pair.style)
    && (Joins(s.pair.value, s.pair.style) ==> s.beforeValue != "")
    && AllSeparators(s.before) && AllBlank(s.behindKey) && AllBlank(s.beforeValue) && AllBlank(s.behindValue)
  }

  function Spell(s: Spelling): string
  {
    s.before + (Doubled(s.written + s.behindKey, '=') + "=" +
                (s.beforeValue + (PrintValue(s.pair.value, s.pair.style) + s.behindValue)))
  }

  /** Pairs one after the other, each closed by a `;`. */
  function SpellAll(ss: seq<Spelling>): string
  {
    if ss == [] then "" else Spell(ss[0]) + (";" + SpellAll(ss[1..]))
  }

  function Pairs(ss: seq<Spelling>): (r: seq<Pair>)
    ensures |r| == |ss|
  {
    seq(|ss|, i requires 0 <= i < |ss| => ss[i].pair)
  }

  /** How a connection string ends: in separators, or in a pair without its `;`. */
  datatype Ending = Closing(run: string) | Open(last: Spelling)

  lemma CapitalIs(c: char, d: char)
    requires Capital(c, d)
    ensures 'A' <= c <= 'Z' && d == LowerChar(c)
  {
  }

  lemma KeySpelled(written: string, key: string, behind: string)
    requires CanonicalKey(key) && SameKey(written, key) && AllBlank(behind)
    ensures KeyOf(written + behind) == key
    ensures written != "" && ';' !in written && IsAscii(written) && !Blank(written[0])
  {
    hide TrimEnd, Capital;
    forall i | 0 <= i < |key|
      ensures LowerChar(written[i]) == key[i]
      ensures written[i] as int < 128 && written[i] != ';' && (written[i] == key[i] || !Blank(written[i]))
    {
      if written[i] != key[i] {
        CapitalIs(written[i], key[i]);
      }
    }
    assert TrimStart(written + behind) == written + behind;
    TrimBehind(written, behind);
    assert Lower(written) == key;
  }

  /** One pair is read as one pair, however it is spelled, and reading goes on behind its separator. */
  lemma ReadOneSpelled(s: Spelling, rest: string, pairs: map<string, string>)
    requires Spellable(s) && AtEnd(rest)
    ensures ReadPairs(Spell(s) + rest, pairs) ==
            ReadPairs(if rest == "" then "" else rest[1..], pairs[s.pair.key := s.pair.value])
  {
    hide ReadKey, ReadValue, Doubled, KeyOf, IsAscii, SkipSeparators, PrintValue, Fits, SameKey, CanonicalKey;
    var raw := s.written + s.behindKey;
    var value := s.beforeValue + (PrintValue(s.pair.value, s.pair.style) + (s.behindValue + rest));
    KeySpelled(s.written, s.pair.key, s.behindKey);
    assert raw[0] == s.written[0];
    ValueStart(s, rest);
    RawStart(raw, value);
    SkipRun(s.before, Doubled(raw, '=') + "=" + value);
    assert Spell(s) + rest == s.before + (Doubled(raw, '=') + "=" + value);
    ReadKeyDoubled(raw, value, "");
    assert "" + raw == raw;
    ReadValuePrinted(s.pair.value, s.pair.style, s.beforeValue, s.behindValue, rest);
    CanonicalNotEmpty(s.pair.key);
  }

  lemma CanonicalNotEmpty(k: string)
    requires CanonicalKey(k)
    ensures k != ""
  {
  }

  lemma RawStart(raw: string, rest: string)
    requires raw != "" && !Blank(raw[0]) && raw[0] != ';'
    ensures var s := Doubled(raw, '=') + "=" + rest; SkipSeparators(s) == s && s != ""
  {
  }

  lemma ValueStart(s: Spelling, rest: string)
    requires Spellable(s) && AtEnd(rest)
    ensures var value := s.beforeValue + (PrintValue(s.pair.value, s.pair.style) + (s.behindValue + rest));
      value == "" || value[0] != '='
  {
    hide Doubled, CanonicalKey, SameKey, IsAscii;
  }

  /** Pairs are read one by one, and reading goes on with whatever follows them. */
  lemma {:induction false} ReadSpelled(ss: seq<Spelling>, more: string, pairs: map<string, string>)
    requires forall s :: s in ss ==> Spellable(s)
    ensures ReadPairs(SpellAll(ss) + more, pairs) == ReadPairs(more, LastWins(Pairs(ss), pairs))
    decreases |ss|
  {
    hide Spellable, Spell, ReadPairs;
    if ss == [] {
      assert SpellAll(ss) + more == more;
    } else {
      var s, rest := ss[0], ";" + (SpellAll(ss[1..]) + more);
      assert SpellAll(ss) + more == Spell(s) + rest;
      assert rest[1..] == SpellAll(ss[1..]) + more;
      ReadOneSpelled(s, rest, pairs);
      ReadSpelled(ss[1..], more, pairs[s.pair.key := s.pair.value]);
      assert Pairs(ss)[1..] == Pairs(ss[1..]);
    }
  }

  /**
   * However a list of pairs is written - keys in any case, blanks around keys and values, runs of
   * separators, the last `;` left out - the parser returns the map in which the last pair with a key wins.
   */
  lemma SpelledParse(ss: seq<Spelling>, ending: Ending)
    requires forall s :: s in ss ==> Spellable(s)
    requires ending.Closing? ==> AllSeparators(ending.run)
    requires ending.Open? ==> Spellable(ending.last)
    ensures ending.Closing? ==> ParseSpec(SpellAll(ss) + ending.run) == Parsed(LastWins(Pairs(ss), map[]))
    ensures ending.Open? ==>
              ParseSpec(SpellAll(ss) + Spell(ending.last)) == Parsed(LastWins(Pairs(ss) + [ending.last.pair], map[]))
  {
    hide Spellable, Spell, LastWins, IsAscii;
    SpelledAscii(ss);
    var pairs := LastWins(Pairs(ss), map[]);
    match ending
    case Closing(run) =>
      SeparatorsAscii(run);
      AsciiConcat(SpellAll(ss), run);
      ReadSpelled(ss, run, map[]);
      SkipRun(run, "");
      assert run + "" == run;
    case Open(last) =>
      SpellAscii(last);
      AsciiConcat(SpellAll(ss), Spell(last));
      ReadSpelled(ss, Spell(last), map[]);
      ReadOneSpelled(last, "", pairs);
      assert Spell(last) + "" == Spell(last);
      LastWinsAppend(Pairs(ss), last.pair, map[]);
  }

  lemma SeparatorsAscii(s: string)
    requires AllSeparators(s)
    ensures IsAscii(s)
  {
  }

  lemma AsciiConcat(a: string, b: string)
    requires IsAscii(a) && IsAscii(b)
    ensures IsAscii(a + b)
  {
  }

  lemma SpellAscii(s: Spelling)
    requires Spellable(s)
    ensures IsAscii(Spell(s))
  {
    hide SameKey, CanonicalKey, Fits, Blank;
    var value := PrintValue(s.pair.value, s.pair.style);
    KeySpelled(s.written, s.pair.key, s.behindKey);
    SeparatorsAscii(s.before);
    SeparatorsAscii(s.behindKey);
    SeparatorsAscii(s.beforeValue);
    SeparatorsAscii(s.behindValue);
    DoubledAscii(s.written + s.behindKey, '=');
    ValueAscii(s.pair.value, s.pair.style);
  }

  lemma ValueAscii(v: string, style: Style)
    requires IsAscii(v)
    ensures IsAscii(PrintValue(v, style))
  {
    DoubledAscii(v, '"');
    DoubledAscii(v, '\'');
  }

  lemma {:induction false} SpelledAscii(ss: seq<Spelling>)
    requires forall s :: s in ss ==> Spellable(s)
    ensures IsAscii(SpellAll(ss))
  {
    hide Spellable, Spell;
    if ss != [] {
      SpellAscii(ss[0]);
      SpelledAscii(ss[1..]);
    }
  }

  // ------------------------------------------------------------------ the plain print

  /** The pair as `Print` writes it. */
  function Simply(p: Pair): Spelling
  {
    Spelling(p, p.key, "", "", "", "")
  }

  lemma {:induction false} PrintIsSpelled(ps: seq<Pair>) returns (ss: seq<Spelling>)
    requires forall p :: p in ps ==> Printable(p)
    ensures Print(ps) == SpellAll(ss) && Pairs(ss) == ps && forall s :: s in ss ==> Spellable(s)
  {
    ss := [];
    if ps != [] {
      var more := PrintIsSpelled(ps[1..]);
      var s := Simply(ps[0]);
      SimplySpelled(ps[0]);
      ss := [s] + more;
      assert ss[1..] == more;
      assert Spell(s) + (";" + Print(ps[1..])) == Print(ps);
    }
  }

  lemma SimplySpelled(p: Pair)
    requires Printable(p)
    ensures Spellable(Simply(p))
    ensures Spell(Simply(p)) == Doubled(p.key, '=') + "=" + PrintValue(p.value, p.style)
  {
    hide Doubled, PrintValue, CanonicalKey, IsAscii;
    assert p.key + "" == p.key;
  }

  /**
   * The round trip: for every list of pairs, each printed in any form that can carry its value, the
   * parser returns the map in which the last pair with a key wins.
   */
  lemma PrintParse(ps: seq<Pair>)
    requires forall p :: p in ps ==> Printable(p)
    ensures ParseSpec(Print(ps)) == Parsed(LastWins(ps, map[]))
  {
    hide SpellAll, Spellable;
    var ss := PrintIsSpelled(ps);
    SpelledParse(ss, Closing(""));
    assert Print(ps) + "" == Print(ps);
  }

  // ------------------------------------------------------------------- what is refused

  /** Ways to spoil the last pair of a connection string. */
  datatype Defect =
    | NoSeparator
    | NoKey(text: string)
    | OpenDouble(value: string)
    | OpenSingle(value: string)
    | OpenBrace(value: string)
    | Trailing(value: string, style: Style, junk: char)

  predicate IsDefect(d: Defect)
  {
    match d
    case NoKey(text) => text == "" || text[0] != '='
    case OpenBrace(value) => '}' !in value
    case Trailing(value, style, junk) =>
      && style != Plain && Fits(value, style) && !Blank(junk) && junk != ';'
      && (style == DoubleQuoted ==> junk != '"') && (style == SingleQuoted ==> junk != '\'')
    case _ => true
  }

  /** The spoiled value, behind the separating `=`. */
  function BadText(d: Defect): string
    requires d != NoSeparator
  {
    match d
    case NoKey(text) => text
    case OpenDouble(value) => "\"" + Doubled(value, '"')
    case OpenSingle(value) => "'" + Doubled(value, '\'')
    case OpenBrace(value) => "{" + value
    case Trailing(value, style, junk) => PrintValue(value, style) + [junk]
  }

  function Spoiled(key: string, d: Defect): string
  {
    if d == NoSeparator then Doubled(key, '=')
    else if d.NoKey? then "=" + BadText(d)
    else Doubled(key, '=') + "=" + BadText(d)
  }

  function ReasonFor(d: Defect): Reason
  {
    match d
    case NoSeparator => MissingEquals
    case NoKey(_) => EmptyKey
    case OpenDouble(_) => UnclosedDoubleQuote
    case OpenSingle(_) => UnclosedSingleQuote
    case OpenBrace(_) => UnclosedBrace
    case Trailing(_, style, _) => if style == Braced then JunkAfterBrace else JunkAfterQuote
  }

  lemma {:induction false} ReadKeyUnseparated(k: string, acc: string)
    requires ';' !in k
    ensures ReadKey(Doubled(k, '='), acc).NoToken?
  {
    if k != "" {
      ReadKeyUnseparated(k[1..], acc + [k[0]]);
    }
  }

  lemma {:induction false} ReadQuotedOpen(v: string, quote: char, acc: string)
    ensures ReadQuoted(Doubled(v, quote), quote, acc).NoToken?
  {
    if v != "" {
      ReadQuotedOpen(v[1..], quote, acc + [v[0]]);
    }
  }

  lemma {:induction false} ReadBracedOpen(v: string, acc: string)
    requires '}' !in v
    ensures ReadBraced(v, acc).NoToken?
  {
    if v != "" {
      ReadBracedOpen(v[1..], acc + [v[0]]);
    }
  }

  lemma BadTextRefused(d: Defect)
    requires IsDefect(d) && d != NoSeparator && !d.NoKey?
    ensures var text := BadText(d); ReadValue(text) == BadValue(ReasonFor(d)) && text != "" && text[0] != '='
  {
    hide ReadQuoted, ReadBraced, Doubled;
    var text := BadText(d);
    match d
    case OpenDouble(value) =>
      ReadQuotedOpen(value, '"', "");
    case OpenSingle(value) =>
      ReadQuotedOpen(value, '\'', "");
    case OpenBrace(value) =>
      ReadBracedOpen(value, "");
    case Trailing(value, style, junk) =>
      if style == Braced {
        assert text[1..] == value + "}" + [junk];
        ReadBracedPrinted(value, [junk], "");
      } else {
        var quote := if style == DoubleQuoted then '"' else '\'';
        assert text[1..] == Doubled(value, quote) + [quote] + [junk];
        ReadQuotedDoubled(value, quote, [junk], "");
      }
  }

  /** A string spoiled at its end is refused for exactly that reason, whatever good pairs precede it. */
  lemma DefectRefused(ss: seq<Spelling>, key: string, d: Defect)
    requires (forall s :: s in ss ==> Spellable(s)) && CanonicalKey(key) && IsDefect(d)
    requires IsAscii(Spoiled(key, d))
    ensures ParseSpec(SpellAll(ss) + Spoiled(key, d)) == Refused(ReasonFor(d))
  {
    hide ReadKey, ReadValue, Doubled, BadText, IsAscii, IsDefect, SkipSeparators, KeyOf, Spellable;
    SpelledAscii(ss);
    AsciiConcat(SpellAll(ss), Spoiled(key, d));
    ReadSpelled(ss, Spoiled(key, d), map[]);
    if d == NoSeparator {
      UnseparatedStart(key);
      ReadKeyUnseparated(key, "");
    } else if d.NoKey? {
      NoKeyRead(d);
    } else {
      var text := BadText(d);
      BadTextRefused(d);
      RawStart(key, text);
      ReadKeyDoubled(key, text, "");
      assert "" + key == key;
      CanonicalKeyIsKey(key);
    }
  }

  lemma NoKeyRead(d: Defect)
    requires d.NoKey? && IsDefect(d)
    ensures var s := "=" + BadText(d); SkipSeparators(s) == s && ReadKey(s, "").Token? && ReadKey(s, "").text == ""
    ensures KeyOf("") == ""
  {
  }

  lemma CanonicalKeyIsKey(k: string)
    requires CanonicalKey(k)
    ensures KeyOf(k) == k
  {
    KeySpelled(k, k, "");
    assert k + "" == k;
  }

  /** The one reason that is not about the pairs: exactly a character outside ASCII. */
  lemma NonAsciiRefused(input: string)
    ensures ParseSpec(input) == Refused(NonAscii) <==> exists i :: 0 <= i < |input| && input[i] as int >= 128
  {
    PairsNotNonAscii(input, map[]);
  }

  lemma {:induction false} PairsNotNonAscii(s: string, pairs: map<string, string>)
    ensures ReadPairs(s, pairs) != Refused(NonAscii)
    decreases |s|
  {
    hide ReadKey, KeyOf, SkipSeparators, ReadQuoted, ReadBraced, ReadPlain, TrimStart, TrimEnd;
    var start := SkipSeparators(s);
    if start != "" {
      var key := ReadKey(start, "");
      if key.Token? && KeyOf(key.text) != "" && ReadValue(key.rest).ValueRead? {
        var rest := ReadValue(key.rest).rest;
        PairsNotNonAscii(if rest != "" && rest[0] == ';' then rest[1..] else rest,
                         pairs[KeyOf(key.text) := ReadValue(key.rest).value]);
      }
    }
  }

  lemma UnseparatedStart(k: string)
    requires CanonicalKey(k)
    ensures SkipSeparators(Doubled(k, '=')) == Doubled(k, '=') && Doubled(k, '=') != ""
  {
  }

  lemma {:induction false} DoubledAscii(s: string, c: char)
    requires IsAscii(s)
    ensures IsAscii(Doubled(s, c))
  {
    if s != "" {
      DoubledAscii(s[1..], c);
    }
  }

  // ----------------------------------------------------- accepted strings are canonical

  ghost predicate CanonicalPairs(pairs: map<string, string>)
  {
    forall k :: k in pairs ==> CanonicalKey(k) && IsAscii(pairs[k])
  }

  lemma {:induction false} ReadKeyAscii(s: string, acc: string)
    requires IsAscii(s) && IsAscii(acc) && ';' !in acc && ReadKey(s, acc).Token?
    ensures var t := ReadKey(s, acc); IsAscii(t.text) && ';' !in t.text && IsAscii(t.rest)
    decreases |s|
  {
    if s[0] != '=' {
      ReadKeyAscii(s[1..], acc + [s[0]]);
    } else if |s| > 1 && s[1] == '=' {
      ReadKeyAscii(s[2..], acc + "=");
    }
  }

  lemma {:induction false} ReadQuotedAscii(s: string, quote: char, acc: string)
    requires IsAscii(s) && IsAscii(acc) && ReadQuoted(s, quote, acc).Token?
    ensures var t := ReadQuoted(s, quote, acc); IsAscii(t.text) && IsAscii(t.rest)
    decreases |s|
  {
    if s[0] != quote {
      ReadQuotedAscii(s[1..], quote, acc + [s[0]]);
    } else if |s| > 1 && s[1] == quote {
      ReadQuotedAscii(s[2..], quote, acc + [quote]);
    }
  }

  lemma {:induction false} ReadBracedAscii(s: string, acc: string)
    requires IsAscii(s) && IsAscii(acc) && ReadBraced(s, acc).Token?
    ensures var t := ReadBraced(s, acc); IsAscii(t.text) && IsAscii(t.rest)
    decreases |s|
  {
    if s[0] != '}' {
      ReadBracedAscii(s[1..], acc + [s[0]]);
    }
  }

  lemma {:induction false} ReadPlainAscii(s: string, acc: string)
    requires IsAscii(s) && IsAscii(acc)
    ensures var t := ReadPlain(s, acc); IsAscii(t.text) && IsAscii(t.rest)
    decreases |s|
  {
    if s != "" && s[0] != ';' {
      ReadPlainAscii(s[1..], acc + [s[0]]);
    }
  }

  lemma {:induction false} SkippedAscii(s: string)
    requires IsAscii(s)
    ensures IsAscii(SkipSeparators(s)) && IsAscii(TrimStart(s)) && IsAscii(TrimEnd(s))
    ensures SkipTrailing(s).Some? ==> IsAscii(SkipTrailing(s).value)
    decreases |s|
  {
    if s != "" {
      SkippedAscii(s[1..]);
      SkippedAscii(s[..|s| - 1]);
    }
  }

  lemma ReadValueAscii(s: string)
    requires IsAscii(s) && ReadValue(s).ValueRead?
    ensures IsAscii(ReadValue(s).value) && IsAscii(ReadValue(s).rest)
  {
    SkippedAscii(s);
    var v := TrimStart(s);
    if v != "" && v[0] in {'\'', '"'} {
      ReadQuotedAscii(v[1..], v[0], "");
      SkippedAscii(ReadQuoted(v[1..], v[0], "").rest);
    } else if v != "" && v[0] == '{' {
      ReadBracedAscii(v[1..], "");
      SkippedAscii(ReadBraced(v[1..], "").rest);
    } else {
      ReadPlainAscii(v, "");
      SkippedAscii(ReadPlain(v, "").text);
    }
  }

  lemma {:induction false} Trimmed(s: string)
    ensures var t := TrimStart(s); (t != "" ==> !IsSpace(t[0])) && (forall c :: c in t ==> c in s)
    ensures var t := TrimEnd(s); t <= s && (t != "" ==> !IsSpace(t[|t| - 1]))
    decreases |s|
  {
    if s != "" {
      Trimmed(s[1..]);
      Trimmed(s[..|s| - 1]);
    }
  }

  lemma KeyOfCanonical(raw: string)
    requires IsAscii(raw) && ';' !in raw && KeyOf(raw) != ""
    ensures CanonicalKey(KeyOf(raw))
  {
    Trimmed(raw);
    SkippedAscii(raw);
    var t := TrimStart(raw);
    Trimmed(t);
    SkippedAscii(t);
    var u := TrimEnd(t);
  }

  lemma {:induction false} ParsedIsCanonical(s: string, pairs: map<string, string>)
    requires IsAscii(s) && CanonicalPairs(pairs) && ReadPairs(s, pairs).Parsed?
    ensures CanonicalPairs(ReadPairs(s, pairs).pairs)
    decreases |s|
  {
    hide ReadKey, ReadValue, KeyOf, IsAscii, CanonicalKey;
    SkippedAscii(s);
    var start := SkipSeparators(s);
    if start != "" {
      NothingAscii();
      var key := ReadKey(start, "");
      ReadKeyAscii(start, "");
      KeyOfCanonical(key.text);
      ReadValueAscii(key.rest);
      var value := ReadValue(key.rest);
      var rest := if value.rest != "" && value.rest[0] == ';' then value.rest[1..] else value.rest;
      RestAscii(value.rest);
      ParsedIsCanonical(rest, pairs[KeyOf(key.text) := value.value]);
    }
  }

  lemma NothingAscii()
    ensures IsAscii("")
  {
  }

  lemma RestAscii(s: string)
    requires IsAscii(s)
    ensures s != "" ==> IsAscii(s[1..])
  {
  }

  /** Some listing of a map, every value double-quoted. */
  ghost function Listing(pairs: map<string, string>): seq<Pair>
    decreases |pairs|
  {
    if pairs == map[] then []
    else
      var k :| k in pairs;
      Listing(pairs - {k}) + [Pair(k, pairs[k], DoubleQuoted)]
  }

  lemma {:induction false} LastWinsAppend(ps: seq<Pair>, p: Pair, pairs: map<string, string>)
    ensures LastWins(ps + [p], pairs) == LastWins(ps, pairs)[p.key := p.value]
    decreases |ps|
  {
    if ps == [] {
    } else {
      assert (ps + [p])[1..] == ps[1..] + [p];
      LastWinsAppend(ps[1..], p, pairs[ps[0].key := ps[0].value]);
    }
  }

  lemma {:induction false} ListingComplete(pairs: map<string, string>)
    requires CanonicalPairs(pairs)
    ensures forall p :: p in Listing(pairs) ==> Printable(p)
    ensures LastWins(Listing(pairs), map[]) == pairs
    decreases |pairs|
  {
    hide CanonicalKey, IsAscii;
    if pairs != map[] {
      var ps := Listing(pairs);
      var p := ps[|ps| - 1];
      var less := pairs - {p.key};
      ListingComplete(less);
      LastWinsAppend(Listing(less), p, map[]);
    }
  }

  /** Printing what any accepted string was parsed to, and parsing that, gives the same map. */
  lemma ReprintAccepted(input: string)
    requires ParseSpec(input).Parsed?
    ensures ParseSpec(Print(Listing(ParseSpec(input).pairs))) == ParseSpec(input)
  {
    ParsedIsCanonical(input, map[]);
    var pairs := ParseSpec(input).pairs;
    ListingComplete(pairs);
    PrintParse(Listing(pairs));
  }
}
