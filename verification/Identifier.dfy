/** SQL identifiers: validator, splitter, quoter, collation query (src/client.rs). */
module Identifiers {
  import opened Bytes
  import opened Quoting

  predicate IsControl(c: char)
  {
    c as int < 32 || c as int == 127
  }

  // --------------------------------------------------------------------- validator

  datatype Verdict =
    | Accepted
    | ControlCharacter
    | TextAfterBracket
    | UnbalancedBracket
    | UnbalancedParen
    | TextAfterParen
    | Disallowed
    | UnterminatedBracket
    | UnclosedParen

  /** The scan of `validate_sql_identifier` from a given state, on what is left of the text. */
  function Scan(alnum: char -> bool, s: string, inBracket: bool, depth: nat): Verdict
    decreases |s|
  {
    if s == "" then
      if inBracket then UnterminatedBracket else if depth != 0 then UnclosedParen else Accepted
    else if inBracket then
      if s[0] != ']' then Scan(alnum, s[1..], true, depth)
      else if |s| > 1 && s[1] == ']' then Scan(alnum, s[2..], true, depth)
      else if |s| > 1 && s[1] != '.' then TextAfterBracket
      else Scan(alnum, s[1..], false, depth)
    else match s[0]
      case '[' => Scan(alnum, s[1..], true, depth)
      case ']' => UnbalancedBracket
      case '(' => Scan(alnum, s[1..], false, depth + 1)
      case ')' =>
        if depth == 0 then UnbalancedParen
        else if depth == 1 && |s| > 1 then TextAfterParen
        else Scan(alnum, s[1..], false, depth - 1)
      case c =>
        if c in {' ', ','} && depth == 0 then Disallowed
        else if alnum(c) || c in {'_', '.', '@', '#', ',', ' ', '*'} then Scan(alnum, s[1..], false, depth)
        else Disallowed
  }

  function ValidateSpec(alnum: char -> bool, ident: string): Verdict
  {
    if exists i :: 0 <= i < |ident| && IsControl(ident[i]) then ControlCharacter
    else Scan(alnum, ident, false, 0)
  }

  /** `validate_sql_identifier`; `alnum` is the Unicode alphanumeric test. */
  method Validate(alnum: char -> bool, ident: string) returns (v: Verdict)
    ensures v == ValidateSpec(alnum, ident)
  {
    for k := 0 to |ident|
      invariant forall i :: 0 <= i < k ==> !IsControl(ident[i])
    {
      if IsControl(ident[k]) {
        return ControlCharacter;
      }
    }
    var i, inBracket, depth := 0, false, 0;
    while i < |ident|
      invariant 0 <= i <= |ident| && 0 <= depth
      invariant Scan(alnum, ident[i..], inBracket, depth) == Scan(alnum, ident, false, 0)
    {
      var c := ident[i];
      i := i + 1;
      var more := i < |ident|;
      if inBracket {
        if c == ']' {
          if more && ident[i] == ']' {
            i := i + 1;
          } else {
            inBracket := false;
            if more && ident[i] != '.' {
              return TextAfterBracket;
            }
          }
        }
        continue;
      }
      match c {
        case '[' => inBracket := true;
        case ']' => return UnbalancedBracket;
        case '(' => depth := depth + 1;
        case ')' =>
          if depth == 0 {
            return UnbalancedParen;
          }
          depth := depth - 1;
          if depth == 0 && more {
            return TextAfterParen;
          }
        case _ =>
          if c == ' ' && depth == 0 {
            return Disallowed;
          }
          if c == ',' && depth == 0 {
            return Disallowed;
          }
          if !(alnum(c) || c in {'_', '.', '@', '#', ',', ' ', '*'}) {
            return Disallowed;
          }
      }
    }
    if inBracket {
      return UnterminatedBracket;
    }
    v := if depth != 0 then UnclosedParen else Accepted;
  }

  // -------------------------------------------------------------- reference scanner

  /** A character a SQL lexer sees outside brackets, its paren depth, and the character after it. */
  datatype Exposed = Exposed(c: char, closing: bool, depth: int, next: Option<char>)

  datatype Lexed = Lexed(exposed: seq<Exposed>, inBracket: bool, depth: int)

  function Next(s: string): Option<char>
    requires s != ""
  {
    if |s| > 1 then Some(s[1]) else None
  }

  function Cons(e: Exposed, rest: Lexed): Lexed
  {
    Lexed([e] + rest.exposed, rest.inBracket, rest.depth)
  }

  /** The reference: bracket quoting and paren depth as T-SQL reads them, judging nothing. */
  function Lex(s: string, inBracket: bool, depth: int): Lexed
    decreases |s|
  {
    if s == "" then Lexed([], inBracket, depth)
    else if inBracket then
      if s[0] != ']' then Lex(s[1..], true, depth)
      else if |s| > 1 && s[1] == ']' then Lex(s[2..], true, depth)
      else Cons(Exposed(']', true, depth, Next(s)), Lex(s[1..], false, depth))
    else
      Cons(Exposed(s[0], false, depth, Next(s)),
           Lex(s[1..], s[0] == '[', if s[0] == '(' then depth + 1 else if s[0] == ')' then depth - 1 else depth))
  }

  /** What may be exposed by an identifier spliced in at paren depth `base`. */
  predicate Harmless(alnum: char -> bool, e: Exposed, base: int)
  {
    && e.depth >= base
    && (e.c == ']' ==> e.closing && e.next in {None, Some('.')})
    && (e.c == ')' ==> e.depth > base && (e.depth == base + 1 ==> e.next == None))
    && (e.c in {' ', ','} ==> e.depth > base)
    && (e.c in {'[', ']', '(', ')', '_', '.', '@', '#', ',', ' ', '*'} || alnum(e.c))
  }

  ghost predicate Neutral(alnum: char -> bool, x: Lexed, base: int)
  {
    !x.inBracket && x.depth == base && forall e :: e in x.exposed ==> Harmless(alnum, e, base)
  }

  /** The validator accepts exactly the control-free texts that are neutral wherever they are spliced in. */
  lemma AcceptedIsNeutral(alnum: char -> bool, ident: string, base: int)
    ensures ValidateSpec(alnum, ident) == Accepted <==>
              && (forall i :: 0 <= i < |ident| ==> ident[i] as int >= 32 && ident[i] as int != 127)
              && Neutral(alnum, Lex(ident, false, base), base)
  {
    ScanIsJudged(alnum, ident, false, 0, base);
    JudgeNeutral(alnum, Lex(ident, false, base), base);
  }

  /** What an exposed character that is not harmless is blamed for. */
  function Blame(e: Exposed, base: int): Verdict
  {
    if e.c == ']' then if e.closing then TextAfterBracket else UnbalancedBracket
    else if e.c == ')' then if e.depth <= base then UnbalancedParen else TextAfterParen
    else Disallowed
  }

  /** The judgement over a whole reading: the first offence, else the state it ends in. */
  function Judge(alnum: char -> bool, x: Lexed, base: int): Verdict
    decreases |x.exposed|
  {
    if x.exposed == [] then
      if x.inBracket then UnterminatedBracket else if x.depth != base then UnclosedParen else Accepted
    else if Harmless(alnum, x.exposed[0], base) then Judge(alnum, x.(exposed := x.exposed[1..]), base)
    else Blame(x.exposed[0], base)
  }

  lemma JudgeCons(alnum: char -> bool, e: Exposed, rest: Lexed, base: int)
    ensures Judge(alnum, Cons(e, rest), base) ==
            if Harmless(alnum, e, base) then Judge(alnum, rest, base) else Blame(e, base)
  {
    assert Cons(e, rest).exposed[1..] == rest.exposed;
  }

  lemma {:induction false} ScanIsJudged(alnum: char -> bool, s: string, inBracket: bool, depth: nat, base: int)
    ensures Scan(alnum, s, inBracket, depth) == Judge(alnum, Lex(s, inBracket, base + depth), base)
    decreases |s|
  {
    hide Judge;
    var at := base + depth;
    if s == "" {
      JudgeNothing(alnum, inBracket, at, base);
    } else if inBracket && s[0] != ']' {
      ScanIsJudged(alnum, s[1..], true, depth, base);
    } else if inBracket && |s| > 1 && s[1] == ']' {
      ScanIsJudged(alnum, s[2..], true, depth, base);
    } else {
      var step := if inBracket then 0 else if s[0] == '(' then 1 else if s[0] == ')' then -1 else 0;
      var in' := !inBracket && s[0] == '[';
      JudgeCons(alnum, Exposed(s[0], inBracket, at, Next(s)), Lex(s[1..], in', at + step), base);
      if depth + step >= 0 {
        ScanIsJudged(alnum, s[1..], in', depth + step, base);
      }
    }
  }

  lemma JudgeNothing(alnum: char -> bool, inBracket: bool, depth: int, base: int)
    ensures Judge(alnum, Lexed([], inBracket, depth), base) ==
            if inBracket then UnterminatedBracket else if depth != base then UnclosedParen else Accepted
  {
  }

  lemma {:induction false} JudgeNeutral(alnum: char -> bool, x: Lexed, base: int)
    ensures Judge(alnum, x, base) == Accepted <==> Neutral(alnum, x, base)
    decreases |x.exposed|
  {
    if x.exposed != [] {
      assert x.exposed == [x.exposed[0]] + x.exposed[1..];
      JudgeNeutral(alnum, x.(exposed := x.exposed[1..]), base);
    }
  }

  /** The verdict is that judgement, wherever the identifier is spliced in; control characters come first. */
  lemma VerdictIsFirstOffence(alnum: char -> bool, ident: string, base: int)
    ensures ValidateSpec(alnum, ident) ==
            if exists i :: 0 <= i < |ident| && (ident[i] as int < 32 || ident[i] as int == 127) then ControlCharacter
            else Judge(alnum, Lex(ident, false, base), base)
  {
    ScanIsJudged(alnum, ident, false, 0, base);
  }

  /** `x` ends in the state `y` ends in, and the last characters it exposes are those of `y`. */
  ghost predicate EndsAs(x: Lexed, y: Lexed)
  {
    && x.inBracket == y.inBracket && x.depth == y.depth
    && |x.exposed| >= |y.exposed| && x.exposed[|x.exposed| - |y.exposed|..] == y.exposed
  }

  lemma ConsEndsAs(e: Exposed, x: Lexed, y: Lexed)
    requires EndsAs(x, y)
    ensures EndsAs(Cons(e, x), y)
  {
  }

  /**
   * Splicing: text that follows an accepted identifier is read as if the identifier were not there,
   * unless it starts with `]`, which could complete an escaped bracket.
   */
  lemma SpliceKeepsState(alnum: char -> bool, ident: string, after: string, base: int)
    requires ValidateSpec(alnum, ident) == Accepted
    requires after == "" || after[0] != ']'
    ensures EndsAs(Lex(ident + after, false, base), Lex(after, false, base))
  {
    AcceptedIsNeutral(alnum, ident, base);
    LexConcat(ident, after, false, base);
  }

  lemma {:induction false} LexConcat(s: string, t: string, inBracket: bool, depth: int)
    requires t == "" || t[0] != ']'
    ensures var m := Lex(s, inBracket, depth);
      EndsAs(Lex(s + t, inBracket, depth), Lex(t, m.inBracket, m.depth))
    decreases |s|
  {
    hide EndsAs;
    if s == "" {
      assert s + t == t;
      EndsAsSelf(Lex(t, inBracket, depth));
    } else if inBracket && |s| > 1 && s[0] == ']' && s[1] == ']' {
      assert (s + t)[2..] == s[2..] + t;
      LexConcat(s[2..], t, true, depth);
    } else {
      assert (s + t)[1..] == s[1..] + t;
      var in' := if inBracket then s[0] != ']' else s[0] == '[';
      var depth' := if inBracket then depth else if s[0] == '(' then depth + 1 else if s[0] == ')' then depth - 1 else depth;
      LexConcat(s[1..], t, in', depth');
      if !inBracket || s[0] == ']' {
        var m := Lex(s, inBracket, depth);
        ConsEndsAs(Exposed(s[0], inBracket, depth, Next(s + t)), Lex(s[1..] + t, in', depth'), Lex(t, m.inBracket, m.depth));
      }
    }
  }

  lemma EndsAsSelf(x: Lexed)
    ensures EndsAs(x, x)
  {
  }

  // ---------------------------------------------------------------------- splitter

  function Push(parts: seq<string>, c: char): (r: seq<string>)
    requires parts != []
    ensures |r| == |parts|
  {
    parts[|parts| - 1 := parts[|parts| - 1] + [c]]
  }

  function SplitFrom(s: string, inBracket: bool, parts: seq<string>): (r: seq<string>)
    requires parts != []
    ensures r != []
    decreases |s|
  {
    if s == "" then parts
    else if inBracket then
      if s[0] != ']' then SplitFrom(s[1..], true, Push(parts, s[0]))
      else if |s| > 1 && s[1] == ']' then SplitFrom(s[2..], true, Push(parts, ']'))
      else SplitFrom(s[1..], false, parts)
    else match s[0]
      case '[' => SplitFrom(s[1..], true, parts)
      case '.' => SplitFrom(s[1..], false, parts + [""])
      case c => SplitFrom(s[1..], false, Push(parts, c))
  }

  function SplitSpec(ident: string): (r: seq<string>)
    ensures r != []
  {
    SplitFrom(ident, false, [""])
  }

  /** `split_multipart_identifier`. */
  method SplitMultipart(ident: string) returns (parts: seq<string>)
    ensures parts == SplitSpec(ident)
  {
    parts := [""];
    var i, inBracket := 0, false;
    while i < |ident|
      invariant 0 <= i <= |ident| && parts != []
      invariant SplitFrom(ident[i..], inBracket, parts) == SplitSpec(ident)
    {
      var c := ident[i];
      i := i + 1;
      if inBracket {
        if c == ']' {
          if i < |ident| && ident[i] == ']' {
            i := i + 1;
            parts := Push(parts, ']');
          } else {
            inBracket := false;
          }
        } else {
          parts := Push(parts, c);
        }
      } else {
        match c {
          case '[' => inBracket := true;
          case '.' => parts := parts + [""];
          case _ => parts := Push(parts, c);
        }
      }
    }
  }

  /** `quote_identifier`. */
  function Quote(name: string): string
  {
    "[" + Doubled(name, ']') + "]"
  }

  /** The canonical form of a multi-part name. */
  function Join(parts: seq<string>): string
    requires parts != []
  {
    if |parts| == 1 then Quote(parts[0]) else Quote(parts[0]) + ("." + Join(parts[1..]))
  }

  // --------------------------------------------------------------- canonical names

  /** The last part extended by `name`. */
  function Extend(parts: seq<string>, name: string): (r: seq<string>)
    requires parts != []
    ensures |r| == |parts|
  {
    parts[|parts| - 1 := parts[|parts| - 1] + name]
  }

  lemma ExtendNone(parts: seq<string>)
    requires parts != []
    ensures Extend(parts, "") == parts
  {
    assert parts[|parts| - 1] + "" == parts[|parts| - 1];
  }

  lemma ExtendPush(parts: seq<string>, name: string)
    requires parts != [] && name != ""
    ensures Extend(Push(parts, name[0]), name[1..]) == Extend(parts, name)
  {
    assert parts[|parts| - 1] + [name[0]] + name[1..] == parts[|parts| - 1] + name;
  }

  lemma {:induction false} SplitBracketed(name: string, t: string, parts: seq<string>)
    requires parts != [] && (t == "" || t[0] != ']')
    ensures SplitFrom(Doubled(name, ']') + "]" + t, true, parts) == SplitFrom(t, false, Extend(parts, name))
    decreases |name|
  {
    hide Extend, Push;
    var s := Doubled(name, ']') + "]" + t;
    if name == "" {
      ExtendNone(parts);
    } else {
      var tail := Doubled(name[1..], ']') + "]" + t;
      assert s == (if name[0] == ']' then "]]" else [name[0]]) + tail;
      SplitBracketed(name[1..], t, Push(parts, name[0]));
      ExtendPush(parts, name);
    }
  }

  lemma SplitQuoted(name: string, t: string, parts: seq<string>)
    requires parts != [] && (t == "" || t[0] != ']')
    ensures SplitFrom(Quote(name) + t, false, parts) == SplitFrom(t, false, Extend(parts, name))
  {
    assert (Quote(name) + t)[1..] == Doubled(name, ']') + "]" + t;
    SplitBracketed(name, t, parts);
  }

  lemma {:induction false} SplitJoinFrom(parts: seq<string>, before: seq<string>)
    requires parts != []
    ensures SplitFrom(Join(parts), false, before + [""]) == before + parts
    decreases |parts|
  {
    var t := if |parts| == 1 then "" else "." + Join(parts[1..]);
    assert Join(parts) == Quote(parts[0]) + t;
    SplitQuoted(parts[0], t, before + [""]);
    assert "" + parts[0] == parts[0];
    assert Extend(before + [""], parts[0]) == before + [parts[0]];
    if |parts| > 1 {
      SplitJoinFrom(parts[1..], before + [parts[0]]);
    }
  }

  /** Splitting the canonical form returns the parts, whatever characters they hold. */
  lemma SplitJoin(parts: seq<string>)
    requires parts != []
    ensures SplitSpec(Join(parts)) == parts
  {
    SplitJoinFrom(parts, []);
    assert [] + [""] == [""] && [] + parts == parts;
  }

  /** One part of a name as it may be written: in brackets, or plain if it holds neither `[` nor `.`. */
  datatype Written = InBrackets(text: string) | Unquoted(text: string)

  predicate Writable(w: Written)
  {
    w.Unquoted? ==> '[' !in w.text && '.' !in w.text
  }

  function Spell(w: Written): string
  {
    match w
    case InBrackets(text) => "[" + Doubled(text, ']') + "]"
    case Unquoted(text) => text
  }

  function SpellName(ws: seq<Written>): string
    requires ws != []
  {
    if |ws| == 1 then Spell(ws[0]) else Spell(ws[0]) + ("." + SpellName(ws[1..]))
  }

  function Texts(ws: seq<Written>): (r: seq<string>)
    ensures |r| == |ws|
  {
    seq(|ws|, i requires 0 <= i < |ws| => ws[i].text)
  }

  lemma {:induction false} SplitUnquoted(text: string, t: string, parts: seq<string>)
    requires parts != [] && '[' !in text && '.' !in text
    ensures SplitFrom(text + t, false, parts) == SplitFrom(t, false, Extend(parts, text))
    decreases |text|
  {
    hide Extend, Push;
    if text == "" {
      ExtendNone(parts);
      assert text + t == t;
    } else {
      assert (text + t)[1..] == text[1..] + t;
      SplitUnquoted(text[1..], t, Push(parts, text[0]));
      ExtendPush(parts, text);
    }
  }

  lemma {:induction false} SplitSpelledFrom(ws: seq<Written>, before: seq<string>)
    requires ws != [] && forall w :: w in ws ==> Writable(w)
    ensures SplitFrom(SpellName(ws), false, before + [""]) == before + Texts(ws)
    decreases |ws|
  {
    hide SplitFrom, Spell, Writable;
    var w := ws[0];
    var t := if |ws| == 1 then "" else "." + SpellName(ws[1..]);
    SplitPart(w, t, before);
    SplitAt(t, before + [w.text]);
    TextsStep(ws);
    if |ws| > 1 {
      assert t[1..] == SpellName(ws[1..]);
      SplitSpelledFrom(ws[1..], before + [w.text]);
      assert before + [w.text] + Texts(ws[1..]) == before + Texts(ws);
    } else {
      assert Spell(w) + t == Spell(w);
    }
  }

  lemma SplitPart(w: Written, t: string, before: seq<string>)
    requires Writable(w) && (t == "" || t[0] == '.')
    ensures SplitFrom(Spell(w) + t, false, before + [""]) == SplitFrom(t, false, before + [w.text])
  {
    hide SplitFrom;
    if w.InBrackets? {
      SplitQuoted(w.text, t, before + [""]);
    } else {
      SplitUnquoted(w.text, t, before + [""]);
    }
    assert "" + w.text == w.text;
    assert Extend(before + [""], w.text) == before + [w.text];
  }

  lemma TextsStep(ws: seq<Written>)
    requires ws != []
    ensures Texts(ws) == [ws[0].text] + Texts(ws[1..])
  {
  }

  lemma SplitAt(t: string, parts: seq<string>)
    requires parts != []
    ensures t == "" ==> SplitFrom(t, false, parts) == parts
    ensures t != "" && t[0] == '.' ==> SplitFrom(t, false, parts) == SplitFrom(t[1..], false, parts + [""])
  {
  }

  /** Splitting a name gives the texts of its parts, however each of them is written. */
  lemma SplitSpelled(ws: seq<Written>)
    requires ws != [] && forall w :: w in ws ==> Writable(w)
    ensures SplitSpec(SpellName(ws)) == Texts(ws)
  {
    SplitSpelledFrom(ws, []);
    assert [] + [""] == [""] && [] + Texts(ws) == Texts(ws);
  }

  /** So an accepted name is normalized to the quoted form of the parts that stand in its text. */
  lemma NormalFormSpelled(alnum: char -> bool, ws: seq<Written>)
    requires ws != [] && (forall w :: w in ws ==> Writable(w)) && ValidateSpec(alnum, SpellName(ws)) == Accepted
    ensures Join(SplitSpec(SpellName(ws))) == SpellName(Quoted(ws))
    ensures ValidateSpec(alnum, SpellName(Quoted(ws))) == Accepted
    ensures SplitSpec(SpellName(Quoted(ws))) == Texts(ws)
  {
    SplitSpelled(ws);
    NormalForm(alnum, SpellName(ws));
    JoinIsSpelled(ws);
  }

  /** The same parts, all in brackets. */
  function Quoted(ws: seq<Written>): (r: seq<Written>)
    ensures |r| == |ws|
  {
    seq(|ws|, i requires 0 <= i < |ws| => InBrackets(ws[i].text))
  }

  lemma QuotedStep(ws: seq<Written>)
    requires ws != []
    ensures Quoted(ws) == [InBrackets(ws[0].text)] + Quoted(ws[1..])
  {
  }

  lemma {:induction false} JoinIsSpelled(ws: seq<Written>)
    requires ws != []
    ensures Join(Texts(ws)) == SpellName(Quoted(ws))
    decreases |ws|
  {
    hide Doubled;
    if |ws| > 1 {
      TextsStep(ws);
      QuotedStep(ws);
      assert Texts(ws)[1..] == Texts(ws[1..]) && Quoted(ws)[1..] == Quoted(ws[1..]);
      JoinIsSpelled(ws[1..]);
    }
  }

  lemma {:induction false} ScanBracketed(alnum: char -> bool, name: string, t: string)
    requires t == "" || t[0] == '.'
    ensures Scan(alnum, Doubled(name, ']') + "]" + t, true, 0) == Scan(alnum, t, false, 0)
  {
    var s := Doubled(name, ']') + "]" + t;
    if name == "" {
      assert s[1..] == t;
    } else {
      var tail := Doubled(name[1..], ']') + "]" + t;
      assert if name[0] == ']' then s[2..] == tail else s[1..] == tail;
      ScanBracketed(alnum, name[1..], t);
    }
  }

  lemma {:induction false} ScanJoin(alnum: char -> bool, parts: seq<string>)
    requires parts != []
    ensures Scan(alnum, Join(parts), false, 0) == Accepted
  {
    hide Doubled;
    var t := if |parts| == 1 then "" else "." + Join(parts[1..]);
    assert Join(parts)[1..] == Doubled(parts[0], ']') + "]" + t;
    ScanBracketed(alnum, parts[0], t);
    if |parts| > 1 {
      ScanJoin(alnum, parts[1..]);
    }
  }

  ghost predicate NoControls(s: string)
  {
    forall c :: c in s ==> !IsControl(c)
  }

  ghost predicate NoControlParts(parts: seq<string>)
  {
    forall p :: p in parts ==> NoControls(p)
  }

  lemma {:induction false} DoubledControls(s: string, c: char)
    requires NoControls(s) && !IsControl(c)
    ensures NoControls(Doubled(s, c))
  {
    if s != "" {
      DoubledControls(s[1..], c);
    }
  }

  lemma {:induction false} JoinControls(parts: seq<string>)
    requires parts != [] && NoControlParts(parts)
    ensures NoControls(Join(parts))
  {
    DoubledControls(parts[0], ']');
    if |parts| > 1 {
      JoinControls(parts[1..]);
    }
  }

  /** The canonical form of control-free parts passes the validator. */
  lemma JoinAccepted(alnum: char -> bool, parts: seq<string>)
    requires parts != [] && NoControlParts(parts)
    ensures ValidateSpec(alnum, Join(parts)) == Accepted
  {
    JoinControls(parts);
    ScanJoin(alnum, parts);
  }

  lemma {:induction false} SplitControls(s: string, inBracket: bool, parts: seq<string>)
    requires parts != [] && NoControls(s) && NoControlParts(parts)
    ensures NoControlParts(SplitFrom(s, inBracket, parts))
    decreases |s|
  {
    if s != "" {
      assert NoControlParts(Push(parts, s[0])) by {
        assert parts[|parts| - 1] in parts;
      }
      if inBracket {
        if s[0] == ']' && |s| > 1 && s[1] == ']' {
          SplitControls(s[2..], true, Push(parts, ']'));
        } else {
          SplitControls(s[1..], s[0] != ']', if s[0] == ']' then parts else Push(parts, s[0]));
        }
      } else {
        SplitControls(s[1..], s[0] == '[',
                      if s[0] == '[' then parts else if s[0] == '.' then parts + [""] else Push(parts, s[0]));
      }
    }
  }

  /**
   * Quoting the parts of an accepted identifier is a normal form: it is accepted, names the same
   * parts, and normalizing again changes nothing.
   */
  lemma NormalForm(alnum: char -> bool, ident: string)
    requires ValidateSpec(alnum, ident) == Accepted
    ensures var normal := Join(SplitSpec(ident));
      && ValidateSpec(alnum, normal) == Accepted
      && SplitSpec(normal) == SplitSpec(ident)
      && Join(SplitSpec(normal)) == normal
  {
    SplitControls(ident, false, [""]);
    JoinAccepted(alnum, SplitSpec(ident));
    SplitJoin(SplitSpec(ident));
  }

  // ------------------------------------------------------------- collation query

  /** The part counted from the end, empty if there is none. */
  function Part(parts: seq<string>, fromEnd: nat): string
  {
    if fromEnd < |parts| then parts[|parts| - 1 - fromEnd] else ""
  }

  function Literal(part: string): string
  {
    if part == "" then "" else Quote(Doubled(part, '\''))
  }

  function LiteralText(schema: string, table: string): string
  {
    Literal(schema) + "." + Literal(table)
  }

  function Catalog(parts: seq<string>): string
  {
    if Part(parts, 2) != "" then Quote(Part(parts, 2))
    else if Part(parts, 0) != "" && Part(parts, 0)[0] == '#' then "tempdb"
    else ""
  }

  function Call(text: string, sql2008: bool): string
  {
    (if sql2008 then "..sp_tablecollations_100 N'" else "..sp_tablecollations_90 N'") + (text + "'")
  }

  /** `table_collations_sql`; `sql2008` tells whether the server is SQL Server 2008 or later. */
  function TableCollationsSql(table: string, sql2008: bool): string
  {
    var parts := SplitSpec(table);
    "EXEC " + (Catalog(parts) + Call(LiteralText(Part(parts, 1), Part(parts, 0)), sql2008))
  }

  /** A part as the server sees it once the literal is read. */
  function Bracketed(part: string): string
  {
    if part == "" then "" else Quote(part)
  }

  lemma {:induction false} DoubledConcat(a: string, b: string, c: char)
    ensures Doubled(a + b, c) == Doubled(a, c) + Doubled(b, c)
  {
    if a == "" {
      assert a + b == b;
    } else {
      assert (a + b)[1..] == a[1..] + b;
      DoubledConcat(a[1..], b, c);
    }
  }

  /** Doubling two different characters commutes. */
  lemma {:induction false} DoubledCommute(s: string, c: char, d: char)
    requires c != d
    ensures Doubled(Doubled(s, c), d) == Doubled(Doubled(s, d), c)
  {
    if s != "" {
      var head := [s[0]];
      DoubledConcat(head, s[1..], c);
      DoubledConcat(head, s[1..], d);
      DoubledConcat(Doubled(head, c), Doubled(s[1..], c), d);
      DoubledConcat(Doubled(head, d), Doubled(s[1..], d), c);
      DoubledCommute(s[1..], c, d);
      DoubledOne(s[0], c, d);
    }
  }

  lemma DoubledOne(x: char, c: char, d: char)
    requires c != d
    ensures Doubled(Doubled([x], c), d) == Doubled(Doubled([x], d), c)
  {
  }

  lemma LiteralIsDoubled(part: string)
    ensures Literal(part) == Doubled(Bracketed(part), '\'')
  {
    if part != "" {
      DoubledCommute(part, '\'', ']');
      DoubledConcat("[" + Doubled(part, ']'), "]", '\'');
      DoubledConcat("[", Doubled(part, ']'), '\'');
    }
  }

  lemma SplitBracketedPair(schema: string, table: string)
    ensures SplitSpec(Bracketed(schema) + "." + Bracketed(table)) == [schema, table]
  {
    var tail := "." + Bracketed(table);
    var text := Bracketed(schema) + tail;
    assert text == Bracketed(schema) + "." + Bracketed(table);
    assert SplitFrom(text, false, [""]) == SplitFrom(tail, false, [schema]) by {
      if schema != "" {
        SplitQuoted(schema, tail, [""]);
        assert Extend([""], schema) == [schema] by { assert "" + schema == schema; }
      }
    }
    assert tail[1..] == Bracketed(table) && [schema] + [""] == [schema, ""];
    assert SplitFrom(tail, false, [schema]) == SplitFrom(Bracketed(table), false, [schema, ""]);
    if table != "" {
      SplitQuoted(table, "", [schema, ""]);
      assert Quote(table) + "" == Quote(table);
      assert Extend([schema, ""], table) == [schema, table] by { assert "" + table == table; }
    }
  }

  /** The parts of a table name, counted from its end; missing ones are empty. */
  datatype TableName = TableName(catalog: string, schema: string, table: string)

  function NameOf(parts: seq<string>): TableName
    requires parts != []
  {
    var n := |parts|;
    TableName(if n < 3 then "" else parts[n - 3], if n < 2 then "" else parts[n - 2], parts[n - 1])
  }

  /**
   * The collation query, read as the server reads it. Behind `EXEC` stands the catalog part in brackets,
   * or `tempdb` for a temporary table, or nothing; then the procedure; then one string literal that
   * ends with the query and whose text splits into exactly the schema and table parts.
   */
  lemma CollationQuery(table: string, sql2008: bool)
    ensures var name := NameOf(SplitSpec(table));
      var sql := TableCollationsSql(table, sql2008);
      var text := LiteralText(name.schema, name.table);
      var literal := ReadQuoted(text + "'", '\'', "");
      var call := (if sql2008 then "..sp_tablecollations_100 N'" else "..sp_tablecollations_90 N'") + (text + "'");
      && (if name.catalog != "" then
            |sql| > 6 && sql[..5] == "EXEC " && sql[5] == '[' && ReadQuoted(sql[6..], ']', "") == Token(name.catalog, call)
          else if name.table != "" && name.table[0] == '#' then sql == "EXEC " + ("tempdb" + call)
          else sql == "EXEC " + call)
      && literal.Token? && literal.rest == "" && SplitSpec(literal.text) == [name.schema, name.table]
  {
    var name := NameOf(SplitSpec(table));
    hide SplitSpec, ReadQuoted, LiteralText, TableCollationsSql;
    CollationLiteral(name.schema, name.table);
    CollationCall(table, sql2008);
  }

  lemma CollationCall(table: string, sql2008: bool)
    ensures var name := NameOf(SplitSpec(table));
      var sql := TableCollationsSql(table, sql2008);
      var call := Call(LiteralText(name.schema, name.table), sql2008);
      if name.catalog != "" then
        |sql| > 6 && sql[..5] == "EXEC " && sql[5] == '[' && ReadQuoted(sql[6..], ']', "") == Token(name.catalog, call)
      else if name.table != "" && name.table[0] == '#' then sql == "EXEC " + ("tempdb" + call)
      else sql == "EXEC " + call
  {
    var name := NameOf(SplitSpec(table));
    hide Doubled, SplitSpec, ReadQuoted, LiteralText, Call, Quote;
    var call := Call(LiteralText(name.schema, name.table), sql2008);
    CallStart(LiteralText(name.schema, name.table), sql2008);
    if name.catalog != "" {
      ReadCatalog("EXEC ", name.catalog, call);
    }
    assert "" + call == call;
  }

  lemma CallStart(text: string, sql2008: bool)
    ensures Call(text, sql2008) != "" && Call(text, sql2008)[0] == '.'
  {
  }

  lemma ReadCatalog(exec: string, catalog: string, call: string)
    requires |exec| == 5 && call != "" && call[0] == '.'
    ensures var sql := exec + (Quote(catalog) + call);
      |sql| > 6 && sql[..5] == exec && sql[5] == '[' && ReadQuoted(sql[6..], ']', "") == Token(catalog, call)
  {
    hide Doubled, ReadQuoted;
    var sql := exec + (Quote(catalog) + call);
    assert sql[6..] == Doubled(catalog, ']') + "]" + call;
    ReadQuotedDoubled(catalog, ']', call, "");
    assert "" + catalog == catalog;
  }

  lemma CollationLiteral(schema: string, name: string)
    ensures var literal := ReadQuoted(LiteralText(schema, name) + "'", '\'', "");
      literal.Token? && literal.rest == "" && SplitSpec(literal.text) == [schema, name]
  {
    hide Doubled, SplitSpec, ReadQuoted, Bracketed, Literal;
    var text := Bracketed(schema) + "." + Bracketed(name);
    LiteralIsDoubled(schema);
    LiteralIsDoubled(name);
    DoubledConcat(Bracketed(schema) + ".", Bracketed(name), '\'');
    DoubledConcat(Bracketed(schema), ".", '\'');
    DoubledDot();
    assert LiteralText(schema, name) + "'" == Doubled(text, '\'') + ['\''] + "";
    ReadQuotedDoubled(text, '\'', "", "");
    assert "" + text == text;
    SplitBracketedPair(schema, name);
  }

  lemma DoubledDot()
    ensures Doubled(".", '\'') == "."
  {
  }

  /** A catalog part is spliced in quoted: accepted by the validator, and naming that part alone. */
  lemma CollationCatalog(alnum: char -> bool, table: string)
    requires ValidateSpec(alnum, table) == Accepted
    ensures var parts := SplitSpec(table);
      var catalog := NameOf(parts).catalog;
      catalog != "" ==> ValidateSpec(alnum, Catalog(parts)) == Accepted && SplitSpec(Catalog(parts)) == [catalog]
  {
    var parts := SplitSpec(table);
    SplitControls(table, false, [""]);
    if Part(parts, 2) != "" {
      var catalog := [Part(parts, 2)];
      JoinAccepted(alnum, catalog);
      SplitJoin(catalog);
    }
  }
}
