/** Text in delimiters, where a doubled closing delimiter stands for itself. */
module Quoting {
  /** A token and what follows it, or nothing. */
  datatype Token = Token(text: string, rest: string) | NoToken

  function Doubled(s: string, c: char): string
  {
    if s == "" then "" else (if s[0] == c then [c, c] else [s[0]]) + Doubled(s[1..], c)
  }

  /** Reads behind an opening delimiter up to the first undoubled closing one. */
  function ReadQuoted(s: string, quote: char, acc: string): (r: Token)
    ensures r.Token? ==> |r.rest| < |s|
    decreases |s|
  {
    if s == "" then NoToken
    else if s[0] == quote then
      if |s| > 1 && s[1] == quote then ReadQuoted(s[2..], quote, acc + [quote]) else Token(acc, s[1..])
    else ReadQuoted(s[1..], quote, acc + [s[0]])
  }

  lemma {:induction false} ReadQuotedDoubled(v: string, quote: char, rest: string, acc: string)
    requires rest == "" || rest[0] != quote
    ensures ReadQuoted(Doubled(v, quote) + [quote] + rest, quote, acc) == Token(acc + v, rest)
  {
    var s := Doubled(v, quote) + [quote] + rest;
    if v == "" {
      assert s[1..] == rest && acc + v == acc;
    } else {
      var tail := Doubled(v[1..], quote) + [quote] + rest;
      assert s == (if v[0] == quote then [quote, quote] else [v[0]]) + tail;
      ReadQuotedDoubled(v[1..], quote, rest, acc + [v[0]]);
      assert acc + [v[0]] + v[1..] == acc + v;
    }
  }
}
