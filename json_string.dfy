/** `JSON.stringify` applied to a string, which the config writer uses to
    quote every value it emits, and a reader for the quoted form that undoes
    it. */
module JsonString {
  import opened Wrappers

  /** The lower-case hexadecimal digit for `d`. */
  function HexDigit(d: nat): (c: char)
    requires d < 16
    ensures '0' <= c <= '9' || 'a' <= c <= 'f'
  {
    if d < 10 then ('0' as int + d) as char else ('a' as int + d - 10) as char
  }

  /** The value of a hexadecimal digit of either case. */
  function HexValue(c: char): (v: Option<nat>)
    ensures v.Some? ==> v.value < 16
    ensures v.Some? <==> ('0' <= c <= '9' || 'a' <= c <= 'f' || 'A' <= c <= 'F')
  {
    if '0' <= c <= '9' then Some(c as int - '0' as int)
    else if 'a' <= c <= 'f' then Some(c as int - 'a' as int + 10)
    else if 'A' <= c <= 'F' then Some(c as int - 'A' as int + 10)
    else None
  }

  /** How `JSON.stringify` writes one character inside a string literal:
      the quote, the backslash and the control characters are escaped
      (those without a short escape as \u00xx), everything else is kept. */
  function EscapeChar(c: char): (r: string)
    ensures 1 <= |r| <= 6
    ensures |r| == 1 <==> r == [c]
    ensures |r| == 1 <==> (c != '"' && c != '\\' && c as int >= 0x20)
  {
    if c == '"' then ['\\', '"']
    else if c == '\\' then ['\\', '\\']
    else if c as int == 0x08 then ['\\', 'b']
    else if c as int == 0x0C then ['\\', 'f']
    else if c == '\n' then ['\\', 'n']
    else if c == '\r' then ['\\', 'r']
    else if c == '\t' then ['\\', 't']
    else if c as int < 0x20 then ['\\', 'u', '0', '0', HexDigit(c as int / 16), HexDigit(c as int % 16)]
    else [c]
  }

  /** The body of the literal: every character escaped. */
  function Escape(s: string): string {
    if s == [] then [] else EscapeChar(s[0]) + Escape(s[1..])
  }

  /** `JSON.stringify(s)` for a string `s`. */
  function Quote(s: string): (r: string)
    ensures |r| >= |s| + 2 && r[0] == '"' && r[|r| - 1] == '"'
  {
    EscapeLength(s);
    ['"'] + Escape(s) + ['"']
  }

  lemma {:induction false} EscapeLength(s: string)
    ensures |Escape(s)| >= |s|
  {
    if s != [] {
      EscapeLength(s[1..]);
    }
  }

  /** Reads the escape sequence that follows a backslash: the character it
      stands for and how many characters of `s` it takes. */
  function ReadEscape(s: string): (r: Option<(char, nat)>)
    ensures r.Some? ==> 1 <= r.value.1 <= |s|
  {
    if |s| == 0 then None
    else if s[0] == '"' || s[0] == '\\' || s[0] == '/' then Some((s[0], 1))
    else if s[0] == 'b' then Some((0x08 as char, 1))
    else if s[0] == 'f' then Some((0x0C as char, 1))
    else if s[0] == 'n' then Some(('\n', 1))
    else if s[0] == 'r' then Some(('\r', 1))
    else if s[0] == 't' then Some(('\t', 1))
    else if s[0] == 'u' && |s| >= 5 then
      match (HexValue(s[1]), HexValue(s[2]), HexValue(s[3]), HexValue(s[4]))
      case (Some(a), Some(b), Some(c), Some(d)) =>
        var v := ((a * 16 + b) * 16 + c) * 16 + d;
        if v < 0xD800 || 0xE000 <= v then Some((v as char, 5)) else None
      case _ => None
    else None
  }

  /** Reads the body of a string literal up to its closing quote: the string
      it denotes and what follows the closing quote. */
  function ReadBody(s: string): (r: Option<(string, string)>)
    ensures r.Some? ==> |r.value.1| < |s|
    decreases |s|
  {
    if |s| == 0 then None
    else if s[0] == '"' then Some(("", s[1..]))
    else if s[0] == '\\' then
      match ReadEscape(s[1..])
      case None => None
      case Some((c, n)) =>
        match ReadBody(s[1 + n..])
        case None => None
        case Some((v, rest)) => Some(([c] + v, rest))
    else if s[0] as int < 0x20 then None
    else
      match ReadBody(s[1..])
      case None => None
      case Some((v, rest)) => Some(([s[0]] + v, rest))
  }

  /** Reads a quoted string literal at the start of `s`. */
  function ReadQuoted(s: string): (r: Option<(string, string)>)
    ensures r.Some? ==> |r.value.1| < |s|
  {
    if |s| > 0 && s[0] == '"' then ReadBody(s[1..]) else None
  }

  /** Reading back one escaped character. */
  lemma ReadBodyEscapeChar(c: char, t: string)
    ensures ReadBody(EscapeChar(c) + t) ==
      match ReadBody(t)
      case None => None
      case Some((v, rest)) => Some(([c] + v, rest))
  {
    var e := EscapeChar(c);
    var s := e + t;
    assert s[|e|..] == t;
    if |e| == 1 {
      assert s[1..] == t;
    } else if c as int < 0x20 && c != '\n' && c != '\r' && c != '\t' && c as int != 0x08 && c as int != 0x0C {
      var hi, lo := c as int / 16, c as int % 16;
      assert s[1..][1] == '0' && s[1..][2] == '0';
      assert s[1..][3] == HexDigit(hi) && s[1..][4] == HexDigit(lo);
      assert HexValue(HexDigit(hi)) == Some(hi) && HexValue(HexDigit(lo)) == Some(lo);
      assert ((0 * 16 + 0) * 16 + hi) * 16 + lo == c as int;
      assert ReadEscape(s[1..]) == Some((c, 5));
    } else {
      assert ReadEscape(s[1..]) == Some((c, 1));
    }
  }

  /** `ReadBody` undoes `Escape`: the body followed by the closing quote reads
      back as the original string, and reading stops right after that quote. */
  lemma {:induction false} EscapeRoundTrip(s: string, rest: string)
    ensures ReadBody(Escape(s) + ['"'] + rest) == Some((s, rest))
  {
    if s == [] {
      assert Escape(s) + ['"'] + rest == ['"'] + rest;
    } else {
      var t := Escape(s[1..]) + ['"'] + rest;
      EscapeRoundTrip(s[1..], rest);
      assert Escape(s) + ['"'] + rest == EscapeChar(s[0]) + t;
      ReadBodyEscapeChar(s[0], t);
      assert [s[0]] + s[1..] == s;
    }
  }

  /** Round trip of `JSON.stringify` on strings: the quoted form reads back as
      the original string, whatever follows it. */
  lemma QuoteRoundTrip(s: string, rest: string)
    ensures ReadQuoted(Quote(s) + rest) == Some((s, rest))
  {
    EscapeRoundTrip(s, rest);
    assert (Quote(s) + rest)[1..] == Escape(s) + ['"'] + rest;
  }
}
