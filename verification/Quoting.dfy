/** Rust's `{:?}` rendering of a string, and reading a string literal back. */
module Quoting {
  import opened Wrappers
  import opened Bytes

  // ---- Hexadecimal ----

  function HexChar(d: nat): char
    requires d < 16
  {
    if d < 10 then '0' + d as char else 'a' + (d - 10) as char
  }

  function HexValue(c: char): Option<nat> {
    if '0' <= c <= '9' then Some(c as int - '0' as int)
    else if 'a' <= c <= 'f' then Some(c as int - 'a' as int + 10)
    else None
  }

  function Hex(n: nat): string {
    if n < 16 then [HexChar(n)] else Hex(n / 16) + [HexChar(n % 16)]
  }

  function ReadHex(s: string): Option<nat> {
    if s == "" then Some(0)
    else match (ReadHex(s[..|s| - 1]), HexValue(s[|s| - 1]))
      case (Some(high), Some(low)) => Some(16 * high + low)
      case _ => None
  }

  lemma HexDigitBack(d: nat)
    requires d < 16
    ensures HexValue(HexChar(d)) == Some(d) && HexChar(d) != '}' && HexChar(d) != '\n'
  {}

  lemma {:induction false} HexBack(n: nat)
    ensures ReadHex(Hex(n)) == Some(n) && '}' !in Hex(n) && '\n' !in Hex(n)
  {
    HexDigitBack(n % 16);
    if n >= 16 {
      HexBack(n / 16);
      assert Hex(n)[..|Hex(n)| - 1] == Hex(n / 16);
    } else {
      assert Hex(n)[..0] == "";
    }
  }

  // ---- One character ----

  /** Characters with an escape of their own, and the letter that follows the backslash. */
  function Short(c: char): Option<char> {
    if c == '"' then Some('"')
    else if c == '\\' then Some('\\')
    else if c == '\n' then Some('n')
    else if c == '\r' then Some('r')
    else if c == '\t' then Some('t')
    else if c == '\0' then Some('0')
    else None
  }

  function Long(letter: char): Option<char> {
    if letter == '"' then Some('"')
    else if letter == '\\' then Some('\\')
    else if letter == 'n' then Some('\n')
    else if letter == 'r' then Some('\r')
    else if letter == 't' then Some('\t')
    else if letter == '0' then Some('\0')
    else None
  }

  predicate IsScalar(n: nat) {
    n < 0xD800 || 0xE000 <= n < 0x11_0000
  }

  /** Which other characters are shown as they are is up to the Unicode tables. */
  function Escape(shown: char -> bool, c: char): string {
    if Short(c).Some? then ['\\', Short(c).value]
    else if shown(c) then [c]
    else ['\\', 'u', '{'] + Hex(c as int) + ['}']
  }

  /** The escapes, character by character; the braces hold the number in hexadecimal. */
  lemma Escapes(shown: char -> bool)
    ensures Escape(shown, '"') == "\\\"" && Escape(shown, '\\') == "\\\\"
    ensures Escape(shown, '\n') == "\\n" && Escape(shown, '\r') == "\\r" && Escape(shown, '\t') == "\\t"
    ensures Escape(shown, '\0') == "\\0"
    ensures !shown('\U{7F}') ==> Escape(shown, '\U{7F}') == "\\u{7f}"
    ensures forall c :: shown(c) && c !in ['"', '\\', '\n', '\r', '\t', '\0'] ==> Escape(shown, c) == [c]
  {
    assert Hex(0x7F) == Hex(7) + [HexChar(15)] == "7f";
  }

  /** The next character of a literal, and what follows it. */
  function ReadChar(t: string): Option<(char, string)> {
    if t == "" || t[0] == '"' then None
    else if t[0] != '\\' then Some((t[0], t[1..]))
    else if |t| < 2 then None
    else if t[1] != 'u' then
      match Long(t[1])
      case Some(c) => Some((c, t[2..]))
      case None => None
    else if |t| < 3 || t[2] != '{' then None
    else
      var body := t[3..];
      var close := IndexOf(body, '}');
      if close == |body| then None
      else
        match ReadHex(body[..close])
        case Some(n) => if IsScalar(n) then Some((n as char, body[close + 1..])) else None
        case None => None
  }

  lemma ReadCharShorter(t: string)
    ensures ReadChar(t).Some? ==> |ReadChar(t).value.1| < |t|
  {}

  lemma LongRead(c: char, rest: string)
    ensures ReadChar(['\\', 'u', '{'] + Hex(c as int) + ['}'] + rest) == Some((c, rest))
  {
    hide Hex, ReadHex, IndexOf;
    var hex := Hex(c as int);
    HexBack(c as int);
    LongSlices(hex, rest);
    IndexOfAppend(hex, ['}'] + rest, '}');
    assert IndexOf(['}'] + rest, '}') == 0 by { BraceFirst(rest); }
  }

  lemma LongSlices(hex: string, rest: string)
    ensures var t := ['\\', 'u', '{'] + hex + ['}'] + rest;
            && t[0] == '\\' && t[1] == 'u' && t[2] == '{' && t[3..] == hex + (['}'] + rest)
            && t[3..][..|hex|] == hex && t[3..][|hex| + 1..] == rest
  {
    assert (['\\', 'u', '{'] + hex + ['}'] + rest)[3..] == hex + (['}'] + rest);
  }

  lemma BraceFirst(rest: string)
    ensures IndexOf(['}'] + rest, '}') == 0
  {}

  lemma EscapeRead(shown: char -> bool, c: char, rest: string)
    ensures ReadChar(Escape(shown, c) + rest) == Some((c, rest))
    ensures Escape(shown, c) != "" && Escape(shown, c)[0] != '"' && '\n' !in Escape(shown, c)
  {
    hide Hex, Short, ReadChar;
    HexBack(c as int);
    LongRead(c, rest);
    if Short(c).Some? {
      ShortRead(c, rest);
    } else if shown(c) {
      PlainRead(c, rest);
    }
  }

  lemma ShortRead(c: char, rest: string)
    requires Short(c).Some?
    ensures ReadChar(['\\', Short(c).value] + rest) == Some((c, rest)) && Short(c).value != '\n'
  {
    hide ReadHex, IndexOf;
    assert (['\\', Short(c).value] + rest)[2..] == rest;
  }

  lemma PlainRead(c: char, rest: string)
    requires Short(c).None?
    ensures ReadChar([c] + rest) == Some((c, rest)) && c != '"' && c != '\n'
  {
    hide ReadHex, IndexOf;
    assert ([c] + rest)[1..] == rest;
  }

  // ---- A whole literal ----

  function EscapeAll(shown: char -> bool, s: string): string {
    if s == "" then "" else Escape(shown, s[0]) + EscapeAll(shown, s[1..])
  }

  function Quote(shown: char -> bool, s: string): string {
    "\"" + EscapeAll(shown, s) + "\""
  }

  /** Read characters up to the closing quote. */
  function ReadChars(t: string): Option<(string, string)>
    decreases |t|
  {
    if t == "" then None
    else if t[0] == '"' then Some(("", t[1..]))
    else
      match ReadChar(t)
      case None => None
      case Some((c, rest)) =>
        ReadCharShorter(t);
        match ReadChars(rest)
        case None => None
        case Some((s, after)) => Some(([c] + s, after))
  }

  /** A literal at the front of a text: the string it denotes, and what follows it. */
  function Unquote(t: string): Option<(string, string)> {
    if t == "" || t[0] != '"' then None else ReadChars(t[1..])
  }

  lemma {:induction false} EscapedRead(shown: char -> bool, s: string, rest: string)
    ensures ReadChars(EscapeAll(shown, s) + ("\"" + rest)) == Some((s, rest))
    ensures '\n' !in EscapeAll(shown, s)
  {
    hide Escape, ReadChar;
    var tail := "\"" + rest;
    if s == "" {
      assert EscapeAll(shown, s) + tail == tail && tail[1..] == rest;
    } else {
      var e, more := Escape(shown, s[0]), EscapeAll(shown, s[1..]);
      EscapedRead(shown, s[1..], rest);
      EscapeRead(shown, s[0], more + tail);
      assert EscapeAll(shown, s) + tail == e + (more + tail);
      assert s == [s[0]] + s[1..];
    }
  }

  /** A quoted string reads back as itself, whatever follows, and fits on one line. */
  lemma QuoteBack(shown: char -> bool, s: string, rest: string)
    ensures Unquote(Quote(shown, s) + rest) == Some((s, rest))
    ensures '\n' !in Quote(shown, s)
  {
    hide EscapeAll, ReadChars;
    EscapedRead(shown, s, rest);
    assert (Quote(shown, s) + rest)[1..] == EscapeAll(shown, s) + ("\"" + rest);
  }
}
