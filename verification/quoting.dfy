/** strconv.Quote as used in error messages, and the inverse reading that
    shows the quoted form loses nothing.

    Characters are quoted as Go quotes ASCII: a double quote and a backslash
    are escaped, printable ASCII is kept, the seven C control escapes are used
    where they exist and other control characters become `\xHH`. Characters
    beyond ASCII are kept verbatim. */
module Quoting {
  import opened Wrappers

  function HexDigit(d: nat): char
    requires d < 16
  {
    "0123456789abcdef"[d]
  }

  predicate IsHex(c: char) {
    '0' <= c <= '9' || 'a' <= c <= 'f'
  }

  function HexValue(c: char): (d: nat)
    requires IsHex(c)
    ensures d < 16
  {
    if c <= '9' then (c as int) - ('0' as int) else (c as int) - ('a' as int) + 10
  }

  /** The one-letter escape Go uses for a control character, if it has one. */
  function ControlEscape(c: char): Option<char> {
    match c as int
    case 7 => Some('a')
    case 8 => Some('b')
    case 12 => Some('f')
    case 10 => Some('n')
    case 13 => Some('r')
    case 9 => Some('t')
    case 11 => Some('v')
    case _ => None
  }

  /** The inverse of ControlEscape on escape letters. */
  function ControlOf(e: char): Option<char> {
    match e
    case 'a' => Some(7 as char)
    case 'b' => Some(8 as char)
    case 'f' => Some(12 as char)
    case 'n' => Some(10 as char)
    case 'r' => Some(13 as char)
    case 't' => Some(9 as char)
    case 'v' => Some(11 as char)
    case _ => None
  }

  function EscapeChar(c: char): string {
    if c == '"' || c == '\\' then ['\\', c]
    else if ' ' <= c <= '~' then [c]
    else if ControlEscape(c).Some? then ['\\', ControlEscape(c).value]
    else if c < ' ' || c as int == 0x7f then ['\\', 'x', HexDigit(c as int / 16), HexDigit(c as int % 16)]
    else [c]
  }

  function QuoteBody(s: string): string {
    if |s| == 0 then "" else EscapeChar(s[0]) + QuoteBody(s[1..])
  }

  /** Printable ASCII other than a double quote or a backslash needs no
      escape. */
  predicate IsPlain(c: char) {
    ' ' <= c <= '~' && c != '"' && c != '\\'
  }

  lemma {:induction false} QuoteBodyPlain(s: string)
    requires forall i :: 0 <= i < |s| ==> IsPlain(s[i])
    ensures QuoteBody(s) == s
    decreases |s|
  {
    if |s| > 0 {
      QuoteBodyPlain(s[1..]);
      assert [s[0]] + s[1..] == s;
    }
  }

  /** strconv.Quote. */
  function Quote(s: string): string {
    "\"" + QuoteBody(s) + "\""
  }

  /** Reads the inside of a quoted literal back; None on a bare double quote
      or a malformed escape. */
  function UnescapeBody(q: string): Option<string>
    decreases |q|
  {
    if |q| == 0 then Some("")
    else if q[0] == '"' then None
    else if q[0] != '\\' then Prepend(q[0], UnescapeBody(q[1..]))
    else if |q| < 2 then None
    else if q[1] == '\\' || q[1] == '"' then Prepend(q[1], UnescapeBody(q[2..]))
    else if ControlOf(q[1]).Some? then Prepend(ControlOf(q[1]).value, UnescapeBody(q[2..]))
    else if q[1] == 'x' && |q| >= 4 && IsHex(q[2]) && IsHex(q[3]) then
      Prepend((HexValue(q[2]) * 16 + HexValue(q[3])) as char, UnescapeBody(q[4..]))
    else None
  }

  function Prepend(c: char, r: Option<string>): Option<string> {
    match r
    case None => None
    case Some(s) => Some([c] + s)
  }

  function Unquote(q: string): Option<string> {
    if |q| >= 2 && q[0] == '"' && q[|q| - 1] == '"' then UnescapeBody(q[1..|q| - 1]) else None
  }

  lemma UnescapeOneChar(c: char, rest: string)
    ensures UnescapeBody(EscapeChar(c) + rest) == Prepend(c, UnescapeBody(rest))
  {
    var q := EscapeChar(c) + rest;
    if c == '"' || c == '\\' {
      assert q[2..] == rest;
    } else if ' ' <= c <= '~' {
      assert q[1..] == rest;
    } else if ControlEscape(c).Some? {
      UnescapeControl(c, rest);
    } else if c < ' ' || c as int == 0x7f {
      UnescapeHex(c, rest);
    } else {
      assert q[1..] == rest;
    }
  }

  lemma UnescapeControl(c: char, rest: string)
    requires ControlEscape(c).Some?
    ensures UnescapeBody(['\\', ControlEscape(c).value] + rest) == Prepend(c, UnescapeBody(rest))
  {
    var q := ['\\', ControlEscape(c).value] + rest;
    assert ControlOf(q[1]) == Some(c);
    assert q[2..] == rest;
  }

  lemma UnescapeHex(c: char, rest: string)
    requires c < ' ' || c as int == 0x7f
    ensures UnescapeBody(['\\', 'x', HexDigit(c as int / 16), HexDigit(c as int % 16)] + rest)
      == Prepend(c, UnescapeBody(rest))
  {
    var hi, lo := c as int / 16, c as int % 16;
    var q := ['\\', 'x', HexDigit(hi), HexDigit(lo)] + rest;
    assert HexValue(HexDigit(hi)) == hi;
    assert HexValue(HexDigit(lo)) == lo;
    assert ControlOf('x') == None;
    assert q[4..] == rest;
  }

  lemma {:induction false} UnescapeQuoteBody(s: string)
    ensures UnescapeBody(QuoteBody(s)) == Some(s)
  {
    if |s| > 0 {
      UnescapeOneChar(s[0], QuoteBody(s[1..]));
      UnescapeQuoteBody(s[1..]);
      assert [s[0]] + s[1..] == s;
    }
  }

  /** Quoting loses nothing: the quoted text reads back as the original. */
  lemma UnquoteQuote(s: string)
    ensures Unquote(Quote(s)) == Some(s)
  {
    var q := Quote(s);
    assert q[1..|q| - 1] == QuoteBody(s);
    UnescapeQuoteBody(s);
  }
}
