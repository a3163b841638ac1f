/** Go's `%q` verb on a string (strconv.Quote): the string between double
    quotes, with quote, backslash and unprintable characters escaped. The
    partner `Unquote` reads such a literal back, so a quoted key always
    identifies the key it came from. */
module GoQuote {
  import opened Results

  const HexDigits: string := "0123456789abcdef"

  /** Printable in Go's sense, for the first 256 code points: ASCII 0x20-0x7E
      and Latin-1 0xA1-0xFF except the soft hyphen 0xAD. Code points above
      0xFF are all taken as printable. */
  predicate IsPrint(c: char)
  {
    (' ' <= c <= '~') || ('\U{A1}' <= c && c != '\U{AD}')
  }

  /** The escape sequence strconv writes for one character inside a double-quoted literal. */
  function Escape(c: char): (e: string)
    ensures e == [c] <==> IsPrint(c) && c != '"' && c != '\\'
    ensures e != [c] ==> 2 <= |e| && e[0] == '\\'
  {
    if c == '"' || c == '\\' then ['\\', c]
    else if IsPrint(c) then [c]
    else if c == '\U{7}' then "\\a"
    else if c == '\U{8}' then "\\b"
    else if c == '\U{C}' then "\\f"
    else if c == '\n' then "\\n"
    else if c == '\r' then "\\r"
    else if c == '\t' then "\\t"
    else if c == '\U{B}' then "\\v"
    else if c < ' ' || c == '\U{7F}' then
      "\\x" + [HexDigits[c as int / 16], HexDigits[c as int % 16]]
    else
      "\\u00" + [HexDigits[c as int / 16], HexDigits[c as int % 16]]
  }

  /** The body of the quoted literal: each character's escape, in order. */
  function EscapeString(s: string): string
    decreases |s|
  {
    if |s| == 0 then "" else Escape(s[0]) + EscapeString(s[1..])
  }

  function Quote(s: string): (q: string)
    ensures 2 <= |q| && q[0] == '"' && q[|q| - 1] == '"'
  {
    "\"" + EscapeString(s) + "\""
  }

  /** A string `%q` leaves unchanged between its quotes. */
  predicate Plain(s: string)
  {
    forall i :: 0 <= i < |s| ==> Escape(s[i]) == [s[i]]
  }

  predicate IsHexDigit(d: char)
  {
    ('0' <= d <= '9') || ('a' <= d <= 'f') || ('A' <= d <= 'F')
  }

  function HexValue(d: char): (v: nat)
    requires IsHexDigit(d)
    ensures v < 16
  {
    if '0' <= d <= '9' then d as int - '0' as int
    else if 'a' <= d <= 'f' then d as int - 'a' as int + 10
    else d as int - 'A' as int + 10
  }

  function Cons(c: char, rest: Option<string>): Option<string>
  {
    if rest.Some? then Some([c] + rest.value) else None
  }

  /** The character a one-letter escape `\e` denotes, if `e` names one. */
  function NamedEscape(e: char): Option<char>
  {
    if e == '"' || e == '\\' then Some(e)
    else if e == 'a' then Some('\U{7}')
    else if e == 'b' then Some('\U{8}')
    else if e == 'f' then Some('\U{C}')
    else if e == 'n' then Some('\n')
    else if e == 'r' then Some('\r')
    else if e == 't' then Some('\t')
    else if e == 'v' then Some('\U{B}')
    else None
  }

  /** Reads the body of a double-quoted literal back into the string it denotes;
      `None` for a bare quote, a dangling backslash or an unknown escape. */
  function Unescape(s: string): Option<string>
    decreases |s|
  {
    if |s| == 0 then Some("")
    else if s[0] == '"' then None
    else if s[0] != '\\' then Cons(s[0], Unescape(s[1..]))
    else if |s| < 2 then None
    else if NamedEscape(s[1]).Some? then Cons(NamedEscape(s[1]).value, Unescape(s[2..]))
    else if s[1] == 'x' then
      if |s| >= 4 && IsHexDigit(s[2]) && IsHexDigit(s[3]) then
        var v := HexValue(s[2]) * 16 + HexValue(s[3]);
        if v < 0x80 then Cons(v as char, Unescape(s[4..])) else None
      else None
    else if s[1] == 'u' then
      if |s| >= 6 && IsHexDigit(s[2]) && IsHexDigit(s[3]) && IsHexDigit(s[4]) && IsHexDigit(s[5]) then
        var v := ((HexValue(s[2]) * 16 + HexValue(s[3])) * 16 + HexValue(s[4])) * 16 + HexValue(s[5]);
        if v < 0xD800 || 0xDFFF < v then Cons(v as char, Unescape(s[6..])) else None
      else None
    else None
  }

  function Unquote(q: string): Option<string>
  {
    if 2 <= |q| && q[0] == '"' && q[|q| - 1] == '"' then Unescape(q[1..|q| - 1]) else None
  }

  lemma HexDigitValue(n: nat)
    requires n < 16
    ensures IsHexDigit(HexDigits[n]) && HexValue(HexDigits[n]) == n
  {
  }

  lemma UnescapeNamed(c: char, rest: string)
    requires !IsPrint(c) || c == '"' || c == '\\'
    requires c == '"' || c == '\\' || c == '\U{7}' || c == '\U{8}' || c == '\U{C}' || c == '\n' || c == '\r' || c == '\t' || c == '\U{B}'
    ensures Unescape(Escape(c) + rest) == Cons(c, Unescape(rest))
  {
    var s := Escape(c) + rest;
    assert |Escape(c)| == 2 && s[0] == '\\' && NamedEscape(s[1]) == Some(c);
    assert s[2..] == rest;
  }

  lemma UnescapeHex(c: char, rest: string)
    requires c < ' ' || c == '\U{7F}'
    requires !(c == '\U{7}' || c == '\U{8}' || c == '\U{C}' || c == '\n' || c == '\r' || c == '\t' || c == '\U{B}')
    ensures Unescape(Escape(c) + rest) == Cons(c, Unescape(rest))
  {
    var s := Escape(c) + rest;
    HexDigitValue(c as int / 16);
    HexDigitValue(c as int % 16);
    assert s[..4] == "\\x" + [HexDigits[c as int / 16], HexDigits[c as int % 16]];
    assert NamedEscape(s[1]).None?;
    assert s[4..] == rest;
  }

  lemma UnescapeLatin(c: char, rest: string)
    requires !IsPrint(c) && ' ' <= c && c != '\U{7F}'
    ensures Unescape(Escape(c) + rest) == Cons(c, Unescape(rest))
  {
    var s := Escape(c) + rest;
    HexDigitValue(c as int / 16);
    HexDigitValue(c as int % 16);
    HexDigitValue(0);
    assert s[..6] == "\\u00" + [HexDigits[c as int / 16], HexDigits[c as int % 16]];
    assert NamedEscape(s[1]).None?;
    assert s[6..] == rest;
  }

  /** Reading back one escape yields the escaped character, whatever follows. */
  lemma UnescapeEscape(c: char, rest: string)
    ensures Unescape(Escape(c) + rest) == Cons(c, Unescape(rest))
  {
    if c == '"' || c == '\\' {
      UnescapeNamed(c, rest);
    } else if IsPrint(c) {
      assert (Escape(c) + rest)[1..] == rest;
    } else if c == '\U{7}' || c == '\U{8}' || c == '\U{C}' || c == '\n' || c == '\r' || c == '\t' || c == '\U{B}' {
      UnescapeNamed(c, rest);
    } else if c < ' ' || c == '\U{7F}' {
      UnescapeHex(c, rest);
    } else {
      UnescapeLatin(c, rest);
    }
  }

  lemma {:induction false} UnescapeEscapeString(s: string)
    ensures Unescape(EscapeString(s)) == Some(s)
    decreases |s|
  {
    if |s| != 0 {
      UnescapeEscapeString(s[1..]);
      UnescapeEscape(s[0], EscapeString(s[1..]));
      assert [s[0]] + s[1..] == s;
    }
  }

  /** Round trip: the quoted form of a string reads back as that string. */
  lemma UnquoteQuote(s: string)
    ensures Unquote(Quote(s)) == Some(s)
  {
    var q := Quote(s);
    assert q[1..|q| - 1] == EscapeString(s);
    UnescapeEscapeString(s);
  }

  /** Quoting is injective: different strings never share a quoted form. */
  lemma QuoteInjective(s: string, t: string)
    ensures Quote(s) == Quote(t) <==> s == t
  {
    if Quote(s) == Quote(t) {
      UnquoteQuote(s);
      UnquoteQuote(t);
    }
  }

  /** A plain string appears verbatim between the quotes. */
  lemma {:induction false} PlainEscapesToItself(s: string)
    requires Plain(s)
    ensures EscapeString(s) == s
    decreases |s|
  {
    if |s| != 0 {
      assert Plain(s[1..]) by {
        forall i | 0 <= i < |s[1..]| ensures Escape(s[1..][i]) == [s[1..][i]] {
          assert s[1..][i] == s[i + 1];
        }
      }
      PlainEscapesToItself(s[1..]);
      assert [s[0]] + s[1..] == s;
    }
  }
}
