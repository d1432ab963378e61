/** JSON text as Python's `json` module writes it with its default
    `ensure_ascii`: a string is quoted, the quote, the backslash and the
    control characters with a short form are escaped by a backslash, the rest
    of printable ASCII stays as it is, and every other character is written as
    `\uXXXX` in lower-case hexadecimal (a character beyond the Basic
    Multilingual Plane as its UTF-16 surrogate pair).  The reading of such a
    string back, as `json.load` does, is the partner of the writing. */
module Json {
  import opened Wrappers

  // ---------------------------------------------------------------------------
  // hexadecimal

  predicate IsHexDigit(c: char) {
    '0' <= c <= '9' || 'a' <= c <= 'f' || 'A' <= c <= 'F'
  }

  /** The lower-case digit for `d`. */
  function HexDigit(d: nat): (r: char)
    requires d < 16
    ensures IsHexDigit(r)
  {
    if d < 10 then ('0' as int + d) as char else ('a' as int + d - 10) as char
  }

  /** What a hexadecimal digit of either case stands for. */
  function HexValue(c: char): (v: nat)
    requires IsHexDigit(c)
    ensures v < 16
  {
    if '0' <= c <= '9' then c as int - '0' as int
    else if 'a' <= c <= 'f' then c as int - 'a' as int + 10
    else c as int - 'A' as int + 10
  }

  /** `n` as four lower-case hexadecimal digits, most significant first. */
  function Hex4(n: nat): (r: string)
    requires n < 0x10000
    ensures |r| == 4 && forall k :: 0 <= k < 4 ==> IsHexDigit(r[k])
  {
    [HexDigit(n / 16 / 16 / 16), HexDigit(n / 16 / 16 % 16), HexDigit(n / 16 % 16), HexDigit(n % 16)]
  }

  predicate IsHex4(h: string) {
    |h| == 4 && forall k :: 0 <= k < 4 ==> IsHexDigit(h[k])
  }

  function Hex4Value(h: string): (v: nat)
    requires IsHex4(h)
    ensures v < 0x10000
  {
    HexValue(h[0]) * 0x1000 + HexValue(h[1]) * 0x100 + HexValue(h[2]) * 16 + HexValue(h[3])
  }

  lemma HexDigitValue(d: nat)
    requires d < 16
    ensures HexValue(HexDigit(d)) == d
  {
  }

  /** Reading four digits back gives the number written. */
  lemma Hex4RoundTrip(n: nat)
    requires n < 0x10000
    ensures IsHex4(Hex4(n)) && Hex4Value(Hex4(n)) == n
  {
    var h := Hex4(n);
    var a, b, c := n / 16, n / 16 / 16, n / 16 / 16 / 16;
    HexDigitValue(c);
    HexDigitValue(b % 16);
    HexDigitValue(a % 16);
    HexDigitValue(n % 16);
    assert n == a * 16 + n % 16 && a == b * 16 + a % 16 && b == c * 16 + b % 16;
  }

  // ---------------------------------------------------------------------------
  // writing a string

  /** Printable ASCII: the characters written as they are (quote and
      backslash apart). */
  predicate IsPrintable(c: char) {
    ' ' <= c <= '~'
  }

  /** The escaped form of one character. */
  function EscapeChar(c: char): (r: string)
    ensures |r| > 0 && forall k :: 0 <= k < |r| ==> IsPrintable(r[k])
    ensures r == [c] <==> IsPrintable(c) && c != '"' && c != '\\'
    ensures r[0] == '\\' <==> !(IsPrintable(c) && c != '"' && c != '\\')
  {
    if c == '"' then "\\\""
    else if c == '\\' then "\\\\"
    else if c == '\n' then "\\n"
    else if c == '\r' then "\\r"
    else if c == '\t' then "\\t"
    else if c == '\U{8}' then "\\b"
    else if c == '\U{C}' then "\\f"
    else if IsPrintable(c) then [c]
    else if c as int < 0x10000 then "\\u" + Hex4(c as int)
    else
      var v := c as int - 0x10000;
      "\\u" + Hex4(0xD800 + v / 0x400) + "\\u" + Hex4(0xDC00 + v % 0x400)
  }

  /** A string's characters escaped one by one. */
  function Escape(s: string): (r: string)
    ensures |r| >= |s|
    ensures forall k :: 0 <= k < |r| ==> IsPrintable(r[k])
  {
    if |s| == 0 then "" else EscapeChar(s[0]) + Escape(s[1..])
  }

  /** A JSON string literal. */
  function Quote(s: string): (r: string)
    ensures |r| >= 2 && r[0] == '"' && r[|r| - 1] == '"'
    ensures forall k :: 0 <= k < |r| ==> IsPrintable(r[k])
    ensures '\n' !in r
  {
    "\"" + Escape(s) + "\""
  }

  // ---------------------------------------------------------------------------
  // reading a string back

  function Prepend(c: char, rest: Option<string>): Option<string> {
    match rest
    case None => None
    case Some(t) => Some([c] + t)
  }

  /** The text between the quotes of a JSON string, read back; `None` when it
      is not a well-formed string body (an unknown escape, a raw quote or
      control character, a lone surrogate). */
  function Unescape(t: string): (r: Option<string>)
    decreases |t|
  {
    if |t| == 0 then Some("")
    else if t[0] != '\\' then
      if t[0] == '"' || t[0] < ' ' then None else Prepend(t[0], Unescape(t[1..]))
    else if |t| < 2 then None
    else if t[1] == '"' then Prepend('"', Unescape(t[2..]))
    else if t[1] == '\\' then Prepend('\\', Unescape(t[2..]))
    else if t[1] == '/' then Prepend('/', Unescape(t[2..]))
    else if t[1] == 'n' then Prepend('\n', Unescape(t[2..]))
    else if t[1] == 'r' then Prepend('\r', Unescape(t[2..]))
    else if t[1] == 't' then Prepend('\t', Unescape(t[2..]))
    else if t[1] == 'b' then Prepend('\U{8}', Unescape(t[2..]))
    else if t[1] == 'f' then Prepend('\U{C}', Unescape(t[2..]))
    else if t[1] != 'u' || |t| < 6 || !IsHex4(t[2..6]) then None
    else
      var n := Hex4Value(t[2..6]);
      if n < 0xD800 || 0xE000 <= n then Prepend(n as char, Unescape(t[6..]))
      else if 0xDC00 <= n || |t| < 12 || t[6] != '\\' || t[7] != 'u' || !IsHex4(t[8..12]) then None
      else
        var m := Hex4Value(t[8..12]);
        if m < 0xDC00 || 0xE000 <= m then None
        else Prepend((0x10000 + (n - 0xD800) * 0x400 + (m - 0xDC00)) as char, Unescape(t[12..]))
  }

  /** The text of a JSON string literal, read back. */
  function Unquote(q: string): Option<string> {
    if |q| >= 2 && q[0] == '"' && q[|q| - 1] == '"' then Unescape(q[1..|q| - 1]) else None
  }

  /** Reading one escaped character back gives that character, whatever
      follows it. */
  lemma UnescapeChar(c: char, t: string)
    ensures Unescape(EscapeChar(c) + t) == Prepend(c, Unescape(t))
  {
    if IsPrintable(c) && c != '"' && c != '\\' {
      UnescapePlain(c, t);
    } else if c == '"' || c == '\\' || c == '\n' || c == '\r' || c == '\t' || c == '\U{8}' || c == '\U{C}' {
      UnescapeShort(c, t);
    } else if c as int < 0x10000 {
      UnescapeBasic(c, t);
    } else {
      UnescapeAstral(c, t);
    }
  }

  lemma UnescapePlain(c: char, t: string)
    requires IsPrintable(c) && c != '"' && c != '\\'
    ensures Unescape(EscapeChar(c) + t) == Prepend(c, Unescape(t))
  {
    assert (EscapeChar(c) + t)[1..] == t;
  }

  lemma UnescapeShort(c: char, t: string)
    requires c == '"' || c == '\\' || c == '\n' || c == '\r' || c == '\t' || c == '\U{8}' || c == '\U{C}'
    ensures Unescape(EscapeChar(c) + t) == Prepend(c, Unescape(t))
  {
    var u := EscapeChar(c) + t;
    assert u[0] == '\\' && u[2..] == t;
  }

  lemma UnescapeBasic(c: char, t: string)
    requires !IsPrintable(c) && c != '\n' && c != '\r' && c != '\t' && c != '\U{8}' && c != '\U{C}' && c as int < 0x10000
    ensures Unescape(EscapeChar(c) + t) == Prepend(c, Unescape(t))
  {
    var u := EscapeChar(c) + t;
    Hex4RoundTrip(c as int);
    assert u[0] == '\\' && u[1] == 'u' && u[2..6] == Hex4(c as int) && u[6..] == t;
  }

  lemma UnescapeAstral(c: char, t: string)
    requires c as int >= 0x10000
    ensures Unescape(EscapeChar(c) + t) == Prepend(c, Unescape(t))
  {
    var v := c as int - 0x10000;
    var hi, lo := 0xD800 + v / 0x400, 0xDC00 + v % 0x400;
    assert EscapeChar(c) == "\\u" + Hex4(hi) + "\\u" + Hex4(lo);
    UnescapePair(hi, lo, t);
    assert 0x10000 + (hi - 0xD800) * 0x400 + (lo - 0xDC00) == c as int;
  }

  /** A surrogate pair is read back as the one character it encodes. */
  lemma UnescapePair(hi: nat, lo: nat, t: string)
    requires 0xD800 <= hi < 0xDC00 && 0xDC00 <= lo < 0xE000
    ensures Unescape("\\u" + Hex4(hi) + "\\u" + Hex4(lo) + t)
      == Prepend((0x10000 + (hi - 0xD800) * 0x400 + (lo - 0xDC00)) as char, Unescape(t))
  {
    var u := "\\u" + Hex4(hi) + "\\u" + Hex4(lo) + t;
    Hex4RoundTrip(hi);
    Hex4RoundTrip(lo);
    assert u[0] == '\\' && u[1] == 'u' && u[2..6] == Hex4(hi);
    assert u[6] == '\\' && u[7] == 'u' && u[8..12] == Hex4(lo) && u[12..] == t;
  }

  /** Reading a written string back gives the string: escaping loses nothing. */
  lemma {:induction false} UnescapeEscape(s: string)
    ensures Unescape(Escape(s)) == Some(s)
  {
    if |s| > 0 {
      UnescapeChar(s[0], Escape(s[1..]));
      UnescapeEscape(s[1..]);
      assert [s[0]] + s[1..] == s;
    }
  }

  lemma UnquoteQuote(s: string)
    ensures Unquote(Quote(s)) == Some(s)
  {
    var q := Quote(s);
    assert q[1..|q| - 1] == Escape(s);
    UnescapeEscape(s);
  }

  /** Different strings are written differently. */
  lemma QuoteInjective(s: string, t: string)
    requires Quote(s) == Quote(t)
    ensures s == t
  {
    UnquoteQuote(s);
    UnquoteQuote(t);
  }

  // ---------------------------------------------------------------------------
  // numbers

  /** A natural number in decimal, as `json.dump` writes an `int`. */
  function Decimal(n: nat): (r: string)
    ensures |r| > 0 && forall k :: 0 <= k < |r| ==> '0' <= r[k] <= '9'
    ensures r[0] == '0' ==> n == 0
    ensures '\n' !in r
  {
    var d := ('0' as int + n % 10) as char;
    if n < 10 then [d] else Decimal(n / 10) + [d]
  }
}
