/** The two renderings in use: compact Unicode text for digests, and the ASCII text with default
    separators that set members are sorted by. Both determine the value they render. */
module JsonStyles {
  import opened Json

  function HexDigit(d: nat): char
    requires d < 16
  {
    if d < 10 then '0' + d as char else 'a' + (d - 10) as char
  }

  function HexOf(c: char): nat {
    if '0' <= c <= '9' then (c - '0') as nat else if 'a' <= c <= 'f' then (c - 'a') as nat + 10 else 0
  }

  /** `{0:04x}`. */
  function Hex4(n: nat): (s: string)
    requires n < 0x1_0000
    ensures |s| == 4
  {
    [HexDigit(n / 0x1000), HexDigit(n / 0x100 % 16), HexDigit(n / 0x10 % 16), HexDigit(n % 16)]
  }

  function Value4(s: string): nat
    requires |s| >= 4
  {
    HexOf(s[0]) * 0x1000 + HexOf(s[1]) * 0x100 + HexOf(s[2]) * 0x10 + HexOf(s[3])
  }

  lemma HexOfDigit(d: nat)
    requires d < 16
    ensures HexOf(HexDigit(d)) == d
  {
  }

  lemma FourDigits(n: nat)
    requires n < 0x1_0000
    ensures n / 0x1000 * 0x1000 + n / 0x100 % 16 * 0x100 + n / 0x10 % 16 * 0x10 + n % 16 == n
  {
    assert n / 0x100 == n / 0x1000 * 16 + n / 0x100 % 16;
    assert n / 0x10 == n / 0x100 * 16 + n / 0x10 % 16;
  }

  lemma Value4OfHex4(n: nat, rest: string)
    requires n < 0x1_0000
    ensures Value4(Hex4(n) + rest) == n
  {
    FourDigits(n);
    HexOfDigit(n / 0x1000);
    HexOfDigit(n / 0x100 % 16);
    HexOfDigit(n / 0x10 % 16);
    HexOfDigit(n % 16);
  }

  function Short(c: char): string {
    if c == '"' then "\\\""
    else if c == '\\' then "\\\\"
    else if c == '\n' then "\\n"
    else if c == '\r' then "\\r"
    else if c == '\t' then "\\t"
    else if c == '\U{8}' then "\\b"
    else if c == '\U{C}' then "\\f"
    else ""
  }

  /** `ensure_ascii=False`: only the quote, the backslash and control characters are escaped. */
  function EscapeUnicode(c: char): string {
    if Short(c) != "" then Short(c)
    else if c < ' ' then UnicodeEscape(c as nat)
    else [c]
  }

  function UnicodeEscape(n: nat): string
    requires n < 0x1_0000
  {
    "\\u" + Hex4(n)
  }

  /** The two escapes of a character beyond the basic plane. */
  function SurrogatePair(n: nat): string
    requires 0x1_0000 <= n < 0x11_0000
  {
    var m := n - 0x1_0000;
    UnicodeEscape(0xD800 + m / 0x400) + UnicodeEscape(0xDC00 + m % 0x400)
  }

  /** `ensure_ascii=True`: everything outside printable ASCII is escaped too, with a surrogate
      pair beyond the basic plane. */
  function EscapeAscii(c: char): string {
    if Short(c) != "" then Short(c)
    else if ' ' <= c <= '~' then [c]
    else if c as nat < 0x1_0000 then UnicodeEscape(c as nat)
    else SurrogatePair(c as nat)
  }

  function Scalar(n: nat): char {
    if n < 0xD800 || 0xE000 <= n < 0x11_0000 then n as char else ' '
  }

  /** The character of a four-digit code, or of two where the first is a high surrogate. */
  function FromCodes(code: nat, next: nat): char {
    if 0xD800 <= code < 0xDC00 && next >= 0xDC00 then Scalar(0x1_0000 + (code - 0xD800) * 0x400 + (next - 0xDC00))
    else Scalar(code)
  }

  /** The character an escaped text starts with. */
  function Unescape(text: string): char {
    if |text| < 2 then (if text == [] then ' ' else text[0])
    else if text[0] != '\\' then text[0]
    else if text[1] == 'n' then '\n'
    else if text[1] == 'r' then '\r'
    else if text[1] == 't' then '\t'
    else if text[1] == 'b' then '\U{8}'
    else if text[1] == 'f' then '\U{C}'
    else if text[1] == 'u' && |text| >= 6 then
      FromCodes(Value4(text[2..]), if |text| >= 12 then Value4(text[8..]) else 0)
    else text[1]
  }

  lemma UnescapeHex(n: nat, rest: string)
    requires n < 0xD800 || 0xE000 <= n < 0x1_0000
    ensures Unescape(UnicodeEscape(n) + rest) == n as char
  {
    var text := UnicodeEscape(n) + rest;
    assert text[2..] == Hex4(n) + rest;
    Value4OfHex4(n, rest);
  }

  lemma PairText(high: nat, low: nat, rest: string)
    requires high < 0x1_0000 && low < 0x1_0000
    ensures var text := UnicodeEscape(high) + UnicodeEscape(low) + rest;
      && |text| >= 12 && text[0] == '\\' && text[1] == 'u'
      && Value4(text[2..]) == high && Value4(text[8..]) == low
  {
    var text := UnicodeEscape(high) + UnicodeEscape(low) + rest;
    assert text[2..] == Hex4(high) + ("\\u" + Hex4(low) + rest);
    assert text[8..] == Hex4(low) + rest;
    Value4OfHex4(high, "\\u" + Hex4(low) + rest);
    Value4OfHex4(low, rest);
  }

  lemma PairIsCharacter(n: nat)
    requires 0x1_0000 <= n < 0x11_0000
    ensures var m := n - 0x1_0000;
      FromCodes(0xD800 + m / 0x400, 0xDC00 + m % 0x400) == n as char
  {
  }

  lemma UnescapePair(n: nat, rest: string)
    requires 0x1_0000 <= n < 0x11_0000
    ensures Unescape(SurrogatePair(n) + rest) == n as char
  {
    var m := n - 0x1_0000;
    PairText(0xD800 + m / 0x400, 0xDC00 + m % 0x400, rest);
    PairIsCharacter(n);
  }

  lemma UnescapeShort(c: char, rest: string)
    requires Short(c) != ""
    ensures Unescape(Short(c) + rest) == c
  {
  }

  lemma UnescapeUndoesUnicode(c: char, rest: string)
    ensures Unescape(EscapeUnicode(c) + rest) == c
  {
    if Short(c) != "" {
      UnescapeShort(c, rest);
    } else if c < ' ' {
      UnescapeHex(c as nat, rest);
    }
  }

  lemma UnescapePlain(c: char, rest: string)
    requires c != '\\'
    ensures Unescape([c] + rest) == c
  {
  }

  lemma UnescapeWide(c: char, rest: string)
    requires !(' ' <= c <= '~') && Short(c) == ""
    ensures Unescape(EscapeAscii(c) + rest) == c
  {
    var n := c as nat;
    if n < 0x1_0000 {
      UnescapeHex(n, rest);
    } else {
      UnescapePair(n, rest);
    }
  }

  lemma UnescapeUndoesAscii(c: char, rest: string)
    ensures Unescape(EscapeAscii(c) + rest) == c
  {
    if Short(c) != "" {
      UnescapeShort(c, rest);
    } else if ' ' <= c <= '~' {
      UnescapePlain(c, rest);
    } else {
      UnescapeWide(c, rest);
    }
  }

  /** `separators=(",", ":")`, `ensure_ascii=False`: the text every digest is taken over. */
  const CANONICAL: Style := Style(EscapeUnicode, "", "")

  /** `json.dumps` with its defaults: the text set members are sorted by. */
  const PLAIN: Style := Style(EscapeAscii, " ", " ")

  lemma BothEscapesAreCodes()
    ensures Clean(CANONICAL) && Clean(PLAIN)
  {
    forall c, d, s, t | EscapeUnicode(c) + s == EscapeUnicode(d) + t ensures c == d {
      UnescapeUndoesUnicode(c, s);
      UnescapeUndoesUnicode(d, t);
    }
    forall c, d, s, t | EscapeAscii(c) + s == EscapeAscii(d) + t ensures c == d {
      UnescapeUndoesAscii(c, s);
      UnescapeUndoesAscii(d, t);
    }
  }

  /** The digest text and the sort text each determine the value. */
  lemma TextDeterminesValue(a: Json, b: Json)
    ensures Render(CANONICAL, a) == Render(CANONICAL, b) <==> a == b
    ensures Render(PLAIN, a) == Render(PLAIN, b) <==> a == b
  {
    BothEscapesAreCodes();
    if Render(CANONICAL, a) == Render(CANONICAL, b) { RenderInjective(CANONICAL, a, b); }
    if Render(PLAIN, a) == Render(PLAIN, b) { RenderInjective(PLAIN, a, b); }
  }
}
