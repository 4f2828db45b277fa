/** The text itself: what `json.dumps` writes for every kind of value, said without the renderer. */
module JsonText {
  import opened Json
  import opened JsonStyles

  // ----- order and numbers

  /** The two texts are alike up to `k`, where the first ends or has the smaller code point. */
  predicate PartsAt(a: string, b: string, k: nat) {
    && k <= |a| && k < |b| && a[..k] == b[..k]
    && (k == |a| || a[k] < b[k])
  }

  lemma PartsOneLater(a: string, b: string, k: nat)
    requires a != [] && b != [] && a[0] == b[0]
    ensures PartsAt(a, b, k + 1) <==> PartsAt(a[1..], b[1..], k)
  {
    if k + 1 <= |a| && k + 1 <= |b| {
      assert a[..k + 1] == [a[0]] + a[1..][..k] && b[..k + 1] == [b[0]] + b[1..][..k];
    }
  }

  lemma PartsAfterStart(a: string, b: string, k: nat)
    requires PartsAt(a, b, k) && k > 0
    ensures a[0] == b[0]
  {
    assert a[..k][0] == a[0] && b[..k][0] == b[0];
  }

  /** Keys are compared code point by code point, a prefix before what it is a prefix of. */
  lemma {:induction false} BeforeIff(a: string, b: string)
    ensures Before(a, b) <==> exists k: nat :: PartsAt(a, b, k)
    decreases |a|
  {
    if a != [] && b != [] && a[0] == b[0] {
      BeforeIff(a[1..], b[1..]);
      if k: nat :| PartsAt(a[1..], b[1..], k) {
        PartsOneLater(a, b, k);
        assert PartsAt(a, b, k + 1);
      }
      if k: nat :| PartsAt(a, b, k) {
        assert k > 0;
        PartsOneLater(a, b, k - 1);
        assert PartsAt(a[1..], b[1..], k - 1);
      }
    } else {
      if Before(a, b) { assert PartsAt(a, b, 0); }
      if k: nat :| PartsAt(a, b, k) {
        if k > 0 { PartsAfterStart(a, b, k); }
      }
    }
  }

  lemma {:induction false} FirstIsNotZero(n: nat)
    requires n > 0
    ensures Digits(n)[0] != '0'
    decreases n
  {
    if n >= 10 { FirstIsNotZero(n / 10); }
  }

  /** The three constants by name, and an integer in decimal with its sign. */
  lemma AtomText(style: Style, i: int)
    ensures Render(style, JNull) == "null" && Render(style, JBool(true)) == "true" && Render(style, JBool(false)) == "false"
    ensures var s := Render(style, JInt(i));
      && s != [] && (s[0] == '-' <==> i < 0)
      && var digits := if i < 0 then s[1..] else s;
        Number(digits) == (if i < 0 then -i else i)
        && (forall k :: 0 <= k < |digits| ==> '0' <= digits[k] <= '9') && (|digits| > 1 ==> digits[0] != '0')
  {
    var n := if i < 0 then -i else i;
    NumberOfDigits(n);
    if n > 0 { FirstIsNotZero(n); }
  }

  // ----- strings

  /** The digit of `n` that counts `unit`s, in lower-case hexadecimal. */
  function HexDigitAt(n: nat, unit: nat): char
    requires unit > 0
  {
    "0123456789abcdef"[n / unit % 16]
  }

  /** `\uXXXX`, four lower-case hexadecimal digits. */
  function FourHex(n: nat): string {
    ['\\', 'u', HexDigitAt(n, 4096), HexDigitAt(n, 256), HexDigitAt(n, 16), HexDigitAt(n, 1)]
  }

  lemma HexDigitIs(d: nat)
    requires d < 16
    ensures HexDigit(d) == "0123456789abcdef"[d]
  {
  }

  lemma FourHexIs(n: nat)
    requires n < 0x1_0000
    ensures UnicodeEscape(n) == FourHex(n)
  {
    assert n / 0x1000 % 16 == n / 0x1000;
    HexDigitIs(n / 0x1000);
    HexDigitIs(n / 0x100 % 16);
    HexDigitIs(n / 0x10 % 16);
    HexDigitIs(n % 16);
  }

  /** The characters with an escape of their own. */
  const NAMED: string := "\"\\\n\r\t\U{8}\U{C}"
  const NAMES: string := "\"\\nrtbf"

  /** Digest text: a quote, a backslash and the control characters are escaped, the rest stands. */
  lemma UnicodeText(c: char)
    ensures forall i :: 0 <= i < 7 && c == NAMED[i] ==> EscapeUnicode(c) == ['\\', NAMES[i]]
    ensures c !in NAMED && c < ' ' ==> EscapeUnicode(c) == FourHex(c as nat)
    ensures c !in NAMED && c >= ' ' ==> EscapeUnicode(c) == [c]
  {
    NamedIff(c);
    if c < ' ' { FourHexIs(c as nat); }
  }

  lemma NamedIff(c: char)
    ensures c in NAMED <==> c in {'"', '\\', '\n', '\r', '\t', '\U{8}', '\U{C}'}
  {
    assert NAMED[0] == '"' && NAMED[1] == '\\' && NAMED[2] == '\n' && NAMED[3] == '\r';
    assert NAMED[4] == '\t' && NAMED[5] == '\U{8}' && NAMED[6] == '\U{C}';
  }

  /** Sort-key text: everything outside printable ASCII is escaped too. */
  lemma AsciiText(c: char)
    ensures forall i :: 0 <= i < 7 && c == NAMED[i] ==> EscapeAscii(c) == ['\\', NAMES[i]]
    ensures c !in NAMED && ' ' <= c <= '~' ==> EscapeAscii(c) == [c]
    ensures c !in NAMED && !(' ' <= c <= '~') && c as nat < 0x1_0000 ==> EscapeAscii(c) == FourHex(c as nat)
  {
    NamedIff(c);
    if c as nat < 0x1_0000 { FourHexIs(c as nat); }
  }

  /** What lies beyond the basic plane is escaped by the two surrogates that encode it. */
  lemma WideText(c: char)
    requires c as nat >= 0x1_0000
    ensures exists high: nat, low: nat ::
              && 0xD800 <= high < 0xDC00 <= low < 0xE000
              && c as nat == 0x1_0000 + (high - 0xD800) * 0x400 + (low - 0xDC00)
              && EscapeAscii(c) == FourHex(high) + FourHex(low)
  {
    var m := c as nat - 0x1_0000;
    var high: nat, low: nat := 0xD800 + m / 0x400, 0xDC00 + m % 0x400;
    assert EscapeAscii(c) == SurrogatePair(c as nat);
    FourHexIs(high);
    FourHexIs(low);
    assert m == (high - 0xD800) * 0x400 + (low - 0xDC00);
  }

  // ----- composite values

  /** Texts one after another with a separator between. */
  function Joined(texts: seq<string>, separator: string): string {
    if texts == [] then ""
    else if |texts| == 1 then texts[0]
    else Joined(texts[..|texts| - 1], separator) + separator + texts[|texts| - 1]
  }

  lemma {:induction false} JoinedFromFront(texts: seq<string>, separator: string)
    requires |texts| > 1
    ensures Joined(texts, separator) == texts[0] + (separator + Joined(texts[1..], separator))
    decreases |texts|
  {
    var n := |texts| - 1;
    var last := separator + texts[n];
    assert texts[1..][..n - 1] == texts[..n][1..] && texts[1..][n - 1] == texts[n];
    if n > 1 {
      JoinedFromFront(texts[..n], separator);
      var middle := Joined(texts[..n][1..], separator);
      assert texts[0] + (separator + middle) + separator + texts[n] == texts[0] + (separator + (middle + separator + texts[n]));
    } else {
      assert texts[..1] == [texts[0]] && texts[1..] == [texts[1]];
      assert texts[0] + separator + texts[1] == texts[0] + (separator + texts[1]);
    }
  }

  /** Putting one text in front of the others, each preceded by the separator. */
  lemma JoinedWithFirst(first: string, rest: seq<string>, separator: string)
    ensures Joined([first] + rest, separator) ==
            if rest == [] then first else first + (separator + Joined(rest, separator))
  {
    if rest != [] {
      JoinedFromFront([first] + rest, separator);
      assert ([first] + rest)[1..] == rest;
    } else {
      assert [first] + rest == [first];
    }
  }

  lemma {:induction false} EscapedIsConcatenation(escape: Escape, text: string)
    ensures Escaped(escape, text) == Joined(seq(|text|, i requires 0 <= i < |text| => escape(text[i])), "")
    decreases |text|
  {
    var texts := seq(|text|, i requires 0 <= i < |text| => escape(text[i]));
    if text != [] {
      var tail := text[1..];
      var rest := seq(|tail|, i requires 0 <= i < |tail| => escape(tail[i]));
      EscapedIsConcatenation(escape, tail);
      assert texts == [texts[0]] + rest;
      JoinedWithFirst(texts[0], rest, "");
      assert "" + Joined(rest, "") == Joined(rest, "");
    }
  }

  /** A string is written between quotes, its characters escaped one after another. */
  lemma StringIsQuoted(style: Style, text: string)
    ensures Render(style, JStr(text)) ==
            "\"" + Joined(seq(|text|, i requires 0 <= i < |text| => style.escape(text[i])), "") + "\""
  {
    EscapedIsConcatenation(style.escape, text);
  }

  ghost function RenderEach(style: Style, items: seq<Json>): seq<string> {
    seq(|items|, i requires 0 <= i < |items| => Render(style, items[i]))
  }

  lemma {:induction false} RenderItemsIsJoined(style: Style, items: seq<Json>)
    ensures RenderItems(style, items) ==
            if items == [] then "]" else "," + style.itemGap + Joined(RenderEach(style, items), "," + style.itemGap) + "]"
    decreases |items|
  {
    if items != [] {
      var gap := "," + style.itemGap;
      var first, rest := Render(style, items[0]), RenderEach(style, items[1..]);
      RenderItemsIsJoined(style, items[1..]);
      assert RenderEach(style, items) == [first] + rest;
      JoinedWithFirst(first, rest, gap);
      if rest != [] {
        Spread(gap, first, Joined(rest, gap), "]");
      }
    }
  }

  lemma Spread(gap: string, first: string, rest: string, end: string)
    ensures gap + first + (gap + rest + end) == gap + (first + (gap + rest)) + end
  {
  }

  /** A list is its items between brackets, with a comma and the style's gap between neighbours. */
  lemma ListIsJoined(style: Style, items: seq<Json>)
    ensures Render(style, JList(items)) == "[" + Joined(RenderEach(style, items), "," + style.itemGap) + "]"
  {
    if items != [] {
      var gap := "," + style.itemGap;
      var first, rest := Render(style, items[0]), RenderEach(style, items[1..]);
      RenderItemsIsJoined(style, items[1..]);
      assert RenderEach(style, items) == [first] + rest;
      JoinedWithFirst(first, rest, gap);
      if rest != [] {
        assert "[" + (first + (gap + Joined(rest, gap) + "]")) == "[" + (first + (gap + Joined(rest, gap))) + "]";
      }
    }
  }

  /** The keys of a mapping, each once and in ascending order. */
  ghost predicate ListsKeys(keys: seq<string>, fields: map<string, Json>) {
    && (forall k :: k in keys <==> k in fields)
    && forall i, j :: 0 <= i < j < |keys| ==> Before(keys[i], keys[j])
  }

  lemma AscendingRest(keys: seq<string>)
    requires keys != [] && forall i, j :: 0 <= i < j < |keys| ==> Before(keys[i], keys[j])
    ensures forall k :: k in keys[1..] <==> k in keys && k != keys[0]
  {
    assert keys == [keys[0]] + keys[1..];
    forall k | k in keys[1..] ensures k != keys[0] {
      var i :| 0 <= i < |keys[1..]| && keys[1..][i] == k;
      assert Before(keys[0], keys[i + 1]);
      BeforeIsTotal(k, k);
    }
  }

  lemma {:induction false} AscendingIsUnique(a: seq<string>, b: seq<string>)
    requires forall i, j :: 0 <= i < j < |a| ==> Before(a[i], a[j])
    requires forall i, j :: 0 <= i < j < |b| ==> Before(b[i], b[j])
    requires forall k :: k in a <==> k in b
    ensures a == b
    decreases |a|
  {
    assert b != [] ==> b[0] in a;
    if a != [] {
      assert a[0] in b && b[0] in a;
      var i :| 0 <= i < |b| && b[i] == a[0];
      var j :| 0 <= j < |a| && a[j] == b[0];
      BeforeIsTotal(a[0], b[0]);
      AscendingRest(a);
      AscendingRest(b);
      AscendingIsUnique(a[1..], b[1..]);
      assert a == [a[0]] + a[1..] && b == [b[0]] + b[1..];
    }
  }

  ghost function FieldEach(style: Style, fields: map<string, Json>, keys: seq<string>): seq<string>
    requires forall k :: k in keys ==> k in fields
  {
    seq(|keys|, i requires 0 <= i < |keys| =>
      assert keys[i] in keys; Render(style, JStr(keys[i])) + ":" + style.keyGap + Render(style, fields[keys[i]]))
  }

  lemma {:induction false} RenderFieldsIsJoined(style: Style, v: Json, keys: seq<string>)
    requires v.JObject? && forall k :: k in keys ==> k in v.fields
    ensures RenderFields(style, v, keys) ==
            if keys == [] then "}" else "," + style.itemGap + Joined(FieldEach(style, v.fields, keys), "," + style.itemGap) + "}"
    decreases |keys|
  {
    if keys != [] {
      assert keys[0] in keys;
      var gap := "," + style.itemGap;
      var first, rest := Field(style, v, keys[0]), FieldEach(style, v.fields, keys[1..]);
      RenderFieldsIsJoined(style, v, keys[1..]);
      assert FieldEach(style, v.fields, keys) == [first] + rest;
      JoinedWithFirst(first, rest, gap);
      if rest != [] {
        Spread(gap, first, Joined(rest, gap), "}");
      }
    }
  }

  /** An object is its fields between braces in ascending order of key, each the quoted key, a
      colon, the style's gap and the value. */
  lemma ObjectIsJoined(style: Style, fields: map<string, Json>, keys: seq<string>)
    requires ListsKeys(keys, fields)
    ensures Render(style, JObject(fields)) == "{" + Joined(FieldEach(style, fields, keys), "," + style.itemGap) + "}"
  {
    SortedAscends(fields.Keys);
    AscendingIsUnique(keys, Sorted(fields.Keys));
    FieldsAreJoined(style, JObject(fields), keys);
  }

  lemma FieldsAreJoined(style: Style, v: Json, keys: seq<string>)
    requires v.JObject? && keys == Sorted(v.fields.Keys)
    ensures Render(style, v) == "{" + Joined(FieldEach(style, v.fields, keys), "," + style.itemGap) + "}"
  {
    RenderFieldsIsJoined(style, v, keys);
    if keys != [] {
      OpensWithFirst(style, v, keys);
      var gap, body := "," + style.itemGap, Joined(FieldEach(style, v.fields, keys), "," + style.itemGap);
      Regroup(gap, body, "}");
      DropPrefix(gap, Field(style, v, keys[0]) + RenderFields(style, v, keys[1..]), body + "}");
    }
  }

  lemma OpensWithFirst(style: Style, v: Json, keys: seq<string>)
    requires v.JObject? && keys == Sorted(v.fields.Keys) && keys != []
    ensures keys[0] in keys && Render(style, v) == "{" + (Field(style, v, keys[0]) + RenderFields(style, v, keys[1..]))
    ensures RenderFields(style, v, keys) == ("," + style.itemGap) + (Field(style, v, keys[0]) + RenderFields(style, v, keys[1..]))
  {
    assert keys[0] in keys;
    var gap, field, rest := "," + style.itemGap, Field(style, v, keys[0]), RenderFields(style, v, keys[1..]);
    Regroup(gap, field, rest);
  }

  /** The digest text is packed; the sort-key text has a space after every comma and colon. */
  lemma BothLayouts(items: seq<Json>, fields: map<string, Json>, keys: seq<string>)
    requires ListsKeys(keys, fields)
    ensures Render(CANONICAL, JList(items)) == "[" + Joined(RenderEach(CANONICAL, items), ",") + "]"
    ensures Render(PLAIN, JList(items)) == "[" + Joined(RenderEach(PLAIN, items), ", ") + "]"
    ensures Render(CANONICAL, JObject(fields)) == "{" + Joined(PairEach(CANONICAL, fields, keys, ":"), ",") + "}"
    ensures Render(PLAIN, JObject(fields)) == "{" + Joined(PairEach(PLAIN, fields, keys, ": "), ", ") + "}"
  {
    ListIsJoined(CANONICAL, items);
    ListIsJoined(PLAIN, items);
    ObjectIsJoined(CANONICAL, fields, keys);
    ObjectIsJoined(PLAIN, fields, keys);
    assert "," + "" == "," && "," + " " == ", ";
    PairsAreFields(CANONICAL, fields, keys, ":");
    PairsAreFields(PLAIN, fields, keys, ": ");
  }

  /** Key, colon and value, for each key. */
  ghost function PairEach(style: Style, fields: map<string, Json>, keys: seq<string>, colon: string): seq<string>
    requires forall k :: k in keys ==> k in fields
  {
    seq(|keys|, i requires 0 <= i < |keys| => assert keys[i] in keys; Render(style, JStr(keys[i])) + (colon + Render(style, fields[keys[i]])))
  }

  lemma PairsAreFields(style: Style, fields: map<string, Json>, keys: seq<string>, colon: string)
    requires (forall k :: k in keys ==> k in fields) && ":" + style.keyGap == colon
    ensures FieldEach(style, fields, keys) == PairEach(style, fields, keys, colon)
  {
    forall i | 0 <= i < |keys| ensures FieldEach(style, fields, keys)[i] == PairEach(style, fields, keys, colon)[i] {
      assert keys[i] in keys;
      var key, value := Render(style, JStr(keys[i])), Render(style, fields[keys[i]]);
      assert key + ":" + style.keyGap + value == key + ((":" + style.keyGap) + value);
    }
  }
}
