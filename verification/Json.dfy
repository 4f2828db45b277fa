/** JSON data and the one text it is rendered to: sorted keys, fixed separators, escaped strings.
    The rendering is proved injective for every escape that is a prefix code, and both escapes in
    use are proved to be one. */
module Json {

  datatype Json =
    | JNull
    | JBool(flag: bool)
    | JInt(number: int)
    | JStr(text: string)
    | JList(items: seq<Json>)
    | JObject(fields: map<string, Json>)

  // ----- strings in code point order

  /** Python's order on strings. */
  predicate Before(a: string, b: string) {
    b != [] && (a == [] || a[0] < b[0] || (a[0] == b[0] && Before(a[1..], b[1..])))
  }

  lemma {:induction false} BeforeIsTotal(a: string, b: string)
    ensures a == b || Before(a, b) || Before(b, a)
    ensures !(Before(a, b) && Before(b, a)) && !Before(a, a)
    decreases a
  {
    if a != [] && b != [] {
      BeforeIsTotal(a[1..], b[1..]);
      BeforeIsTotal(a[1..], a[1..]);
      assert a == [a[0]] + a[1..] && b == [b[0]] + b[1..];
    } else if a != [] {
      BeforeIsTotal(a[1..], a[1..]);
    }
  }

  lemma {:induction false} BeforeIsTransitive(a: string, b: string, c: string)
    requires Before(a, b) && Before(b, c)
    ensures Before(a, c)
    decreases a
  {
    if a != [] && a[0] == b[0] == c[0] {
      BeforeIsTransitive(a[1..], b[1..], c[1..]);
    }
  }

  predicate IsFirst(a: string, s: set<string>) {
    a in s && forall b :: b in s && b != a ==> Before(a, b)
  }

  lemma {:induction false} FirstExists(s: set<string>)
    requires s != {}
    ensures exists a :: IsFirst(a, s)
    decreases |s|
  {
    var x :| x in s;
    var rest := s - {x};
    if rest == {} {
      assert s == {x};
      assert IsFirst(x, s);
    } else {
      FirstExists(rest);
      var m :| IsFirst(m, rest);
      BeforeIsTotal(x, m);
      var first := if Before(x, m) then x else m;
      forall b | b in s && b != first ensures Before(first, b) {
        if b != x && b != m && first == x { BeforeIsTransitive(x, m, b); }
      }
      assert IsFirst(first, s);
    }
  }

  lemma FirstIsUnique(s: set<string>)
    ensures forall a, b :: IsFirst(a, s) && IsFirst(b, s) ==> a == b
  {
    forall a, b | IsFirst(a, s) && IsFirst(b, s) ensures a == b {
      BeforeIsTotal(a, b);
    }
  }

  /** `sorted` over distinct strings. */
  function Sorted(s: set<string>): (keys: seq<string>)
    ensures forall k :: k in keys <==> k in s
    decreases |s|
  {
    if s == {} then []
    else
      FirstExists(s);
      FirstIsUnique(s);
      var a :| a in s && IsFirst(a, s);
      [a] + Sorted(s - {a})
  }

  lemma {:induction false} SortedAscends(s: set<string>)
    ensures forall i, j :: 0 <= i < j < |Sorted(s)| ==> Before(Sorted(s)[i], Sorted(s)[j])
    decreases |s|
  {
    if s != {} {
      FirstExists(s);
      var a :| IsFirst(a, s) && Sorted(s) == [a] + Sorted(s - {a});
      SortedAscends(s - {a});
      var rest := Sorted(s - {a});
      forall j | 0 <= j < |rest| ensures Before(a, rest[j]) {
        assert rest[j] in rest;
      }
    }
  }

  // ----- numbers

  function Digit(d: nat): char
    requires d < 10
  {
    '0' + d as char
  }

  predicate IsDigit(c: char) {
    '0' <= c <= '9'
  }

  function Digits(n: nat): (s: string)
    ensures s != [] && forall i :: 0 <= i < |s| ==> IsDigit(s[i])
  {
    if n < 10 then [Digit(n)] else Digits(n / 10) + [Digit(n % 10)]
  }

  /** The number a string of digits spells. */
  function Number(s: string): nat {
    if s == [] then 0 else Number(s[..|s| - 1]) * 10 + (if IsDigit(s[|s| - 1]) then (s[|s| - 1] - '0') as nat else 0)
  }

  lemma {:induction false} NumberOfDigits(n: nat)
    ensures Number(Digits(n)) == n
    decreases n
  {
    if n < 10 {
      assert Digits(n)[..0] == [];
    } else {
      NumberOfDigits(n / 10);
      assert Digits(n)[..|Digits(n)| - 1] == Digits(n / 10);
    }
  }

  function IntText(i: int): string {
    if i < 0 then "-" + Digits(-i) else Digits(i)
  }

  /** What may follow a value: nothing, or a character that cannot continue a number. */
  predicate Stops(s: string) {
    s == [] || !IsDigit(s[0])
  }

  /** Two digit strings followed by non-digits that spell the same text are the same. */
  lemma {:induction false} DigitsEnd(a: string, b: string, s: string, t: string)
    requires a + s == b + t && Stops(s) && Stops(t)
    requires (forall i :: 0 <= i < |a| ==> IsDigit(a[i])) && (forall i :: 0 <= i < |b| ==> IsDigit(b[i]))
    ensures a == b && s == t
  {
    assert a != [] ==> (a + s)[0] == a[0];
    assert b != [] ==> (b + t)[0] == b[0];
    assert a == [] ==> a + s == s;
    assert b == [] ==> b + t == t;
    if a != [] && b != [] {
      assert (a + s)[1..] == a[1..] + s && (b + t)[1..] == b[1..] + t;
      DigitsEnd(a[1..], b[1..], s, t);
      assert a == [a[0]] + a[1..] && b == [b[0]] + b[1..];
    }
  }

  lemma DigitsUnique(m: nat, n: nat, s: string, t: string)
    requires Digits(m) + s == Digits(n) + t && Stops(s) && Stops(t)
    ensures m == n && s == t
  {
    DigitsEnd(Digits(m), Digits(n), s, t);
    NumberOfDigits(m);
    NumberOfDigits(n);
  }

  lemma IntTextUnique(i: int, j: int, s: string, t: string)
    requires IntText(i) + s == IntText(j) + t && Stops(s) && Stops(t)
    ensures i == j && s == t
  {
    assert (IntText(i) + s)[0] == IntText(i)[0] && (IntText(j) + t)[0] == IntText(j)[0];
    assert i < 0 <==> j < 0;
    if i < 0 {
      Regroup("-", Digits(-i), s);
      Regroup("-", Digits(-j), t);
      DropPrefix("-", Digits(-i) + s, Digits(-j) + t);
      DigitsUnique(-i, -j, s, t);
    } else {
      DigitsUnique(i, j, s, t);
    }
  }

  // ----- strings

  /** How one character is written between quotes. */
  type Escape = char -> string

  /** A prefix code that leaves the closing quote recognisable. */
  ghost predicate IsCode(escape: Escape) {
    && (forall c :: escape(c) != [] && escape(c)[0] != '"')
    && (forall c, d, s, t :: escape(c) + s == escape(d) + t ==> c == d)
  }

  function Escaped(escape: Escape, text: string): string {
    if text == [] then [] else escape(text[0]) + Escaped(escape, text[1..])
  }

  function Quoted(escape: Escape, text: string): string {
    "\"" + Escaped(escape, text) + "\""
  }

  lemma {:induction false} EscapedUnique(escape: Escape, a: string, b: string, s: string, t: string)
    requires IsCode(escape) && Escaped(escape, a) + "\"" + s == Escaped(escape, b) + "\"" + t
    ensures a == b && s == t
    decreases |a| + |b|
  {
    var left, right := Escaped(escape, a) + "\"" + s, Escaped(escape, b) + "\"" + t;
    assert left[0] == if a == [] then '"' else escape(a[0])[0];
    assert right[0] == if b == [] then '"' else escape(b[0])[0];
    if a == [] && b == [] {
      assert left[1..] == s && right[1..] == t;
    }
    if a != [] && b != [] {
      var restA, restB := Escaped(escape, a[1..]) + "\"" + s, Escaped(escape, b[1..]) + "\"" + t;
      assert left == escape(a[0]) + restA && right == escape(b[0]) + restB;
      assert restA == left[|escape(a[0])|..] && restB == right[|escape(b[0])|..];
      EscapedUnique(escape, a[1..], b[1..], s, t);
      assert a == [a[0]] + a[1..] && b == [b[0]] + b[1..];
    }
  }

  lemma QuotedUnique(escape: Escape, a: string, b: string, s: string, t: string)
    requires IsCode(escape) && Quoted(escape, a) + s == Quoted(escape, b) + t
    ensures a == b && s == t
  {
    assert (Quoted(escape, a) + s)[1..] == Escaped(escape, a) + "\"" + s;
    assert (Quoted(escape, b) + t)[1..] == Escaped(escape, b) + "\"" + t;
    EscapedUnique(escape, a, b, s, t);
  }

  // ----- values

  /** How a document is laid out. The separators start with the comma and the colon. */
  datatype Style = Style(escape: Escape, itemGap: string, keyGap: string)

  function Render(style: Style, v: Json): string
    decreases v, 2
  {
    match v
    case JNull => "null"
    case JBool(flag) => if flag then "true" else "false"
    case JInt(number) => IntText(number)
    case JStr(text) => Quoted(style.escape, text)
    case JList(items) => "[" + if items == [] then "]" else Render(style, items[0]) + RenderItems(style, items[1..])
    case JObject(fields) =>
      var keys := Sorted(fields.Keys);
      "{" + if keys == [] then "}" else Field(style, v, keys[0]) + RenderFields(style, v, keys[1..])
  }

  function RenderItems(style: Style, items: seq<Json>): string
    decreases items, 1
  {
    if items == [] then "]" else "," + style.itemGap + Render(style, items[0]) + RenderItems(style, items[1..])
  }

  function Field(style: Style, v: Json, key: string): string
    requires v.JObject? && key in v.fields
    decreases v, 0
  {
    Quoted(style.escape, key) + ":" + style.keyGap + Render(style, v.fields[key])
  }

  function RenderFields(style: Style, v: Json, keys: seq<string>): string
    requires v.JObject? && forall k :: k in keys ==> k in v.fields
    decreases v, 1, keys
  {
    if keys == [] then "}"
    else
      assert keys[0] in keys;
      "," + style.itemGap + Field(style, v, keys[0]) + RenderFields(style, v, keys[1..])
  }

  ghost predicate Clean(style: Style) {
    IsCode(style.escape)
  }

  /** The first character of a value names its kind, and is never a closing bracket. */
  function Lead(v: Json): char {
    match v
    case JNull => 'n'
    case JBool(flag) => if flag then 't' else 'f'
    case JInt(number) => if number < 0 then '-' else '0'
    case JStr(_) => '"'
    case JList(_) => '['
    case JObject(_) => '{'
  }

  predicate LeadsWith(text: string, lead: char) {
    text != [] && (if lead == '0' then IsDigit(text[0]) else text[0] == lead)
  }

  lemma RenderLeads(style: Style, v: Json, s: string)
    ensures LeadsWith(Render(style, v) + s, Lead(v))
  {
  }

  lemma SameLead(style: Style, a: Json, b: Json, s: string, t: string)
    requires Render(style, a) + s == Render(style, b) + t
    ensures Lead(a) == Lead(b)
  {
    RenderLeads(style, a, s);
    RenderLeads(style, b, t);
  }

  /** A rendering can be read back in only one way: equal texts, each followed by something that
      cannot continue a number, come from equal values followed by equal remainders. */
  lemma {:induction false} RenderUnique(style: Style, a: Json, b: Json, s: string, t: string)
    requires Clean(style) && Render(style, a) + s == Render(style, b) + t && Stops(s) && Stops(t)
    ensures a == b && s == t
    decreases a, 3
  {
    SameLead(style, a, b, s, t);
    match a
    case JNull =>
      assert s == ("null" + s)[4..] && t == ("null" + t)[4..];
    case JBool(flag) =>
      var n := if flag then 4 else 5;
      assert s == (Render(style, a) + s)[n..] && t == (Render(style, b) + t)[n..];
    case JInt(number) =>
      IntTextUnique(number, b.number, s, t);
    case JStr(text) =>
      QuotedUnique(style.escape, text, b.text, s, t);
    case JList(items) =>
      ListUnique(style, a, b, s, t);
    case JObject(fields) =>
      ObjectUnique(style, a, b, s, t);
  }

  lemma DropPrefix(prefix: string, a: string, b: string)
    requires prefix + a == prefix + b
    ensures a == b
  {
    assert a == (prefix + a)[|prefix|..] && b == (prefix + b)[|prefix|..];
  }

  lemma Regroup(a: string, b: string, c: string)
    ensures a + b + c == a + (b + c)
  {
  }

  /** What follows the opening bracket of a list, up to and past its end. */
  ghost function ListBody(style: Style, items: seq<Json>, s: string): string {
    if items == [] then "]" + s else Render(style, items[0]) + (RenderItems(style, items[1..]) + s)
  }

  lemma ListText(style: Style, a: Json, s: string)
    requires a.JList?
    ensures Render(style, a) + s == "[" + ListBody(style, a.items, s)
    ensures LeadsWith(ListBody(style, a.items, s), if a.items == [] then ']' else Lead(a.items[0]))
  {
    if a.items != [] {
      RenderLeads(style, a.items[0], RenderItems(style, a.items[1..]) + s);
      Regroup(Render(style, a.items[0]), RenderItems(style, a.items[1..]), s);
      Regroup("[", Render(style, a.items[0]) + RenderItems(style, a.items[1..]), s);
    }
  }

  lemma {:induction false} ListUnique(style: Style, a: Json, b: Json, s: string, t: string)
    requires a.JList? && b.JList?
    requires Clean(style) && Render(style, a) + s == Render(style, b) + t && Stops(s) && Stops(t)
    ensures a == b && s == t
    decreases a, 1
  {
    ListText(style, a, s);
    ListText(style, b, t);
    DropPrefix("[", ListBody(style, a.items, s), ListBody(style, b.items, t));
    if a.items == [] && b.items == [] {
      DropPrefix("]", s, t);
    }
    if a.items != [] && b.items != [] {
      RenderUnique(style, a.items[0], b.items[0], RenderItems(style, a.items[1..]) + s, RenderItems(style, b.items[1..]) + t);
      ItemsUnique(style, a.items[1..], b.items[1..], s, t);
      assert a.items == [a.items[0]] + a.items[1..] && b.items == [b.items[0]] + b.items[1..];
    }
  }

  lemma ItemsText(style: Style, xs: seq<Json>, s: string)
    ensures RenderItems(style, xs) + s ==
            if xs == [] then "]" + s else ("," + style.itemGap) + (Render(style, xs[0]) + (RenderItems(style, xs[1..]) + s))
  {
    if xs != [] {
      var gap, head, rest := "," + style.itemGap, Render(style, xs[0]), RenderItems(style, xs[1..]);
      Regroup(gap, head, rest);
      Regroup(gap, head + rest, s);
      Regroup(head, rest, s);
    }
  }

  lemma {:induction false} ItemsUnique(style: Style, xs: seq<Json>, ys: seq<Json>, s: string, t: string)
    requires Clean(style) && RenderItems(style, xs) + s == RenderItems(style, ys) + t
    requires Stops(s) && Stops(t)
    ensures xs == ys && s == t
    decreases xs, 0
  {
    ItemsText(style, xs, s);
    ItemsText(style, ys, t);
    assert (RenderItems(style, xs) + s)[0] == (if xs == [] then ']' else ',');
    assert (RenderItems(style, ys) + t)[0] == (if ys == [] then ']' else ',');
    if xs == [] {
      DropPrefix("]", s, t);
    } else {
      var restX, restY := RenderItems(style, xs[1..]) + s, RenderItems(style, ys[1..]) + t;
      DropPrefix("," + style.itemGap, Render(style, xs[0]) + restX, Render(style, ys[0]) + restY);
      RenderUnique(style, xs[0], ys[0], restX, restY);
      ItemsUnique(style, xs[1..], ys[1..], s, t);
      assert xs == [xs[0]] + xs[1..] && ys == [ys[0]] + ys[1..];
    }
  }

  lemma FieldText(style: Style, a: Json, k: string, s: string)
    requires a.JObject? && k in a.fields
    ensures Field(style, a, k) + s == Quoted(style.escape, k) + ((":" + style.keyGap) + (Render(style, a.fields[k]) + s))
  {
    var key, gap, value := Quoted(style.escape, k), ":" + style.keyGap, Render(style, a.fields[k]);
    assert key + ":" + style.keyGap == key + gap;
    Regroup(key + gap, value, s);
    Regroup(key, gap, value + s);
  }

  /** One field of an object determines its key and its value. */
  lemma {:induction false} FieldUnique(style: Style, a: Json, b: Json, k: string, l: string, s: string, t: string)
    requires a.JObject? && b.JObject? && k in a.fields && l in b.fields
    requires Clean(style) && Field(style, a, k) + s == Field(style, b, l) + t && Stops(s) && Stops(t)
    ensures k == l && a.fields[k] == b.fields[l] && s == t
    decreases a, 0
  {
    FieldText(style, a, k, s);
    FieldText(style, b, l, t);
    var gap := ":" + style.keyGap;
    var valueA, valueB := Render(style, a.fields[k]) + s, Render(style, b.fields[l]) + t;
    QuotedUnique(style.escape, k, l, gap + valueA, gap + valueB);
    DropPrefix(gap, valueA, valueB);
    RenderUnique(style, a.fields[k], b.fields[l], s, t);
  }

  lemma FieldsText(style: Style, a: Json, ks: seq<string>, s: string)
    requires a.JObject? && (forall k :: k in ks ==> k in a.fields)
    ensures RenderFields(style, a, ks) + s ==
            if ks == [] then "}" + s
            else assert ks[0] in ks; ("," + style.itemGap) + (Field(style, a, ks[0]) + (RenderFields(style, a, ks[1..]) + s))
  {
    if ks != [] {
      assert ks[0] in ks;
      var gap, head, rest := "," + style.itemGap, Field(style, a, ks[0]), RenderFields(style, a, ks[1..]);
      Regroup(gap, head, rest);
      Regroup(gap, head + rest, s);
      Regroup(head, rest, s);
    }
  }

  lemma {:induction false} FieldsUnique(style: Style, a: Json, b: Json, ks: seq<string>, ls: seq<string>, s: string, t: string)
    requires a.JObject? && b.JObject? && (forall k :: k in ks ==> k in a.fields) && (forall l :: l in ls ==> l in b.fields)
    requires Clean(style) && RenderFields(style, a, ks) + s == RenderFields(style, b, ls) + t && Stops(s) && Stops(t)
    ensures ks == ls && s == t && forall k :: k in ks ==> a.fields[k] == b.fields[k]
    decreases a, 1, ks
  {
    FieldsText(style, a, ks, s);
    FieldsText(style, b, ls, t);
    assert (RenderFields(style, a, ks) + s)[0] == (if ks == [] then '}' else ',');
    assert (RenderFields(style, b, ls) + t)[0] == (if ls == [] then '}' else ',');
    if ks == [] {
      DropPrefix("}", s, t);
    } else {
      assert ks[0] in ks && ls[0] in ls;
      var restA, restB := RenderFields(style, a, ks[1..]) + s, RenderFields(style, b, ls[1..]) + t;
      DropPrefix("," + style.itemGap, Field(style, a, ks[0]) + restA, Field(style, b, ls[0]) + restB);
      FieldUnique(style, a, b, ks[0], ls[0], restA, restB);
      FieldsUnique(style, a, b, ks[1..], ls[1..], s, t);
      assert ks == [ks[0]] + ks[1..] && ls == [ls[0]] + ls[1..];
    }
  }

  /** What follows the opening brace of an object, up to and past its end. */
  ghost function ObjectBody(style: Style, a: Json, keys: seq<string>, s: string): string
    requires a.JObject? && forall k :: k in keys ==> k in a.fields
  {
    if keys == [] then "}" + s
    else assert keys[0] in keys; Field(style, a, keys[0]) + (RenderFields(style, a, keys[1..]) + s)
  }

  lemma ObjectText(style: Style, a: Json, s: string)
    requires a.JObject?
    ensures var keys := Sorted(a.fields.Keys);
      && Render(style, a) + s == "{" + ObjectBody(style, a, keys, s)
      && LeadsWith(ObjectBody(style, a, keys, s), if keys == [] then '}' else '"')
  {
    var keys := Sorted(a.fields.Keys);
    if keys != [] {
      assert keys[0] in keys;
      var head, rest := Field(style, a, keys[0]), RenderFields(style, a, keys[1..]);
      Regroup(head, rest, s);
      Regroup("{", head + rest, s);
    }
  }

  lemma {:induction false} ObjectUnique(style: Style, a: Json, b: Json, s: string, t: string)
    requires a.JObject? && b.JObject?
    requires Clean(style) && Render(style, a) + s == Render(style, b) + t && Stops(s) && Stops(t)
    ensures a == b && s == t
    decreases a, 2
  {
    var ks, ls := Sorted(a.fields.Keys), Sorted(b.fields.Keys);
    ObjectText(style, a, s);
    ObjectText(style, b, t);
    DropPrefix("{", ObjectBody(style, a, ks, s), ObjectBody(style, b, ls, t));
    if ks == [] && ls == [] {
      DropPrefix("}", s, t);
    }
    if ks != [] && ls != [] {
      assert ks[0] in ks && ls[0] in ls;
      FieldUnique(style, a, b, ks[0], ls[0], RenderFields(style, a, ks[1..]) + s, RenderFields(style, b, ls[1..]) + t);
      FieldsUnique(style, a, b, ks[1..], ls[1..], s, t);
      assert ks == [ks[0]] + ks[1..] && ls == [ls[0]] + ls[1..];
    }
    SameFields(a, b);
  }

  lemma SameFields(a: Json, b: Json)
    requires a.JObject? && b.JObject? && Sorted(a.fields.Keys) == Sorted(b.fields.Keys)
    requires forall k :: k in Sorted(a.fields.Keys) ==> a.fields[k] == b.fields[k]
    ensures a == b
  {
    assert forall k :: k in Sorted(a.fields.Keys) <==> k in a.fields;
    assert a.fields == b.fields;
  }

  /** Two JSON values with the same text are the same value. */
  lemma RenderInjective(style: Style, a: Json, b: Json)
    requires Clean(style) && Render(style, a) == Render(style, b)
    ensures a == b
  {
    assert Render(style, a) + [] == Render(style, b) + [];
    RenderUnique(style, a, b, [], []);
  }
}
