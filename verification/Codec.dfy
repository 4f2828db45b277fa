/** The JSON codec of the domain types: an encoder that looks at the value, a decoder that looks
    at the annotation, and the proof that the second undoes the first. */
module Codec {
  import opened Decimals
  import opened Json
  import opened JsonStyles
  import opened Options
  import opened Sequences

  datatype Scalar = Text(text: string) | Number(number: int)

  /** A runtime value. Instants and durations are microseconds; an enum member carries its value. */
  datatype Value =
    | VNone
    | VBool(flag: bool)
    | VInt(number: int)
    | VStr(text: string)
    | VDecimal(decimal: Decimal)
    | VDatetime(instant: int)
    | VTimedelta(microseconds: int)
    | VUuid(id: nat)
    | VEnum(enumName: string, member: Scalar)
    | VObject(className: string, fields: map<string, Value>)
    | VMapping(entries: map<string, Value>)
    | VSet(elements: set<Value>)
    | VTuple(items: seq<Value>)
    | VList(listed: seq<Value>)
    | VOther(typeName: string)

  /** What a field may be declared as. `TOther` is every annotation the decoder refuses. */
  datatype Annotation =
    | TBool | TInt | TStr | TDecimal | TDatetime | TTimedelta | TUuid
    | TEnum(enumName: string)
    | TData(className: string)
    | TOptional(present: Annotation)
    | TTuple(item: Annotation)
    | TFrozenset(element: Annotation)
    | TMapping(entry: Annotation)
    | TOther

  /** The text forms of decimals, instants and identifiers, and their parsers. */
  datatype Formats = Formats(
    decimalText: Decimal -> string, decimalOf: string -> Option<Decimal>,
    instantText: int -> string, instantOf: string -> Option<int>,
    uuidText: nat -> string, uuidOf: string -> Option<nat>)
  {
    /** Each parser undoes its text form. */
    ghost predicate Faithful() {
      && (forall d: Decimal :: decimalOf(decimalText(d)) == Some(d))
      && (forall t: int :: instantOf(instantText(t)) == Some(t))
      && (forall u: nat :: uuidOf(uuidText(u)) == Some(u))
    }
  }

  /** The declared enums and dataclasses, and what each dataclass's constructor accepts. */
  datatype Schema = Schema(enums: map<string, set<Scalar>>, classes: map<string, map<string, Annotation>>, accepts: Value -> bool)

  // ----- encoding

  /** Insert into a list by text, before the first entry whose text does not come earlier. */
  function InsertByText(x: Json, sorted: seq<Json>): seq<Json> {
    if sorted == [] || !Before(Render(PLAIN, sorted[0]), Render(PLAIN, x)) then [x] + sorted
    else [sorted[0]] + InsertByText(x, sorted[1..])
  }

  /** `sorted(..., key=json.dumps)`. */
  function SortByText(list: seq<Json>): seq<Json> {
    if list == [] then [] else InsertByText(list[0], SortByText(list[1..]))
  }

  /** Some order in which the members of a set are visited. */
  ghost predicate Enumerates(order: seq<Value>, s: set<Value>) {
    && (forall x :: x in order <==> x in s)
    && (forall i, j :: 0 <= i < j < |order| ==> order[i] != order[j])
  }

  lemma {:induction false} AnOrderExists(s: set<Value>)
    ensures exists order :: Enumerates(order, s)
    decreases |s|
  {
    if s == {} {
      assert Enumerates([], s);
    } else {
      var x :| x in s;
      AnOrderExists(s - {x});
      var rest :| Enumerates(rest, s - {x});
      assert Enumerates([x] + rest, s);
    }
  }

  ghost function AnOrder(s: set<Value>): (order: seq<Value>)
    ensures Enumerates(order, s)
  {
    AnOrderExists(s);
    var order :| Enumerates(order, s);
    order
  }

  function ScalarJson(s: Scalar): Json {
    match s
    case Text(text) => JStr(text)
    case Number(number) => JInt(number)
  }

  /** The JSON data of a value, or `None` where the codec raises for a type it has no encoding for. */
  ghost function Encode(formats: Formats, v: Value): Option<Json>
    decreases v
  {
    match v
    case VNone => Some(JNull)
    case VBool(flag) => Some(JBool(flag))
    case VInt(number) => Some(JInt(number))
    case VStr(text) => Some(JStr(text))
    case VDecimal(decimal) => Some(JStr(formats.decimalText(decimal)))
    case VDatetime(instant) => Some(JStr(formats.instantText(instant)))
    case VTimedelta(microseconds) => Some(JInt(microseconds))
    case VUuid(id) => Some(JStr(formats.uuidText(id)))
    case VEnum(_, member) => Some(ScalarJson(member))
    case VObject(_, fields) =>
      if exists k :: k in fields && Encode(formats, fields[k]).None? then None
      else Some(JObject(map k | k in fields :: Encode(formats, fields[k]).value))
    case VMapping(entries) =>
      if exists k :: k in entries && Encode(formats, entries[k]).None? then None
      else Some(JObject(map k | k in entries :: Encode(formats, entries[k]).value))
    case VSet(elements) =>
      if exists x :: x in elements && Encode(formats, x).None? then None
      else
        var order := AnOrder(elements);
        Some(JList(SortByText(seq(|order|, i requires 0 <= i < |order| =>
          assert order[i] in order; Encode(formats, order[i]).value))))
    case VTuple(items) =>
      if exists i :: 0 <= i < |items| && Encode(formats, items[i]).None? then None
      else Some(JList(seq(|items|, i requires 0 <= i < |items| => Encode(formats, items[i]).value)))
    case VList(items) =>
      if exists i :: 0 <= i < |items| && Encode(formats, items[i]).None? then None
      else Some(JList(seq(|items|, i requires 0 <= i < |items| => Encode(formats, items[i]).value)))
    case VOther(_) => None
  }

  // ----- decoding

  /** The value an enum is looked up by; a JSON boolean equals the integer it is. */
  function ScalarOf(payload: Json): Option<Scalar> {
    match payload
    case JStr(text) => Some(Text(text))
    case JInt(number) => Some(Number(number))
    case JBool(flag) => Some(Number(if flag then 1 else 0))
    case _ => None
  }

  /** Rebuild a value from JSON data, or `None` where the decoder raises. */
  ghost function Decode(schema: Schema, formats: Formats, t: Annotation, payload: Json): Option<Value>
    decreases payload, t
  {
    match t
    case TBool => if payload.JBool? then Some(VBool(payload.flag)) else None
    case TInt => if payload.JInt? then Some(VInt(payload.number)) else None
    case TStr => if payload.JStr? then Some(VStr(payload.text)) else None
    case TDecimal =>
      if payload.JStr? && formats.decimalOf(payload.text).Some? then Some(VDecimal(formats.decimalOf(payload.text).value)) else None
    case TDatetime =>
      if payload.JStr? && formats.instantOf(payload.text).Some? then Some(VDatetime(formats.instantOf(payload.text).value)) else None
    case TTimedelta => if payload.JInt? then Some(VTimedelta(payload.number)) else None
    case TUuid =>
      if payload.JStr? && formats.uuidOf(payload.text).Some? then Some(VUuid(formats.uuidOf(payload.text).value)) else None
    case TEnum(enumName) =>
      var member := ScalarOf(payload);
      if enumName in schema.enums && member.Some? && member.value in schema.enums[enumName] then Some(VEnum(enumName, member.value)) else None
    case TOptional(present) => if payload == JNull then Some(VNone) else Decode(schema, formats, present, payload)
    case TTuple(item) =>
      if !payload.JList? || exists i :: 0 <= i < |payload.items| && Decode(schema, formats, item, payload.items[i]).None? then None
      else Some(VTuple(seq(|payload.items|, i requires 0 <= i < |payload.items| => Decode(schema, formats, item, payload.items[i]).value)))
    case TFrozenset(element) =>
      if !payload.JList? || exists i :: 0 <= i < |payload.items| && Decode(schema, formats, element, payload.items[i]).None? then None
      else Some(VSet(set i | 0 <= i < |payload.items| :: Decode(schema, formats, element, payload.items[i]).value))
    case TMapping(entry) =>
      if !payload.JObject? || exists k :: k in payload.fields && Decode(schema, formats, entry, payload.fields[k]).None? then None
      else Some(VMapping(map k | k in payload.fields :: Decode(schema, formats, entry, payload.fields[k]).value))
    case TData(className) =>
      if !payload.JObject? || className !in schema.classes || payload.fields.Keys != schema.classes[className].Keys then None
      else if exists k :: k in payload.fields && Decode(schema, formats, schema.classes[className][k], payload.fields[k]).None? then None
      else
        var built := VObject(className, map k | k in payload.fields :: Decode(schema, formats, schema.classes[className][k], payload.fields[k]).value);
        if schema.accepts(built) then Some(built) else None
    case TOther => None
  }

  /** The value may stand where the annotation is declared. */
  ghost predicate Typed(schema: Schema, v: Value, t: Annotation)
    decreases v, t
  {
    match t
    case TBool => v.VBool?
    case TInt => v.VInt?
    case TStr => v.VStr?
    case TDecimal => v.VDecimal?
    case TDatetime => v.VDatetime?
    case TTimedelta => v.VTimedelta?
    case TUuid => v.VUuid?
    case TEnum(enumName) => v.VEnum? && v.enumName == enumName && enumName in schema.enums && v.member in schema.enums[enumName]
    case TOptional(present) => v.VNone? || Typed(schema, v, present)
    case TTuple(item) => v.VTuple? && forall i :: 0 <= i < |v.items| ==> Typed(schema, v.items[i], item)
    case TFrozenset(element) => v.VSet? && forall x :: x in v.elements ==> Typed(schema, x, element)
    case TMapping(entry) => v.VMapping? && forall k :: k in v.entries ==> Typed(schema, v.entries[k], entry)
    case TData(className) =>
      && v.VObject? && v.className == className && className in schema.classes
      && v.fields.Keys == schema.classes[className].Keys
      && (forall k :: k in v.fields ==> Typed(schema, v.fields[k], schema.classes[className][k]))
      && schema.accepts(v)
    case TOther => false
  }

  // ----- the order of a set

  lemma {:induction false} InsertCommutes(x: Json, y: Json, list: seq<Json>)
    ensures InsertByText(x, InsertByText(y, list)) == InsertByText(y, InsertByText(x, list))
    decreases |list|
  {
    var tx, ty := Render(PLAIN, x), Render(PLAIN, y);
    BeforeIsTotal(tx, ty);
    TextDeterminesValue(x, y);
    if list != [] {
      var th := Render(PLAIN, list[0]);
      InsertCommutes(x, y, list[1..]);
      BeforeIsTotal(th, tx);
      BeforeIsTotal(th, ty);
      InsertAtHead(x, list);
      InsertAtHead(y, list);
      InsertAtHead(x, InsertByText(y, list));
      InsertAtHead(y, InsertByText(x, list));
      if Before(th, tx) && Before(ty, tx) && !Before(th, ty) { BeforeOrEqual(ty, th, tx); }
      if Before(th, ty) && Before(tx, ty) && !Before(th, tx) { BeforeOrEqual(tx, th, ty); }
      if Before(th, tx) && !Before(th, ty) { BeforeOrEqual(ty, th, tx); }
      if Before(th, ty) && !Before(th, tx) { BeforeOrEqual(tx, th, ty); }
    } else {
      InsertAtHead(x, [y]);
      InsertAtHead(y, [x]);
      assert [y][1..] == [] && [x][1..] == [];
    }
  }

  lemma InsertAtHead(x: Json, list: seq<Json>)
    requires list != []
    ensures InsertByText(x, list) == if Before(Render(PLAIN, list[0]), Render(PLAIN, x)) then [list[0]] + InsertByText(x, list[1..]) else [x] + list
  {
  }

  lemma BeforeOrEqual(a: string, b: string, c: string)
    requires !Before(b, a) && Before(b, c)
    ensures Before(a, c)
  {
    BeforeIsTotal(a, b);
    if a != b { BeforeIsTransitive(a, b, c); }
  }

  lemma {:induction false} SortTakesOut(list: seq<Json>, k: nat)
    requires k < |list|
    ensures SortByText(list) == InsertByText(list[k], SortByText(Without(list, k)))
    decreases |list|
  {
    if k == 0 {
      assert Without(list, 0) == list[1..];
    } else {
      var tail := list[1..];
      SortTakesOut(tail, k - 1);
      var rest := Without(list, k);
      assert rest[0] == list[0] && rest[1..] == Without(tail, k - 1);
      InsertCommutes(list[0], list[k], SortByText(rest[1..]));
    }
  }

  /** Sorting by text forgets the order the list came in. */
  lemma {:induction false} SortIgnoresOrder(a: seq<Json>, b: seq<Json>)
    requires multiset(a) == multiset(b)
    ensures SortByText(a) == SortByText(b)
    decreases |a|
  {
    if a == [] {
      assert |multiset(b)| == 0;
    } else {
      var k := Counterpart(a, 0, b);
      assert Without(a, 0) == a[1..];
      SortIgnoresOrder(a[1..], Without(b, k));
      SortTakesOut(b, k);
    }
  }

  lemma {:induction false} SortKeepsMembers(list: seq<Json>)
    ensures multiset(SortByText(list)) == multiset(list)
    decreases |list|
  {
    if list != [] {
      SortKeepsMembers(list[1..]);
      InsertAdds(list[0], SortByText(list[1..]));
      MultisetWithInserted(list[1..], 0, list[0]);
      assert WithInserted(list[1..], 0, list[0]) == list;
    }
  }

  lemma {:induction false} InsertPlaces(x: Json, list: seq<Json>) returns (k: nat)
    ensures k <= |list| && InsertByText(x, list) == WithInserted(list, k, x)
    decreases |list|
  {
    if list == [] || !Before(Render(PLAIN, list[0]), Render(PLAIN, x)) {
      k := 0;
      assert [x] + list == WithInserted(list, 0, x);
    } else {
      var j := InsertPlaces(x, list[1..]);
      InsertedFurther(list, j, x);
      k := j + 1;
    }
  }

  lemma InsertAdds(x: Json, list: seq<Json>)
    ensures multiset(InsertByText(x, list)) == multiset(list) + multiset{x}
  {
    var k := InsertPlaces(x, list);
    MultisetWithInserted(list, k, x);
  }

  /** The encoder as a function on values that have an encoding. */
  ghost function Encoder(formats: Formats): Value -> Json {
    (v: Value) => if Encode(formats, v).Some? then Encode(formats, v).value else JNull
  }

  lemma {:induction false} EnumerationIsSet(order: seq<Value>, s: set<Value>)
    requires Enumerates(order, s)
    ensures multiset(order) == multiset(s)
    decreases |order|
  {
    if order != [] {
      var n := |order| - 1;
      assert Enumerates(order[..n], s - {order[n]}) by {
        forall x | x in s - {order[n]} ensures x in order[..n] { assert x in order; }
      }
      EnumerationIsSet(order[..n], s - {order[n]});
      assert order == order[..n] + [order[n]];
    } else {
      assert s == {};
    }
  }

  /** What each member of an order encodes to. */
  ghost function EncodedInOrder(formats: Formats, order: seq<Value>): seq<Json>
    requires forall x :: x in order ==> Encode(formats, x).Some?
  {
    seq(|order|, i requires 0 <= i < |order| => assert order[i] in order; Encode(formats, order[i]).value)
  }

  lemma EncodedInOrderIsMapped(formats: Formats, order: seq<Value>)
    requires forall x :: x in order ==> Encode(formats, x).Some?
    ensures EncodedInOrder(formats, order) == MapBy(Encoder(formats), order)
  {
    MapByAt(Encoder(formats), order);
    forall i | 0 <= i < |order| ensures EncodedInOrder(formats, order)[i] == MapBy(Encoder(formats), order)[i] {
      assert order[i] in order;
    }
  }

  lemma EncodeOfSet(formats: Formats, elements: set<Value>)
    requires forall x :: x in elements ==> Encode(formats, x).Some?
    ensures Encode(formats, VSet(elements)) == Some(JList(SortByText(MapBy(Encoder(formats), AnOrder(elements)))))
  {
    var mine := AnOrder(elements);
    EncodedInOrderIsMapped(formats, mine);
    assert Encode(formats, VSet(elements)) == Some(JList(SortByText(EncodedInOrder(formats, mine))));
  }

  /** The encoding of a set does not depend on the order its members are visited in. */
  lemma SetEncodingIgnoresIterationOrder(formats: Formats, elements: set<Value>, order: seq<Value>)
    requires Enumerates(order, elements) && forall x :: x in elements ==> Encode(formats, x).Some?
    ensures Encode(formats, VSet(elements)) == Some(JList(SortByText(MapBy(Encoder(formats), order))))
  {
    var mine := AnOrder(elements);
    EncodeOfSet(formats, elements);
    EnumerationIsSet(order, elements);
    EnumerationIsSet(mine, elements);
    MapByRearranges(Encoder(formats), mine, order);
    SortIgnoresOrder(MapBy(Encoder(formats), mine), MapBy(Encoder(formats), order));
  }
}
