/** What JSON data the codec writes for a value, and what data it reads as one: each said as a
    relation between the two, without the encoder and without the decoder. */
module CodecMeaning {
  import opened Codec
  import opened CodecRoundTrip
  import opened Json
  import opened JsonStyles
  import opened Options
  import opened Sequences

  // ----- reading

  /** The data stands for this member of an enum. A JSON boolean is the integer it equals. */
  predicate SpellsMember(payload: Json, member: Scalar) {
    match member
    case Text(text) => payload == JStr(text)
    case Number(number) =>
      payload == JInt(number) || (payload == JBool(true) && number == 1) || (payload == JBool(false) && number == 0)
  }

  /** The data stands for the value, whatever the value was declared as. A list stands for a set
      when each of its items stands for a member and each member has such an item. */
  ghost predicate Spells(formats: Formats, payload: Json, v: Value)
    decreases v, 1
  {
    match v
    case VNone => payload == JNull
    case VBool(flag) => payload == JBool(flag)
    case VInt(number) => payload == JInt(number)
    case VStr(text) => payload == JStr(text)
    case VDecimal(decimal) => payload.JStr? && formats.decimalOf(payload.text) == Some(decimal)
    case VDatetime(instant) => payload.JStr? && formats.instantOf(payload.text) == Some(instant)
    case VTimedelta(microseconds) => payload == JInt(microseconds)
    case VUuid(id) => payload.JStr? && formats.uuidOf(payload.text) == Some(id)
    case VEnum(_, member) => SpellsMember(payload, member)
    case VObject(_, fields) =>
      payload.JObject? && payload.fields.Keys == fields.Keys && forall k :: k in fields ==> Spells(formats, payload.fields[k], fields[k])
    case VMapping(entries) =>
      payload.JObject? && payload.fields.Keys == entries.Keys && forall k :: k in entries ==> Spells(formats, payload.fields[k], entries[k])
    case VSet(elements) =>
      && payload.JList?
      && (forall i :: 0 <= i < |payload.items| ==> StandsForOne(formats, payload.items[i], v))
      && (forall x :: x in elements ==> HasItem(formats, payload.items, x))
    case VTuple(items) =>
      payload.JList? && |payload.items| == |items| && forall i :: 0 <= i < |items| ==> Spells(formats, payload.items[i], items[i])
    case VList(items) =>
      payload.JList? && |payload.items| == |items| && forall i :: 0 <= i < |items| ==> Spells(formats, payload.items[i], items[i])
    case VOther(_) => false
  }

  ghost predicate StandsForOne(formats: Formats, item: Json, v: Value)
    requires v.VSet?
    decreases v, 0
  {
    exists x :: x in v.elements && Spells(formats, item, x)
  }

  ghost predicate HasItem(formats: Formats, items: seq<Json>, x: Value)
    decreases x, 2
  {
    exists i :: 0 <= i < |items| && Spells(formats, items[i], x)
  }

  /** What the theorem says of one value. */
  ghost predicate ReadAs(schema: Schema, formats: Formats, t: Annotation, payload: Json, v: Value) {
    Decode(schema, formats, t, payload) == Some(v) <==> Typed(schema, v, t) && Spells(formats, payload, v)
  }

  lemma ListReadAsTuple(schema: Schema, formats: Formats, item: Annotation, payload: Json, v: Value)
    requires payload.JList?
    requires forall i, x :: 0 <= i < |payload.items| ==> ReadAs(schema, formats, item, payload.items[i], x)
    ensures ReadAs(schema, formats, TTuple(item), payload, v)
  {
    var decoded := Decode(schema, formats, TTuple(item), payload);
    if decoded == Some(v) {
      forall i | 0 <= i < |v.items| ensures Typed(schema, v.items[i], item) && Spells(formats, payload.items[i], v.items[i]) {
        assert ReadAs(schema, formats, item, payload.items[i], v.items[i]);
      }
    }
    if Typed(schema, v, TTuple(item)) && Spells(formats, payload, v) {
      forall i | 0 <= i < |v.items| ensures Decode(schema, formats, item, payload.items[i]) == Some(v.items[i]) {
        assert ReadAs(schema, formats, item, payload.items[i], v.items[i]);
      }
      assert decoded.Some? && decoded.value.items == v.items;
    }
  }

  lemma ItemIsRead(schema: Schema, formats: Formats, element: Annotation, item: Json, elements: set<Value>)
    requires forall x :: ReadAs(schema, formats, element, item, x)
    requires StandsForOne(formats, item, VSet(elements)) && forall x :: x in elements ==> Typed(schema, x, element)
    ensures Decode(schema, formats, element, item).Some? && Decode(schema, formats, element, item).value in elements
  {
    var x :| x in elements && Spells(formats, item, x);
    assert ReadAs(schema, formats, element, item, x);
  }

  lemma MemberIsRead(schema: Schema, formats: Formats, element: Annotation, items: seq<Json>, x: Value)
    requires forall i :: 0 <= i < |items| ==> ReadAs(schema, formats, element, items[i], x)
    requires HasItem(formats, items, x) && Typed(schema, x, element)
    ensures YieldsAt(schema, formats, element, items, x)
  {
    var i :| 0 <= i < |items| && Spells(formats, items[i], x);
    assert ReadAs(schema, formats, element, items[i], x);
  }

  lemma ItemsAreRead(schema: Schema, formats: Formats, element: Annotation, items: seq<Json>, elements: set<Value>)
    requires forall i, x :: 0 <= i < |items| ==> ReadAs(schema, formats, element, items[i], x)
    requires forall x :: x in elements ==> Typed(schema, x, element)
    requires forall i :: 0 <= i < |items| ==> StandsForOne(formats, items[i], VSet(elements))
    ensures forall i :: 0 <= i < |items| ==> Decode(schema, formats, element, items[i]).Some? && Decode(schema, formats, element, items[i]).value in elements
  {
    forall i | 0 <= i < |items|
      ensures Decode(schema, formats, element, items[i]).Some? && Decode(schema, formats, element, items[i]).value in elements
    {
      assert forall x :: ReadAs(schema, formats, element, items[i], x);
      ItemIsRead(schema, formats, element, items[i], elements);
    }
  }

  lemma MembersAreRead(schema: Schema, formats: Formats, element: Annotation, items: seq<Json>, elements: set<Value>)
    requires forall i, x :: 0 <= i < |items| ==> ReadAs(schema, formats, element, items[i], x)
    requires forall x :: x in elements ==> Typed(schema, x, element) && HasItem(formats, items, x)
    ensures forall x :: x in elements ==> YieldsAt(schema, formats, element, items, x)
  {
    forall x | x in elements ensures YieldsAt(schema, formats, element, items, x) {
      MemberIsRead(schema, formats, element, items, x);
    }
  }

  lemma SetIsRead(schema: Schema, formats: Formats, element: Annotation, items: seq<Json>, elements: set<Value>)
    requires forall i, x :: 0 <= i < |items| ==> ReadAs(schema, formats, element, items[i], x)
    requires forall x :: x in elements ==> Typed(schema, x, element) && HasItem(formats, items, x)
    requires forall i :: 0 <= i < |items| ==> StandsForOne(formats, items[i], VSet(elements))
    ensures Decode(schema, formats, TFrozenset(element), JList(items)) == Some(VSet(elements))
  {
    ItemsAreRead(schema, formats, element, items, elements);
    MembersAreRead(schema, formats, element, items, elements);
    ListDecodesToSet(schema, formats, element, items, elements);
  }

  lemma SetOfDecoded(schema: Schema, formats: Formats, element: Annotation, items: seq<Json>, elements: set<Value>)
    requires Decode(schema, formats, TFrozenset(element), JList(items)) == Some(VSet(elements))
    ensures forall i :: 0 <= i < |items| ==> Decode(schema, formats, element, items[i]).Some? && Decode(schema, formats, element, items[i]).value in elements
    ensures forall x :: x in elements ==> YieldsAt(schema, formats, element, items, x)
  {
    forall x | x in elements ensures YieldsAt(schema, formats, element, items, x) {
      var i :| 0 <= i < |items| && x == Decode(schema, formats, element, items[i]).value;
      assert Decode(schema, formats, element, items[i]) == Some(x);
    }
  }

  lemma SetIsSpelt(schema: Schema, formats: Formats, element: Annotation, items: seq<Json>, elements: set<Value>)
    requires forall i, x :: 0 <= i < |items| ==> ReadAs(schema, formats, element, items[i], x)
    requires Decode(schema, formats, TFrozenset(element), JList(items)) == Some(VSet(elements))
    ensures Spells(formats, JList(items), VSet(elements)) && forall x :: x in elements ==> Typed(schema, x, element)
  {
    SetOfDecoded(schema, formats, element, items, elements);
    forall i | 0 <= i < |items| ensures StandsForOne(formats, items[i], VSet(elements)) {
      assert ReadAs(schema, formats, element, items[i], Decode(schema, formats, element, items[i]).value);
    }
    forall x | x in elements ensures Typed(schema, x, element) && HasItem(formats, items, x) {
      var i :| 0 <= i < |items| && Decode(schema, formats, element, items[i]) == Some(x);
      assert ReadAs(schema, formats, element, items[i], x);
    }
  }

  lemma ListReadAsSet(schema: Schema, formats: Formats, element: Annotation, payload: Json, v: Value)
    requires payload.JList?
    requires forall i, x :: 0 <= i < |payload.items| ==> ReadAs(schema, formats, element, payload.items[i], x)
    ensures ReadAs(schema, formats, TFrozenset(element), payload, v)
  {
    assert payload == JList(payload.items);
    if Decode(schema, formats, TFrozenset(element), payload) == Some(v) {
      SetIsSpelt(schema, formats, element, payload.items, v.elements);
    }
    if Typed(schema, v, TFrozenset(element)) && Spells(formats, payload, v) {
      SetIsRead(schema, formats, element, payload.items, v.elements);
    }
  }

  lemma MappingIsRead(schema: Schema, formats: Formats, entry: Annotation, payload: Json, v: Value)
    requires payload.JObject?
    requires forall k, x :: k in payload.fields ==> ReadAs(schema, formats, entry, payload.fields[k], x)
    requires Typed(schema, v, TMapping(entry)) && Spells(formats, payload, v)
    ensures Decode(schema, formats, TMapping(entry), payload) == Some(v)
  {
    forall k | k in payload.fields ensures Decode(schema, formats, entry, payload.fields[k]) == Some(v.entries[k]) {
      assert ReadAs(schema, formats, entry, payload.fields[k], v.entries[k]);
    }
    EntriesDecodeToMapping(schema, formats, payload.fields, v.entries, entry);
    assert payload == JObject(payload.fields);
  }

  lemma MappingIsSpelt(schema: Schema, formats: Formats, entry: Annotation, payload: Json, v: Value)
    requires payload.JObject?
    requires forall k, x :: k in payload.fields ==> ReadAs(schema, formats, entry, payload.fields[k], x)
    requires Decode(schema, formats, TMapping(entry), payload) == Some(v)
    ensures Typed(schema, v, TMapping(entry)) && Spells(formats, payload, v)
  {
    forall k | k in v.entries ensures Typed(schema, v.entries[k], entry) && Spells(formats, payload.fields[k], v.entries[k]) {
      assert ReadAs(schema, formats, entry, payload.fields[k], v.entries[k]);
    }
  }

  lemma ObjectReadAsMapping(schema: Schema, formats: Formats, entry: Annotation, payload: Json, v: Value)
    requires payload.JObject?
    requires forall k, x :: k in payload.fields ==> ReadAs(schema, formats, entry, payload.fields[k], x)
    ensures ReadAs(schema, formats, TMapping(entry), payload, v)
  {
    if Decode(schema, formats, TMapping(entry), payload) == Some(v) { MappingIsSpelt(schema, formats, entry, payload, v); }
    if Typed(schema, v, TMapping(entry)) && Spells(formats, payload, v) { MappingIsRead(schema, formats, entry, payload, v); }
  }

  lemma DataIsRead(schema: Schema, formats: Formats, className: string, payload: Json, v: Value)
    requires payload.JObject? && className in schema.classes && payload.fields.Keys == schema.classes[className].Keys
    requires forall k, x :: k in payload.fields ==> ReadAs(schema, formats, schema.classes[className][k], payload.fields[k], x)
    requires Typed(schema, v, TData(className)) && Spells(formats, payload, v)
    ensures Decode(schema, formats, TData(className), payload) == Some(v)
  {
    forall k | k in payload.fields
      ensures Decode(schema, formats, schema.classes[className][k], payload.fields[k]) == Some(v.fields[k])
    {
      assert ReadAs(schema, formats, schema.classes[className][k], payload.fields[k], v.fields[k]);
    }
    FieldsDecodeToData(schema, formats, payload.fields, v);
    assert payload == JObject(payload.fields);
  }

  lemma DataIsSpelt(schema: Schema, formats: Formats, className: string, payload: Json, v: Value)
    requires payload.JObject? && className in schema.classes && payload.fields.Keys == schema.classes[className].Keys
    requires forall k, x :: k in payload.fields ==> ReadAs(schema, formats, schema.classes[className][k], payload.fields[k], x)
    requires Decode(schema, formats, TData(className), payload) == Some(v)
    ensures Typed(schema, v, TData(className)) && Spells(formats, payload, v)
  {
    var hints := schema.classes[className];
    forall k | k in v.fields ensures Typed(schema, v.fields[k], hints[k]) && Spells(formats, payload.fields[k], v.fields[k]) {
      assert ReadAs(schema, formats, hints[k], payload.fields[k], v.fields[k]);
    }
  }

  lemma ObjectReadAsData(schema: Schema, formats: Formats, className: string, payload: Json, v: Value)
    requires payload.JObject? && className in schema.classes && payload.fields.Keys == schema.classes[className].Keys
    requires forall k, x :: k in payload.fields ==> ReadAs(schema, formats, schema.classes[className][k], payload.fields[k], x)
    ensures ReadAs(schema, formats, TData(className), payload, v)
  {
    if Decode(schema, formats, TData(className), payload) == Some(v) { DataIsSpelt(schema, formats, className, payload, v); }
    if Typed(schema, v, TData(className)) && Spells(formats, payload, v) { DataIsRead(schema, formats, className, payload, v); }
  }

  predicate IsScalar(t: Annotation) {
    t in {TBool, TInt, TStr, TDecimal, TDatetime, TTimedelta, TUuid, TOther} || t.TEnum?
  }

  lemma MemberIff(payload: Json, member: Scalar)
    ensures ScalarOf(payload) == Some(member) <==> SpellsMember(payload, member)
  {
  }

  lemma ScalarReadAs(schema: Schema, formats: Formats, t: Annotation, payload: Json, v: Value)
    requires IsScalar(t)
    ensures ReadAs(schema, formats, t, payload, v)
  {
    if t.TEnum? && v.VEnum? { MemberIff(payload, v.member); }
  }

  lemma WrongShapeIsRefused(schema: Schema, formats: Formats, t: Annotation, payload: Json, v: Value)
    requires ((t.TTuple? || t.TFrozenset?) && !payload.JList?) || ((t.TMapping? || t.TData?) && !payload.JObject?)
    ensures ReadAs(schema, formats, t, payload, v)
  {
  }

  lemma WrongFieldsAreRefused(schema: Schema, formats: Formats, className: string, payload: Json, v: Value)
    requires payload.JObject? && (className !in schema.classes || payload.fields.Keys != schema.classes[className].Keys)
    ensures ReadAs(schema, formats, TData(className), payload, v)
  {
  }

  lemma OptionalReadAs(schema: Schema, formats: Formats, present: Annotation, payload: Json, v: Value)
    requires payload != JNull ==> ReadAs(schema, formats, present, payload, v)
    ensures ReadAs(schema, formats, TOptional(present), payload, v)
  {
    assert Spells(formats, JNull, v) <==> v == VNone;
  }

  lemma {:induction false} ItemsReadAs(schema: Schema, formats: Formats, item: Annotation, payload: Json)
    requires payload.JList?
    ensures forall i, x :: 0 <= i < |payload.items| ==> ReadAs(schema, formats, item, payload.items[i], x)
    decreases payload, item, 0
  {
    forall i, x | 0 <= i < |payload.items| ensures ReadAs(schema, formats, item, payload.items[i], x) {
      DecodesIff(schema, formats, item, payload.items[i], x);
    }
  }

  lemma {:induction false} FieldsReadAs(schema: Schema, formats: Formats, t: Annotation, hints: map<string, Annotation>, payload: Json)
    requires payload.JObject? && forall k :: k in payload.fields ==> k in hints
    ensures forall k, x :: k in payload.fields ==> ReadAs(schema, formats, hints[k], payload.fields[k], x)
    decreases payload, t, 0
  {
    forall k, x | k in payload.fields ensures ReadAs(schema, formats, hints[k], payload.fields[k], x) {
      DecodesIff(schema, formats, hints[k], payload.fields[k], x);
    }
  }

  /** Data decodes at an annotation to a value exactly when the value may stand there and the data
      stands for it. So whatever else is offered is refused: a missing or an unexpected key, an
      unknown member, a boolean for an integer, an absent value that may not be absent. */
  lemma {:induction false} DecodesIff(schema: Schema, formats: Formats, t: Annotation, payload: Json, v: Value)
    ensures Decode(schema, formats, t, payload) == Some(v) <==> Typed(schema, v, t) && Spells(formats, payload, v)
    decreases payload, t, 2
  {
    assert ReadAs(schema, formats, t, payload, v) by {
      if IsScalar(t) {
        ScalarReadAs(schema, formats, t, payload, v);
      } else if t.TOptional? {
        if payload != JNull { DecodesIff(schema, formats, t.present, payload, v); }
        OptionalReadAs(schema, formats, t.present, payload, v);
      } else {
        CompositeReadAs(schema, formats, t, payload, v);
      }
    }
  }

  lemma {:induction false} CompositeReadAs(schema: Schema, formats: Formats, t: Annotation, payload: Json, v: Value)
    requires !IsScalar(t) && !t.TOptional?
    ensures ReadAs(schema, formats, t, payload, v)
    decreases payload, t, 1
  {
    match t
    case TTuple(item) =>
      if payload.JList? {
        ItemsReadAs(schema, formats, item, payload);
        ListReadAsTuple(schema, formats, item, payload, v);
      }
    case TFrozenset(element) =>
      if payload.JList? {
        ItemsReadAs(schema, formats, element, payload);
        ListReadAsSet(schema, formats, element, payload, v);
      }
    case TMapping(entry) =>
      if payload.JObject? {
        FieldsReadAs(schema, formats, entry, map k | k in payload.fields :: entry, payload);
        ObjectReadAsMapping(schema, formats, entry, payload, v);
      }
    case TData(className) =>
      if payload.JObject? && className in schema.classes && payload.fields.Keys == schema.classes[className].Keys {
        FieldsReadAs(schema, formats, t, schema.classes[className], payload);
        ObjectReadAsData(schema, formats, className, payload, v);
      } else if payload.JObject? {
        WrongFieldsAreRefused(schema, formats, className, payload, v);
      }
    if ((t.TTuple? || t.TFrozenset?) && !payload.JList?) || ((t.TMapping? || t.TData?) && !payload.JObject?) {
      WrongShapeIsRefused(schema, formats, t, payload, v);
    }
  }

  // ----- writing

  /** No text comes before one to its left. */
  predicate TextsAscend(items: seq<Json>) {
    forall i, j :: 0 <= i < j < |items| ==> !Before(Render(PLAIN, items[j]), Render(PLAIN, items[i]))
  }

  /** The data the codec writes for the value. Of a set, every member is written once, in an order in
      which their texts ascend. */
  ghost predicate Written(formats: Formats, payload: Json, v: Value)
    decreases v, 1
  {
    match v
    case VNone => payload == JNull
    case VBool(flag) => payload == JBool(flag)
    case VInt(number) => payload == JInt(number)
    case VStr(text) => payload == JStr(text)
    case VDecimal(decimal) => payload == JStr(formats.decimalText(decimal))
    case VDatetime(instant) => payload == JStr(formats.instantText(instant))
    case VTimedelta(microseconds) => payload == JInt(microseconds)
    case VUuid(id) => payload == JStr(formats.uuidText(id))
    case VEnum(_, member) => (member.Text? && payload == JStr(member.text)) || (member.Number? && payload == JInt(member.number))
    case VObject(_, fields) =>
      payload.JObject? && payload.fields.Keys == fields.Keys && forall k :: k in fields ==> Written(formats, payload.fields[k], fields[k])
    case VMapping(entries) =>
      payload.JObject? && payload.fields.Keys == entries.Keys && forall k :: k in entries ==> Written(formats, payload.fields[k], entries[k])
    case VSet(elements) =>
      && payload.JList? && TextsAscend(payload.items)
      && exists order :: Enumerates(order, elements) && WrittenInOrder(formats, payload.items, order, v)
    case VTuple(items) =>
      payload.JList? && |payload.items| == |items| && forall i :: 0 <= i < |items| ==> Written(formats, payload.items[i], items[i])
    case VList(items) =>
      payload.JList? && |payload.items| == |items| && forall i :: 0 <= i < |items| ==> Written(formats, payload.items[i], items[i])
    case VOther(_) => false
  }

  ghost predicate WrittenInOrder(formats: Formats, items: seq<Json>, order: seq<Value>, v: Value)
    requires v.VSet? && Enumerates(order, v.elements)
    decreases v, 0
  {
    |items| == |order| && forall i :: 0 <= i < |order| ==> assert order[i] in order; Written(formats, items[i], order[i])
  }

  lemma NotBeforeIsTransitive(a: string, b: string, c: string)
    requires !Before(b, a) && !Before(c, b)
    ensures !Before(c, a)
  {
    BeforeIsTotal(a, b);
    BeforeIsTotal(b, c);
    if Before(c, a) {
      if a != b { BeforeIsTransitive(c, a, b); }
    }
  }

  lemma InsertHolds(x: Json, list: seq<Json>)
    ensures forall y :: y in InsertByText(x, list) <==> y == x || y in list
  {
    var k := InsertPlaces(x, list);
    assert list == list[..k] + list[k..];
  }

  lemma {:induction false} InsertKeepsAscent(x: Json, list: seq<Json>)
    requires TextsAscend(list)
    ensures TextsAscend(InsertByText(x, list))
    decreases |list|
  {
    var tx := Render(PLAIN, x);
    if list != [] && Before(Render(PLAIN, list[0]), tx) {
      var rest := InsertByText(x, list[1..]);
      InsertKeepsAscent(x, list[1..]);
      InsertHolds(x, list[1..]);
      BeforeIsTotal(Render(PLAIN, list[0]), tx);
      forall j | 0 <= j < |rest| ensures !Before(Render(PLAIN, rest[j]), Render(PLAIN, list[0])) {
        assert rest[j] in rest;
      }
    } else {
      forall j | 0 <= j < |list| ensures !Before(Render(PLAIN, list[j]), tx) {
        if j > 0 { NotBeforeIsTransitive(tx, Render(PLAIN, list[0]), Render(PLAIN, list[j])); }
      }
    }
  }

  lemma {:induction false} SortAscends(list: seq<Json>)
    ensures TextsAscend(SortByText(list))
    decreases |list|
  {
    if list != [] {
      SortAscends(list[1..]);
      InsertKeepsAscent(list[0], SortByText(list[1..]));
    }
  }

  lemma {:induction false} AscendingStays(list: seq<Json>)
    requires TextsAscend(list)
    ensures SortByText(list) == list
    decreases |list|
  {
    if list != [] {
      AscendingStays(list[1..]);
      assert list == [list[0]] + list[1..];
    }
  }

  lemma InsertEnumerates(rest: seq<Value>, k: nat, x: Value, s: set<Value>)
    requires k <= |rest| && Enumerates(rest, s - {x}) && x in s
    ensures Enumerates(WithInserted(rest, k, x), s)
  {
    var order := WithInserted(rest, k, x);
    assert rest == rest[..k] + rest[k..];
    forall y ensures y in order <==> y in s {
      assert y in order <==> y == x || y in rest;
    }
    forall i, j | 0 <= i < j < |order| ensures order[i] != order[j] {
      assert i < k ==> order[i] == rest[i];
      assert i > k ==> order[i] == rest[i - 1];
      assert j < k ==> order[j] == rest[j];
      assert j > k ==> order[j] == rest[j - 1] && rest[j - 1] in rest;
      assert i < k ==> rest[i] in rest;
    }
  }

  lemma MapByWithInserted<A, B>(f: A -> B, s: seq<A>, k: nat, x: A)
    requires k <= |s|
    ensures |MapBy(f, s)| == |s| && MapBy(f, WithInserted(s, k, x)) == WithInserted(MapBy(f, s), k, f(x))
  {
    MapByAt(f, s);
    MapByAt(f, WithInserted(s, k, x));
  }

  /** Sorting the data of the members is visiting the members in some order. */
  lemma {:induction false} SortedVisit(f: Value -> Json, order: seq<Value>, s: set<Value>) returns (sorted: seq<Value>)
    requires Enumerates(order, s)
    ensures Enumerates(sorted, s) && MapBy(f, sorted) == SortByText(MapBy(f, order))
    decreases |order|
  {
    if order == [] {
      sorted := [];
    } else {
      var x := order[0];
      assert order == [x] + order[1..];
      assert Enumerates(order[1..], s - {x});
      var rest := SortedVisit(f, order[1..], s - {x});
      var k := InsertPlaces(f(x), MapBy(f, rest));
      MapByAt(f, rest);
      MapByWithInserted(f, rest, k, x);
      assert x in order;
      InsertEnumerates(rest, k, x, s);
      sorted := WithInserted(rest, k, x);
    }
  }

  /** What the theorem says of one value. */
  ghost predicate WrittenAs(formats: Formats, v: Value, payload: Json) {
    Encode(formats, v) == Some(payload) <==> Written(formats, payload, v)
  }

  lemma SetIsWritten(formats: Formats, elements: set<Value>, payload: Json)
    requires forall x, p :: x in elements ==> WrittenAs(formats, x, p)
    requires Encode(formats, VSet(elements)) == Some(payload)
    ensures Written(formats, payload, VSet(elements))
  {
    EncodeOfSet(formats, elements);
    var order := SortedVisit(Encoder(formats), AnOrder(elements), elements);
    SortAscends(MapBy(Encoder(formats), AnOrder(elements)));
    MapByAt(Encoder(formats), order);
    forall i | 0 <= i < |order| ensures order[i] in order && Written(formats, payload.items[i], order[i]) {
      assert order[i] in order;
      assert WrittenAs(formats, order[i], payload.items[i]);
    }
    assert WrittenInOrder(formats, payload.items, order, VSet(elements));
  }

  lemma WrittenSetIsEncoded(formats: Formats, elements: set<Value>, payload: Json)
    requires forall x, p :: x in elements ==> WrittenAs(formats, x, p)
    requires Written(formats, payload, VSet(elements))
    ensures Encode(formats, VSet(elements)) == Some(payload)
  {
    var order :| Enumerates(order, elements) && WrittenInOrder(formats, payload.items, order, VSet(elements));
    forall i | 0 <= i < |order| ensures Encode(formats, order[i]) == Some(payload.items[i]) {
      assert order[i] in order;
      assert WrittenAs(formats, order[i], payload.items[i]);
    }
    forall x | x in elements ensures Encode(formats, x).Some? {
      assert x in order;
    }
    MapByAt(Encoder(formats), order);
    assert MapBy(Encoder(formats), order) == payload.items;
    AscendingStays(payload.items);
    SetEncodingIgnoresIterationOrder(formats, elements, order);
  }

  lemma FieldsWritten(formats: Formats, v: Value, fields: map<string, Value>, payload: Json)
    requires v == VMapping(fields) || (v.VObject? && v.fields == fields)
    requires forall k, p :: k in fields ==> WrittenAs(formats, fields[k], p)
    ensures WrittenAs(formats, v, payload)
  {
    if Encode(formats, v) == Some(payload) {
      FieldsOfEncoding(formats, v, fields);
      forall k | k in fields ensures Written(formats, payload.fields[k], fields[k]) {
        assert WrittenAs(formats, fields[k], payload.fields[k]);
      }
    }
    if Written(formats, payload, v) {
      forall k | k in fields ensures Encode(formats, fields[k]) == Some(payload.fields[k]) {
        assert WrittenAs(formats, fields[k], payload.fields[k]);
      }
      FieldsOfEncoding(formats, v, fields);
      assert Encode(formats, v).value.fields == payload.fields;
    }
  }

  lemma ItemsWritten(formats: Formats, v: Value, items: seq<Value>, payload: Json)
    requires v == VTuple(items) || v == VList(items)
    requires forall i, p :: 0 <= i < |items| ==> WrittenAs(formats, items[i], p)
    ensures WrittenAs(formats, v, payload)
  {
    if Encode(formats, v) == Some(payload) {
      forall i | 0 <= i < |items| ensures Written(formats, payload.items[i], items[i]) {
        assert WrittenAs(formats, items[i], payload.items[i]);
      }
    }
    if Written(formats, payload, v) {
      forall i | 0 <= i < |items| ensures Encode(formats, items[i]) == Some(payload.items[i]) {
        assert WrittenAs(formats, items[i], payload.items[i]);
      }
      assert Encode(formats, v).value.items == payload.items;
    }
  }

  lemma AtomWritten(formats: Formats, v: Value, payload: Json)
    requires !v.VObject? && !v.VMapping? && !v.VSet? && !v.VTuple? && !v.VList?
    ensures WrittenAs(formats, v, payload)
  {
  }

  lemma SetWritten(formats: Formats, elements: set<Value>, payload: Json)
    requires forall x, p :: x in elements ==> WrittenAs(formats, x, p)
    ensures WrittenAs(formats, VSet(elements), payload)
  {
    if Encode(formats, VSet(elements)) == Some(payload) { SetIsWritten(formats, elements, payload); }
    if Written(formats, payload, VSet(elements)) { WrittenSetIsEncoded(formats, elements, payload); }
  }

  /** The codec encodes a value to some data exactly when that is the data written for it; for a
      value that no data is written for, it raises. */
  lemma {:induction false} EncodesIff(formats: Formats, v: Value, payload: Json)
    ensures Encode(formats, v) == Some(payload) <==> Written(formats, payload, v)
    decreases v
  {
    assert WrittenAs(formats, v, payload) by {
      match v
      case VObject(_, fields) =>
        forall k, p | k in fields ensures WrittenAs(formats, fields[k], p) { EncodesIff(formats, fields[k], p); }
        FieldsWritten(formats, v, fields, payload);
      case VMapping(entries) =>
        forall k, p | k in entries ensures WrittenAs(formats, entries[k], p) { EncodesIff(formats, entries[k], p); }
        FieldsWritten(formats, v, entries, payload);
      case VSet(elements) =>
        forall x, p | x in elements ensures WrittenAs(formats, x, p) { EncodesIff(formats, x, p); }
        SetWritten(formats, elements, payload);
      case VTuple(items) =>
        forall i, p | 0 <= i < |items| ensures WrittenAs(formats, items[i], p) { EncodesIff(formats, items[i], p); }
        ItemsWritten(formats, v, items, payload);
      case VList(items) =>
        forall i, p | 0 <= i < |items| ensures WrittenAs(formats, items[i], p) { EncodesIff(formats, items[i], p); }
        ItemsWritten(formats, v, items, payload);
      case _ =>
        AtomWritten(formats, v, payload);
    }
  }
}
