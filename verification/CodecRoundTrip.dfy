/** Decoding undoes encoding for every value that may stand where its annotation is declared, so
    equal texts come from equal values; and the per-type memo never changes an answer. */
module CodecRoundTrip {
  import opened Codec
  import opened Json
  import opened JsonStyles
  import opened Options
  import opened Sequences

  /** What the theorem says of one value. */
  ghost predicate Survives(schema: Schema, formats: Formats, v: Value, t: Annotation) {
    Encode(formats, v).Some? && Decode(schema, formats, t, Encode(formats, v).value) == Some(v)
  }

  /** Only `None` encodes to null, so an optional field cannot lose a present value. */
  lemma OnlyNoneIsNull(formats: Formats, v: Value)
    ensures Encode(formats, v) == Some(JNull) <==> v == VNone
  {
  }

  lemma TupleSurvives(schema: Schema, formats: Formats, items: seq<Value>, item: Annotation)
    requires forall i :: 0 <= i < |items| ==> Survives(schema, formats, items[i], item)
    ensures Survives(schema, formats, VTuple(items), TTuple(item))
  {
    var payload := Encode(formats, VTuple(items)).value;
    forall i | 0 <= i < |items| ensures Decode(schema, formats, item, payload.items[i]) == Some(items[i]) {
      assert Survives(schema, formats, items[i], item);
    }
    assert Decode(schema, formats, TTuple(item), payload).value.items == items;
  }

  /** The fields of an encoded mapping or object, key by key. */
  lemma FieldsOfEncoding(formats: Formats, v: Value, fields: map<string, Value>)
    requires v == VMapping(fields) || (v.VObject? && v.fields == fields)
    requires forall k :: k in fields ==> Encode(formats, fields[k]).Some?
    ensures Encode(formats, v).Some? && Encode(formats, v).value.JObject?
    ensures var encoded := Encode(formats, v).value.fields;
      encoded.Keys == fields.Keys && forall k :: k in fields ==> Encode(formats, fields[k]) == Some(encoded[k])
  {
  }

  /** Entries that decode one by one to those of a mapping decode to it. */
  lemma EntriesDecodeToMapping(schema: Schema, formats: Formats, payload: map<string, Json>, entries: map<string, Value>, entry: Annotation)
    requires payload.Keys == entries.Keys
    requires forall k :: k in payload ==> Decode(schema, formats, entry, payload[k]) == Some(entries[k])
    ensures Decode(schema, formats, TMapping(entry), JObject(payload)) == Some(VMapping(entries))
  {
    var built := map k | k in payload :: Decode(schema, formats, entry, payload[k]).value;
    assert built == entries;
  }

  lemma MappingSurvives(schema: Schema, formats: Formats, entries: map<string, Value>, entry: Annotation)
    requires forall k :: k in entries ==> Survives(schema, formats, entries[k], entry)
    ensures Survives(schema, formats, VMapping(entries), TMapping(entry))
  {
    forall k | k in entries ensures Encode(formats, entries[k]).Some? {
      assert Survives(schema, formats, entries[k], entry);
    }
    FieldsOfEncoding(formats, VMapping(entries), entries);
    var payload := Encode(formats, VMapping(entries)).value.fields;
    forall k | k in payload ensures Decode(schema, formats, entry, payload[k]) == Some(entries[k]) {
      assert Survives(schema, formats, entries[k], entry);
    }
    EntriesDecodeToMapping(schema, formats, payload, entries, entry);
  }

  /** Fields that decode one by one to those of an object its constructor accepts decode to it. */
  lemma FieldsDecodeToData(schema: Schema, formats: Formats, payload: map<string, Json>, v: Value)
    requires v.VObject? && v.className in schema.classes && v.fields.Keys == schema.classes[v.className].Keys && schema.accepts(v)
    requires payload.Keys == v.fields.Keys
    requires forall k :: k in payload ==> Decode(schema, formats, schema.classes[v.className][k], payload[k]) == Some(v.fields[k])
    ensures Decode(schema, formats, TData(v.className), JObject(payload)) == Some(v)
  {
    var built := map k | k in payload :: Decode(schema, formats, schema.classes[v.className][k], payload[k]).value;
    assert built == v.fields;
  }

  lemma DataSurvives(schema: Schema, formats: Formats, v: Value)
    requires v.VObject? && v.className in schema.classes && v.fields.Keys == schema.classes[v.className].Keys && schema.accepts(v)
    requires forall k :: k in v.fields ==> Survives(schema, formats, v.fields[k], schema.classes[v.className][k])
    ensures Survives(schema, formats, v, TData(v.className))
  {
    var hints := schema.classes[v.className];
    forall k | k in v.fields ensures Encode(formats, v.fields[k]).Some? {
      assert Survives(schema, formats, v.fields[k], hints[k]);
    }
    FieldsOfEncoding(formats, v, v.fields);
    var payload := Encode(formats, v).value.fields;
    forall k | k in payload ensures Decode(schema, formats, hints[k], payload[k]) == Some(v.fields[k]) {
      assert Survives(schema, formats, v.fields[k], hints[k]);
    }
    FieldsDecodeToData(schema, formats, payload, v);
  }

  ghost predicate YieldsAt(schema: Schema, formats: Formats, element: Annotation, list: seq<Json>, x: Value) {
    exists i :: 0 <= i < |list| && Decode(schema, formats, element, list[i]) == Some(x)
  }

  /** A list that decodes to exactly the members of a set decodes to the set. */
  lemma ListDecodesToSet(schema: Schema, formats: Formats, element: Annotation, list: seq<Json>, elements: set<Value>)
    requires forall i :: 0 <= i < |list| ==> Decode(schema, formats, element, list[i]).Some? && Decode(schema, formats, element, list[i]).value in elements
    requires forall x :: x in elements ==> YieldsAt(schema, formats, element, list, x)
    ensures Decode(schema, formats, TFrozenset(element), JList(list)) == Some(VSet(elements))
  {
    var decoded := set i | 0 <= i < |list| :: Decode(schema, formats, element, list[i]).value;
    forall x | x in elements ensures x in decoded {
      assert YieldsAt(schema, formats, element, list, x);
    }
    assert decoded == elements;
  }

  lemma SortedHoldsTheSame(list: seq<Json>, x: Json)
    ensures x in SortByText(list) <==> x in list
  {
    SortKeepsMembers(list);
    assert x in SortByText(list) <==> x in multiset(SortByText(list));
    assert x in list <==> x in multiset(list);
  }

  lemma SetSurvives(schema: Schema, formats: Formats, elements: set<Value>, element: Annotation)
    requires forall x :: x in elements ==> Survives(schema, formats, x, element)
    ensures Survives(schema, formats, VSet(elements), TFrozenset(element))
  {
    EncodeOfSet(formats, elements);
    var order := AnOrder(elements);
    var encoded := MapBy(Encoder(formats), order);
    var sorted := SortByText(encoded);
    MapByAt(Encoder(formats), order);
    forall i | 0 <= i < |sorted|
      ensures Decode(schema, formats, element, sorted[i]).Some? && Decode(schema, formats, element, sorted[i]).value in elements
    {
      SortedHoldsTheSame(encoded, sorted[i]);
      var k :| 0 <= k < |encoded| && encoded[k] == sorted[i];
      assert order[k] in order;
      assert Survives(schema, formats, order[k], element);
    }
    forall x | x in elements ensures YieldsAt(schema, formats, element, sorted, x) {
      assert x in order;
      var k :| 0 <= k < |order| && order[k] == x;
      SortedHoldsTheSame(encoded, encoded[k]);
      assert Survives(schema, formats, x, element);
    }
    ListDecodesToSet(schema, formats, element, sorted, elements);
  }

  /** The round trip, for every value well typed at its annotation: scalars, enums, nested
      dataclasses, optionals, tuples, mappings and sets. */
  lemma {:induction false} RoundTrip(schema: Schema, formats: Formats, v: Value, t: Annotation)
    requires formats.Faithful() && Typed(schema, v, t)
    ensures Survives(schema, formats, v, t)
    decreases v, t
  {
    match t
    case TOptional(present) =>
      OnlyNoneIsNull(formats, v);
      if !v.VNone? { RoundTrip(schema, formats, v, present); }
    case TTuple(item) =>
      forall i | 0 <= i < |v.items| ensures Survives(schema, formats, v.items[i], item) {
        RoundTrip(schema, formats, v.items[i], item);
      }
      TupleSurvives(schema, formats, v.items, item);
    case TFrozenset(element) =>
      forall x | x in v.elements ensures Survives(schema, formats, x, element) {
        RoundTrip(schema, formats, x, element);
      }
      SetSurvives(schema, formats, v.elements, element);
    case TMapping(entry) =>
      forall k | k in v.entries ensures Survives(schema, formats, v.entries[k], entry) {
        RoundTrip(schema, formats, v.entries[k], entry);
      }
      MappingSurvives(schema, formats, v.entries, entry);
    case TData(className) =>
      forall k | k in v.fields ensures Survives(schema, formats, v.fields[k], schema.classes[className][k]) {
        RoundTrip(schema, formats, v.fields[k], schema.classes[className][k]);
      }
      DataSurvives(schema, formats, v);
    case _ =>
  }

  /** The text a value is digested from identifies it among the values of its type: equal texts
      come from equal values only. This is what `config_hash` and the trace digest rest on. */
  lemma TextIdentifiesValue(schema: Schema, formats: Formats, v: Value, w: Value, t: Annotation)
    requires formats.Faithful() && Typed(schema, v, t) && Typed(schema, w, t)
    ensures Encode(formats, v).Some? && Encode(formats, w).Some?
    ensures Render(CANONICAL, Encode(formats, v).value) == Render(CANONICAL, Encode(formats, w).value) <==> v == w
  {
    RoundTrip(schema, formats, v, t);
    RoundTrip(schema, formats, w, t);
    TextDeterminesValue(Encode(formats, v).value, Encode(formats, w).value);
  }
}
