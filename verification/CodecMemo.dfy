/** The encoder as it runs: dispatch on the runtime type through a memo of which branch each type
    takes. Whatever the memo has seen, the answer is the one of the plain encoder. */
module CodecMemo {
  import opened Codec
  import opened Json
  import opened Options
  import opened Sequences

  /** The type of a value, as `type(candidate)` gives it. Enums mix in the type of their values. */
  datatype RuntimeType =
    | BoolType | IntType | StrType | DecimalType | DatetimeType | TimedeltaType | UuidType
    | TextEnumType(enumName: string) | NumberEnumType(numberEnumName: string)
    | DataclassType(className: string)
    | MappingType | FrozensetType | TupleType | ListType
    | OtherType(typeName: string)

  function TypeOf(v: Value): RuntimeType
    requires !v.VNone?
  {
    match v
    case VBool(_) => BoolType
    case VInt(_) => IntType
    case VStr(_) => StrType
    case VDecimal(_) => DecimalType
    case VDatetime(_) => DatetimeType
    case VTimedelta(_) => TimedeltaType
    case VUuid(_) => UuidType
    case VEnum(name, Text(_)) => TextEnumType(name)
    case VEnum(name, Number(_)) => NumberEnumType(name)
    case VObject(name, _) => DataclassType(name)
    case VMapping(_) => MappingType
    case VSet(_) => FrozensetType
    case VTuple(_) => TupleType
    case VList(_) => ListType
    case VOther(name) => OtherType(name)
  }

  datatype Branch =
    | EnumBranch | DecimalBranch | DatetimeBranch | TimedeltaBranch | UuidBranch | ScalarBranch
    | DataclassBranch | MappingBranch | SetBranch | SequenceBranch

  predicate IsEnum(t: RuntimeType) {
    t.TextEnumType? || t.NumberEnumType?
  }

  /** `issubclass(t, bool | int | str)`: true of the enums too, whose members are strings or numbers. */
  predicate IsScalar(t: RuntimeType) {
    t.BoolType? || t.IntType? || t.StrType? || IsEnum(t)
  }

  /** `_resolve_encoder`: the chain of checks, in its order. */
  function Resolve(t: RuntimeType): Option<Branch> {
    if IsEnum(t) then Some(EnumBranch)
    else if t.DecimalType? then Some(DecimalBranch)
    else if t.DatetimeType? then Some(DatetimeBranch)
    else if t.TimedeltaType? then Some(TimedeltaBranch)
    else if t.UuidType? then Some(UuidBranch)
    else if IsScalar(t) then Some(ScalarBranch)
    else if t.DataclassType? then Some(DataclassBranch)
    else if t.MappingType? then Some(MappingBranch)
    else if t.FrozensetType? then Some(SetBranch)
    else if t.TupleType? || t.ListType? then Some(SequenceBranch)
    else None
  }

  lemma EncodeOfSequence(formats: Formats, v: Value, items: seq<Value>, encoded: seq<Json>)
    requires v == VTuple(items) || v == VList(items)
    requires |encoded| == |items| && forall k :: 0 <= k < |items| ==> Encode(formats, items[k]) == Some(encoded[k])
    ensures Encode(formats, v) == Some(JList(encoded))
  {
    var plain := seq(|items|, i requires 0 <= i < |items| => encoded[i]);
    assert plain == encoded;
    assert Encode(formats, v).Some?;
    assert Encode(formats, v).value.items == encoded;
  }

  lemma EncodeOfEntries(formats: Formats, v: Value, entries: map<string, Value>, encoded: map<string, Json>)
    requires v == VMapping(entries) || (v.VObject? && v.fields == entries)
    requires encoded.Keys == entries.Keys && forall k :: k in encoded ==> Encode(formats, entries[k]) == Some(encoded[k])
    ensures Encode(formats, v) == Some(JObject(encoded))
  {
    assert Encode(formats, v).Some?;
    assert Encode(formats, v).value.fields == encoded;
  }

  lemma EntryWithoutEncoding(formats: Formats, v: Value, entries: map<string, Value>, key: string)
    requires v == VMapping(entries) || (v.VObject? && v.fields == entries)
    requires key in entries && Encode(formats, entries[key]).None?
    ensures Encode(formats, v).None?
  {
  }

  lemma MemberWithoutEncoding(formats: Formats, elements: set<Value>, member: Value)
    requires member in elements && Encode(formats, member).None?
    ensures Encode(formats, VSet(elements)).None?
  {
  }

  lemma EnumeratesOneMore(order: seq<Value>, s: set<Value>, left: set<Value>, member: Value)
    requires left <= s && Enumerates(order, s - left) && member in left
    ensures Enumerates(order + [member], s - (left - {member}))
  {
  }

  class MemoEncoder {
    const formats: Formats
    var memo: map<RuntimeType, Branch>

    /** The memo holds answers of the chain and nothing else. */
    ghost predicate Valid()
      reads this
    {
      forall t :: t in memo ==> Resolve(t) == Some(memo[t])
    }

    constructor (formats: Formats)
      ensures Valid() && this.formats == formats && memo == map[]
    {
      this.formats := formats;
      memo := map[];
    }

    /** The branch of a type: from the memo, or resolved and remembered. */
    method BranchOf(t: RuntimeType) returns (branch: Option<Branch>)
      requires Valid()
      modifies this
      ensures Valid() && branch == Resolve(t)
    {
      if t in memo {
        return Some(memo[t]);
      }
      branch := Resolve(t);
      if branch.Some? {
        memo := memo[t := branch.value];
      }
    }

    /** Encode a value. The result is the plain encoder's, whatever was encoded before. */
    method EncodeValue(v: Value) returns (json: Option<Json>)
      requires Valid()
      modifies this
      ensures Valid() && json == Encode(formats, v)
      decreases v, 1
    {
      if v.VNone? {
        return Some(JNull);
      }
      var branch := BranchOf(TypeOf(v));
      if branch.None? {
        return None;
      }
      match branch.value
      case EnumBranch =>
        var valueBranch := BranchOf(if v.member.Text? then StrType else IntType);
        json := Some(ScalarJson(v.member));
      case DecimalBranch =>
        json := Some(JStr(formats.decimalText(v.decimal)));
      case DatetimeBranch =>
        json := Some(JStr(formats.instantText(v.instant)));
      case TimedeltaBranch =>
        json := Some(JInt(v.microseconds));
      case UuidBranch =>
        json := Some(JStr(formats.uuidText(v.id)));
      case ScalarBranch =>
        json := Some(match v case VBool(flag) => JBool(flag) case VInt(number) => JInt(number) case VStr(text) => JStr(text));
      case DataclassBranch =>
        json := EncodeEntries(v, v.fields);
      case MappingBranch =>
        json := EncodeEntries(v, v.entries);
      case SetBranch =>
        json := EncodeSet(v.elements);
      case SequenceBranch =>
        json := EncodeSequence(v, if v.VTuple? then v.items else v.listed);
    }

    method EncodeSequence(ghost v: Value, items: seq<Value>) returns (json: Option<Json>)
      requires Valid() && (v == VTuple(items) || v == VList(items))
      modifies this
      ensures Valid() && json == Encode(formats, v)
      decreases v, 0
    {
      var encoded: seq<Json> := [];
      for i := 0 to |items|
        invariant Valid() && |encoded| == i
        invariant forall k :: 0 <= k < i ==> Encode(formats, items[k]) == Some(encoded[k])
      {
        var item := EncodeValue(items[i]);
        if item.None? {
          return None;
        }
        encoded := encoded + [item.value];
      }
      EncodeOfSequence(formats, v, items, encoded);
      json := Some(JList(encoded));
    }

    method EncodeEntries(ghost v: Value, entries: map<string, Value>) returns (json: Option<Json>)
      requires Valid() && (v == VMapping(entries) || (v.VObject? && v.fields == entries))
      modifies this
      ensures Valid() && json == Encode(formats, v)
      decreases v, 0
    {
      var encoded: map<string, Json> := map[];
      var left := entries.Keys;
      while left != {}
        invariant Valid() && left <= entries.Keys && encoded.Keys == entries.Keys - left
        invariant forall k :: k in encoded ==> Encode(formats, entries[k]) == Some(encoded[k])
        decreases |left|
      {
        var key :| key in left;
        var entry := EncodeValue(entries[key]);
        if entry.None? {
          EntryWithoutEncoding(formats, v, entries, key);
          return None;
        }
        encoded := encoded[key := entry.value];
        left := left - {key};
      }
      assert encoded.Keys == entries.Keys;
      EncodeOfEntries(formats, v, entries, encoded);
      json := Some(JObject(encoded));
    }

    /** The members are visited in whatever order the set yields them. */
    method EncodeSet(elements: set<Value>) returns (json: Option<Json>)
      requires Valid()
      modifies this
      ensures Valid() && json == Encode(formats, VSet(elements))
      decreases VSet(elements), 0
    {
      var encoded: seq<Json> := [];
      ghost var order: seq<Value> := [];
      var left := elements;
      while left != {}
        invariant Valid() && left <= elements && Enumerates(order, elements - left)
        invariant forall x :: x in order ==> Encode(formats, x).Some?
        invariant encoded == MapBy(Encoder(formats), order)
        decreases |left|
      {
        var member :| member in left;
        var item := EncodeValue(member);
        if item.None? {
          MemberWithoutEncoding(formats, elements, member);
          return None;
        }
        MapByAppend(Encoder(formats), order, member);
        EnumeratesOneMore(order, elements, left, member);
        encoded := encoded + [item.value];
        order := order + [member];
        left := left - {member};
      }
      assert elements - left == elements;
      assert forall x :: x in elements ==> x in order;
      SetEncodingIgnoresIterationOrder(formats, elements, order);
      json := Some(JList(SortByText(encoded)));
    }
  }

  // ----- the order of the chain

  /** Whether a check of the chain lets a type through to its branch. */
  predicate Accepts(check: Branch, t: RuntimeType) {
    match check
    case EnumBranch => IsEnum(t)
    case DecimalBranch => t.DecimalType?
    case DatetimeBranch => t.DatetimeType?
    case TimedeltaBranch => t.TimedeltaType?
    case UuidBranch => t.UuidType?
    case ScalarBranch => IsScalar(t)
    case DataclassBranch => t.DataclassType?
    case MappingBranch => t.MappingType?
    case SetBranch => t.FrozensetType?
    case SequenceBranch => t.TupleType? || t.ListType?
  }

  /** What a chain of checks in some order resolves a type to. */
  function FirstOf(chain: seq<Branch>, t: RuntimeType): Option<Branch> {
    if chain == [] then None else if Accepts(chain[0], t) then Some(chain[0]) else FirstOf(chain[1..], t)
  }

  /** Every check, each once, in any order. */
  ghost predicate HoldsEveryCheck(chain: seq<Branch>) {
    && (forall b: Branch :: b in chain)
    && (forall i, j :: 0 <= i < j < |chain| ==> chain[i] != chain[j])
  }

  ghost predicate EnumsFirst(chain: seq<Branch>) {
    exists i, j :: 0 <= i < j < |chain| && chain[i] == EnumBranch && chain[j] == ScalarBranch
  }

  lemma {:induction false} FirstAcceptingIsTaken(chain: seq<Branch>, t: RuntimeType, k: nat)
    requires k < |chain| && Accepts(chain[k], t) && forall i :: 0 <= i < k ==> !Accepts(chain[i], t)
    ensures FirstOf(chain, t) == Some(chain[k])
    decreases chain
  {
    if k > 0 {
      FirstAcceptingIsTaken(chain[1..], t, k - 1);
    }
  }

  lemma {:induction false} NoneAccepting(chain: seq<Branch>, t: RuntimeType)
    requires forall i :: 0 <= i < |chain| ==> !Accepts(chain[i], t)
    ensures FirstOf(chain, t).None?
    decreases chain
  {
    if chain != [] {
      NoneAccepting(chain[1..], t);
    }
  }

  /** No type but an enum is let through by two checks. */
  lemma WhoAccepts(check: Branch, t: RuntimeType)
    ensures Accepts(check, t) <==> Resolve(t) == Some(check) || (IsEnum(t) && check == ScalarBranch)
  {
  }

  lemma AnyOrderResolves(chain: seq<Branch>, t: RuntimeType)
    requires HoldsEveryCheck(chain)
    ensures FirstOf(chain, t) == if IsEnum(t) && !EnumsFirst(chain) then Some(ScalarBranch) else Resolve(t)
  {
    forall i | 0 <= i < |chain| ensures Accepts(chain[i], t) <==> Resolve(t) == Some(chain[i]) || (IsEnum(t) && chain[i] == ScalarBranch) {
      WhoAccepts(chain[i], t);
    }
    if Resolve(t).None? {
      NoneAccepting(chain, t);
    } else {
      assert EnumBranch in chain && ScalarBranch in chain && Resolve(t).value in chain;
      var wanted := if IsEnum(t) && !EnumsFirst(chain) then ScalarBranch else Resolve(t).value;
      var k :| 0 <= k < |chain| && chain[k] == wanted;
      FirstAcceptingIsTaken(chain, t, k);
    }
  }

  /** Of all orders the chain could have, exactly those with the enum check ahead of the scalar check
      give every type its encoder. With the two the other way round every enum member is taken for
      the string or number it also is, and passes through as itself. */
  lemma OrderIsRightIffEnumsFirst(chain: seq<Branch>)
    requires HoldsEveryCheck(chain)
    ensures (forall t :: FirstOf(chain, t) == Resolve(t)) <==> EnumsFirst(chain)
    ensures !EnumsFirst(chain) ==> forall t :: IsEnum(t) ==> FirstOf(chain, t) == Some(ScalarBranch)
  {
    forall t ensures FirstOf(chain, t) == if IsEnum(t) && !EnumsFirst(chain) then Some(ScalarBranch) else Resolve(t) {
      AnyOrderResolves(chain, t);
    }
    assert FirstOf(chain, TextEnumType("")) == if EnumsFirst(chain) then Some(EnumBranch) else Some(ScalarBranch);
  }
}
