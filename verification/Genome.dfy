/** A genome, the canonical data its two identities are taken over, and what those identities
    identify. */
module Genome {
  import opened Decimals
  import opened Json
  import opened JsonStyles
  import opened Options
  import opened Sequences

  datatype NodeKind = Feature | Parameter | Constant | Arithmetic | Comparison | Logical | Negation

  datatype ExpressionNode = ExpressionNode(
    kind: NodeKind, operator: Option<string>, featureId: Option<string>, parameterName: Option<string>,
    constant: Option<Decimal>, children: seq<ExpressionNode>)

  function KindText(kind: NodeKind): string {
    match kind
    case Feature => "feature"
    case Parameter => "parameter"
    case Constant => "constant"
    case Arithmetic => "arithmetic"
    case Comparison => "comparison"
    case Logical => "logical"
    case Negation => "negation"
  }

  predicate IsNumeric(node: ExpressionNode) {
    node.kind in {Feature, Parameter, Constant, Arithmetic}
  }

  predicate Says(text: Option<string>) {
    text.Some? && !Blank(text.value)
  }

  predicate AllNumeric(nodes: seq<ExpressionNode>) {
    forall n :: n in nodes ==> IsNumeric(n)
  }

  predicate NoneNumeric(nodes: seq<ExpressionNode>) {
    forall n :: n in nodes ==> !IsNumeric(n)
  }

  /** `_validate_node`: the shape each kind requires, and no field a kind has no use for. */
  predicate ShapeFits(n: ExpressionNode) {
    && (match n.kind
        case Feature => n.children == [] && Says(n.featureId)
        case Parameter => n.children == [] && Says(n.parameterName)
        case Constant => n.children == [] && n.constant.Some? && n.constant.value.Finite?
        case Arithmetic => n.operator in {Some("add"), Some("subtract"), Some("multiply"), Some("divide")} && |n.children| == 2 && AllNumeric(n.children)
        case Comparison => n.operator in {Some("lt"), Some("le"), Some("gt"), Some("ge")} && |n.children| == 2 && AllNumeric(n.children)
        case Logical => n.operator in {Some("and"), Some("or")} && |n.children| >= 2 && NoneNumeric(n.children)
        case Negation => |n.children| == 1 && NoneNumeric(n.children))
    && (n.operator.Some? ==> n.kind in {Arithmetic, Comparison, Logical})
    && (n.featureId.Some? ==> n.kind == Feature)
    && (n.parameterName.Some? ==> n.kind == Parameter)
    && (n.constant.Some? ==> n.kind == Constant)
  }

  predicate ValidNode(n: ExpressionNode) {
    ShapeFits(n) && forall child :: child in n.children ==> ValidNode(child)
  }

  /** A node and every node beneath it, parents before children. */
  function Walk(n: ExpressionNode): seq<ExpressionNode>
    decreases n, 1
  {
    [n] + WalkAll(n.children)
  }

  function WalkAll(nodes: seq<ExpressionNode>): seq<ExpressionNode>
    decreases nodes, 0
  {
    if nodes == [] then [] else Walk(nodes[0]) + WalkAll(nodes[1..])
  }

  lemma {:induction false} WalkAllAppends(nodes: seq<ExpressionNode>, last: ExpressionNode)
    ensures WalkAll(nodes + [last]) == WalkAll(nodes) + Walk(last)
    decreases |nodes|
  {
    if nodes == [] {
      assert [last][1..] == [];
    } else {
      assert (nodes + [last])[1..] == nodes[1..] + [last];
      WalkAllAppends(nodes[1..], last);
    }
  }

  /** `walk`, extending its list child by child. */
  method CollectNodes(n: ExpressionNode) returns (found: seq<ExpressionNode>)
    ensures found == Walk(n)
  {
    found := [n];
    for i := 0 to |n.children|
      invariant found == [n] + WalkAll(n.children[..i])
    {
      var below := CollectNodes(n.children[i]);
      assert n.children[..i + 1] == n.children[..i] + [n.children[i]];
      WalkAllAppends(n.children[..i], n.children[i]);
      found := found + below;
    }
    assert n.children[..|n.children|] == n.children;
  }

  /** `x` is `n` or lies beneath it. */
  predicate Within(n: ExpressionNode, x: ExpressionNode)
    decreases n
  {
    x == n || exists i :: 0 <= i < |n.children| && Within(n.children[i], x)
  }

  /** The walk finds the node and exactly what lies beneath it, the node first. */
  lemma {:induction false} WalkFindsWhatLiesBeneath(n: ExpressionNode, x: ExpressionNode)
    ensures Walk(n)[0] == n && (x in Walk(n) <==> Within(n, x))
    decreases n, 1
  {
    WalkAllFinds(n.children, x);
  }

  lemma {:induction false} WalkAllFinds(nodes: seq<ExpressionNode>, x: ExpressionNode)
    ensures x in WalkAll(nodes) <==> exists i :: 0 <= i < |nodes| && Within(nodes[i], x)
    decreases nodes, 0
  {
    if nodes != [] {
      WalkFindsWhatLiesBeneath(nodes[0], x);
      WalkAllFinds(nodes[1..], x);
      if x in WalkAll(nodes[1..]) {
        var i :| 0 <= i < |nodes[1..]| && Within(nodes[1..][i], x);
        assert Within(nodes[i + 1], x);
      }
      if i :| 0 < i < |nodes| && Within(nodes[i], x) {
        assert nodes[1..][i - 1] == nodes[i];
      }
    }
  }

  datatype Genome = Genome(entryRule: ExpressionNode, parameters: map<string, Decimal>, featureIds: set<string>, horizonMicroseconds: int)

  predicate ValidGenome(g: Genome) {
    && ValidNode(g.entryRule) && !IsNumeric(g.entryRule)
    && g.featureIds != {} && g.horizonMicroseconds > 0
    && (forall n :: n in Walk(g.entryRule) && n.kind == Feature && n.featureId.Some? ==> n.featureId.value in g.featureIds)
    && (forall n :: n in Walk(g.entryRule) && n.kind == Parameter && n.parameterName.Some? ==> n.parameterName.value in g.parameters)
    && (forall name :: name in g.parameters ==> !Blank(name) && g.parameters[name].Finite?)
  }

  // ----- the canonical data

  function Optional(text: Option<string>): Json {
    match text
    case None => JNull
    case Some(value) => JStr(value)
  }

  function NodeObject(kind: string, operator: Json, featureId: Json, parameterName: Json, constant: Json, children: seq<Json>): Json {
    JObject(map[
      "kind" := JStr(kind), "operator" := operator, "feature_id" := featureId,
      "parameter_name" := parameterName, "constant" := constant, "children" := JList(children)])
  }

  /** Every key always present, so absence is explicit. */
  function EncodeNode(precision: nat, n: ExpressionNode): Json
    decreases n, 1
  {
    NodeObject(KindText(n.kind), Optional(n.operator), Optional(n.featureId), Optional(n.parameterName),
               ConstantText(precision, n.constant),
               EncodeNodes(precision, n.children))
  }

  function EncodeNodes(precision: nat, nodes: seq<ExpressionNode>): seq<Json>
    decreases nodes, 0
  {
    seq(|nodes|, i requires 0 <= i < |nodes| => EncodeNode(precision, nodes[i]))
  }

  function Strings(texts: seq<string>): Json {
    JList(seq(|texts|, i requires 0 <= i < |texts| => JStr(texts[i])))
  }

  function ParameterValues(precision: nat, parameters: map<string, Decimal>): Json {
    JObject(map name | name in parameters :: JStr(Canonical(precision, parameters[name])))
  }

  function PayloadObject(entryRule: Json, parameters: Json, featureIds: Json, horizonMicroseconds: int): Json {
    JObject(map[
      "entry_rule" := entryRule, "parameters" := parameters, "feature_ids" := featureIds,
      "holding_horizon_microseconds" := JInt(horizonMicroseconds), "schema_version" := JInt(1)])
  }

  ghost function CanonicalPayload(precision: nat, g: Genome, includeParameterValues: bool): Json {
    PayloadObject(EncodeNode(precision, g.entryRule),
                  if includeParameterValues then ParameterValues(precision, g.parameters) else Strings(Sorted(g.parameters.Keys)),
                  Strings(Sorted(g.featureIds)), g.horizonMicroseconds)
  }

  /** What has been collected once some of the names have been gone through. */
  ghost predicate Collected(precision: nat, parameters: map<string, Decimal>, names: seq<string>, values: map<string, Json>) {
    && (forall name :: name in values <==> name in names)
    && (forall name :: name in values ==> name in parameters && values[name] == JStr(Canonical(precision, parameters[name])))
  }

  lemma CollectsOneMore(precision: nat, parameters: map<string, Decimal>, names: seq<string>, values: map<string, Json>, name: string)
    requires Collected(precision, parameters, names, values) && name in parameters
    ensures Collected(precision, parameters, names + [name], values[name := JStr(Canonical(precision, parameters[name]))])
  {
  }

  lemma CollectedIsPayload(precision: nat, parameters: map<string, Decimal>, names: seq<string>, values: map<string, Json>)
    requires Collected(precision, parameters, names, values) && forall name :: name in names <==> name in parameters
    ensures JObject(values) == ParameterValues(precision, parameters)
  {
    var fields := ParameterValues(precision, parameters).fields;
    assert values.Keys == fields.Keys;
    forall name | name in values.Keys ensures values[name] == fields[name] {
      ParameterField(precision, parameters, name);
    }
    SameFields(values, fields);
  }

  /** The parameters are collected name by name. */
  method CollectParameters(precision: nat, parameters: map<string, Decimal>, names: seq<string>) returns (values: map<string, Json>)
    requires forall name :: name in names ==> name in parameters
    ensures Collected(precision, parameters, names, values)
  {
    values := map[];
    for i := 0 to |names|
      invariant Collected(precision, parameters, names[..i], values)
    {
      assert names[i] in names;
      CollectsOneMore(precision, parameters, names[..i], values, names[i]);
      assert names[..i + 1] == names[..i] + [names[i]];
      values := values[names[i] := JStr(Canonical(precision, parameters[names[i]]))];
    }
    assert names[..|names|] == names;
  }

  /** `canonical_payload`, with the values of the parameters or with their names only. */
  method CollectPayload(precision: nat, g: Genome, includeParameterValues: bool) returns (payload: Json)
    ensures payload == CanonicalPayload(precision, g, includeParameterValues)
  {
    var names := Sorted(g.parameters.Keys);
    var parameters := Strings(names);
    if includeParameterValues {
      var values := CollectParameters(precision, g.parameters, names);
      CollectedIsPayload(precision, g.parameters, names, values);
      parameters := JObject(values);
    }
    payload := PayloadObject(EncodeNode(precision, g.entryRule), parameters, Strings(Sorted(g.featureIds)), g.horizonMicroseconds);
  }

  /** The text `genome_hash` and `structure_hash` are the SHA-256 of. */
  ghost function IdentityText(precision: nat, g: Genome, includeParameterValues: bool): string {
    Render(CANONICAL, CanonicalPayload(precision, g, includeParameterValues))
  }

  // ----- what the identities identify

  /** When two decimals count as one. */
  type Likeness = (Decimal, Decimal) -> bool

  predicate SameDecimal(a: Decimal, b: Decimal) {
    a.Finite? && b.Finite? && Value(a) == Value(b)
  }

  /** Equal once each is rounded to the precision of its own decimal context. */
  function SameRounded(p: nat, q: nat): Likeness {
    (a: Decimal, b: Decimal) => a.Finite? && b.Finite? && Value(ToPrecision(p, a)) == Value(ToPrecision(q, b))
  }

  predicate SameConstant(alike: Likeness, a: Option<Decimal>, b: Option<Decimal>) {
    a.Some? == b.Some? && (a.Some? ==> alike(a.value, b.value))
  }

  /** The same tree, whatever the spelling of its constants. */
  predicate SameTree(alike: Likeness, a: ExpressionNode, b: ExpressionNode)
    decreases a
  {
    && a.kind == b.kind && a.operator == b.operator && a.featureId == b.featureId && a.parameterName == b.parameterName
    && SameConstant(alike, a.constant, b.constant)
    && |a.children| == |b.children|
    && forall i :: 0 <= i < |a.children| ==> SameTree(alike, a.children[i], b.children[i])
  }

  predicate SameParameters(alike: Likeness, a: map<string, Decimal>, b: map<string, Decimal>) {
    a.Keys == b.Keys && forall name :: name in a ==> alike(a[name], b[name])
  }

  predicate SameStructure(alike: Likeness, a: Genome, b: Genome) {
    && SameTree(alike, a.entryRule, b.entryRule) && a.parameters.Keys == b.parameters.Keys
    && a.featureIds == b.featureIds && a.horizonMicroseconds == b.horizonMicroseconds
  }

  predicate SameHypothesis(alike: Likeness, a: Genome, b: Genome) {
    SameStructure(alike, a, b) && SameParameters(alike, a.parameters, b.parameters)
  }

  predicate PreciseNode(precision: nat, n: ExpressionNode)
    decreases n
  {
    && (n.constant.Some? ==> WithinPrecision(precision, n.constant.value))
    && forall child :: child in n.children ==> PreciseNode(precision, child)
  }

  /** Every number in the genome fits the decimal context's precision. */
  predicate Precise(precision: nat, g: Genome) {
    PreciseNode(precision, g.entryRule) && forall name :: name in g.parameters ==> WithinPrecision(precision, g.parameters[name])
  }

  predicate AllFinite(parameters: map<string, Decimal>) {
    forall name :: name in parameters ==> parameters[name].Finite?
  }

  lemma KindTextsDiffer(a: NodeKind, b: NodeKind)
    ensures KindText(a) == KindText(b) <==> a == b
  {
  }

  lemma NodeFields(k: string, o: Json, f: Json, p: Json, c: Json, xs: seq<Json>)
    ensures var fields := NodeObject(k, o, f, p, c, xs).fields;
      && "kind" in fields && fields["kind"] == JStr(k)
      && "operator" in fields && fields["operator"] == o
      && "feature_id" in fields && fields["feature_id"] == f
      && "parameter_name" in fields && fields["parameter_name"] == p
      && "constant" in fields && fields["constant"] == c
      && "children" in fields && fields["children"] == JList(xs)
  {
  }

  lemma NodeObjectIff(k: string, o: Json, f: Json, p: Json, c: Json, xs: seq<Json>, k': string, o': Json, f': Json, p': Json, c': Json, xs': seq<Json>)
    ensures NodeObject(k, o, f, p, c, xs) == NodeObject(k', o', f', p', c', xs') <==>
            k == k' && o == o' && f == f' && p == p' && c == c' && xs == xs'
  {
    NodeFields(k, o, f, p, c, xs);
    NodeFields(k', o', f', p', c', xs');
  }

  function ConstantText(precision: nat, constant: Option<Decimal>): Json {
    if constant.None? then JNull else JStr(Canonical(precision, constant.value))
  }

  lemma ConstantIff(p: nat, a: Option<Decimal>, q: nat, b: Option<Decimal>)
    requires (a.Some? ==> a.value.Finite?) && (b.Some? ==> b.value.Finite?)
    ensures ConstantText(p, a) == ConstantText(q, b) <==> SameConstant(SameRounded(p, q), a, b)
  {
    if a.Some? && b.Some? { CanonicalIff(p, a.value, q, b.value); }
  }

  lemma SameEntries(xs: seq<Json>, ys: seq<Json>)
    ensures xs == ys <==> |xs| == |ys| && forall i :: 0 <= i < |xs| ==> xs[i] == ys[i]
  {
  }

  lemma {:induction false} TreePayloadIff(p: nat, a: ExpressionNode, q: nat, b: ExpressionNode)
    requires ValidNode(a) && ValidNode(b)
    ensures EncodeNode(p, a) == EncodeNode(q, b) <==> SameTree(SameRounded(p, q), a, b)
    decreases a
  {
    KindTextsDiffer(a.kind, b.kind);
    ConstantIff(p, a.constant, q, b.constant);
    var xs, ys := EncodeNodes(p, a.children), EncodeNodes(q, b.children);
    NodeObjectIff(KindText(a.kind), Optional(a.operator), Optional(a.featureId), Optional(a.parameterName), ConstantText(p, a.constant), xs,
                  KindText(b.kind), Optional(b.operator), Optional(b.featureId), Optional(b.parameterName), ConstantText(q, b.constant), ys);
    forall i | 0 <= i < |a.children| && i < |b.children|
      ensures xs[i] == ys[i] <==> SameTree(SameRounded(p, q), a.children[i], b.children[i])
    {
      TreePayloadIff(p, a.children[i], q, b.children[i]);
    }
    SameEntries(xs, ys);
  }

  lemma StringsIff(a: set<string>, b: set<string>)
    ensures Strings(Sorted(a)) == Strings(Sorted(b)) <==> a == b
  {
    var ka, kb := Sorted(a), Sorted(b);
    if Strings(ka) == Strings(kb) {
      forall i | 0 <= i < |ka| ensures |ka| == |kb| && ka[i] == kb[i] {
        assert Strings(ka).items[i] == Strings(kb).items[i];
      }
      assert ka == kb;
      assert forall x :: x in a <==> x in ka;
    }
  }

  lemma ParameterField(p: nat, a: map<string, Decimal>, name: string)
    requires name in a
    ensures name in ParameterValues(p, a).fields && ParameterValues(p, a).fields[name] == JStr(Canonical(p, a[name]))
  {
  }

  lemma ParameterAgrees(p: nat, a: map<string, Decimal>, q: nat, b: map<string, Decimal>, name: string)
    requires name in a && name in b && a[name].Finite? && b[name].Finite?
    ensures name in ParameterValues(p, a).fields && name in ParameterValues(q, b).fields
    ensures ParameterValues(p, a).fields[name] == ParameterValues(q, b).fields[name] <==> SameRounded(p, q)(a[name], b[name])
  {
    ParameterField(p, a, name);
    ParameterField(q, b, name);
    CanonicalIff(p, a[name], q, b[name]);
  }

  lemma SameFields(a: map<string, Json>, b: map<string, Json>)
    requires a.Keys == b.Keys && forall name :: name in a.Keys ==> a[name] == b[name]
    ensures a == b
  {
  }

  lemma SameParametersSameText(p: nat, a: map<string, Decimal>, q: nat, b: map<string, Decimal>)
    requires AllFinite(a) && AllFinite(b) && SameParameters(SameRounded(p, q), a, b)
    ensures ParameterValues(p, a) == ParameterValues(q, b)
  {
    var fieldsA, fieldsB := ParameterValues(p, a).fields, ParameterValues(q, b).fields;
    assert fieldsA.Keys == a.Keys && fieldsB.Keys == b.Keys;
    forall name | name in fieldsA.Keys ensures fieldsA[name] == fieldsB[name] {
      ParameterAgrees(p, a, q, b, name);
    }
    SameFields(fieldsA, fieldsB);
  }

  lemma ParametersIff(p: nat, a: map<string, Decimal>, q: nat, b: map<string, Decimal>)
    requires AllFinite(a) && AllFinite(b)
    ensures ParameterValues(p, a) == ParameterValues(q, b) <==> SameParameters(SameRounded(p, q), a, b)
  {
    if SameParameters(SameRounded(p, q), a, b) {
      SameParametersSameText(p, a, q, b);
    } else if ParameterValues(p, a) == ParameterValues(q, b) {
      assert a.Keys == ParameterValues(p, a).fields.Keys == ParameterValues(q, b).fields.Keys == b.Keys;
      forall name | name in a ensures SameRounded(p, q)(a[name], b[name]) {
        ParameterAgrees(p, a, q, b, name);
      }
    }
  }

  lemma PayloadFields(r: Json, p: Json, f: Json, h: int)
    ensures var fields := PayloadObject(r, p, f, h).fields;
      && "entry_rule" in fields && fields["entry_rule"] == r
      && "parameters" in fields && fields["parameters"] == p
      && "feature_ids" in fields && fields["feature_ids"] == f
      && "holding_horizon_microseconds" in fields && fields["holding_horizon_microseconds"] == JInt(h)
  {
  }

  lemma PayloadObjectIff(r: Json, p: Json, f: Json, h: int, r': Json, p': Json, f': Json, h': int)
    ensures PayloadObject(r, p, f, h) == PayloadObject(r', p', f', h') <==> r == r' && p == p' && f == f' && h == h'
  {
    PayloadFields(r, p, f, h);
    PayloadFields(r', p', f', h');
  }

  /** The text under `genome_hash` identifies the hypothesis: two valid genomes have it in common
      exactly when tree, features, horizon and parameters agree as values, whatever their spelling,
      once every number is rounded to the precision of the decimal context it was hashed under. */
  lemma GenomeTextIff(p: nat, a: Genome, q: nat, b: Genome)
    requires ValidGenome(a) && ValidGenome(b)
    ensures IdentityText(p, a, true) == IdentityText(q, b, true) <==> SameHypothesis(SameRounded(p, q), a, b)
  {
    TextDeterminesValue(CanonicalPayload(p, a, true), CanonicalPayload(q, b, true));
    PayloadObjectIff(EncodeNode(p, a.entryRule), ParameterValues(p, a.parameters), Strings(Sorted(a.featureIds)), a.horizonMicroseconds,
                     EncodeNode(q, b.entryRule), ParameterValues(q, b.parameters), Strings(Sorted(b.featureIds)), b.horizonMicroseconds);
    TreePayloadIff(p, a.entryRule, q, b.entryRule);
    StringsIff(a.featureIds, b.featureIds);
    ParametersIff(p, a.parameters, q, b.parameters);
  }

  /** The text under `structure_hash` identifies the family: it agrees exactly when the genomes
      differ at most in the values of their parameters. */
  lemma StructureTextIff(p: nat, a: Genome, q: nat, b: Genome)
    requires ValidGenome(a) && ValidGenome(b)
    ensures IdentityText(p, a, false) == IdentityText(q, b, false) <==> SameStructure(SameRounded(p, q), a, b)
  {
    TextDeterminesValue(CanonicalPayload(p, a, false), CanonicalPayload(q, b, false));
    PayloadObjectIff(EncodeNode(p, a.entryRule), Strings(Sorted(a.parameters.Keys)), Strings(Sorted(a.featureIds)), a.horizonMicroseconds,
                     EncodeNode(q, b.entryRule), Strings(Sorted(b.parameters.Keys)), Strings(Sorted(b.featureIds)), b.horizonMicroseconds);
    TreePayloadIff(p, a.entryRule, q, b.entryRule);
    StringsIff(a.featureIds, b.featureIds);
    StringsIff(a.parameters.Keys, b.parameters.Keys);
  }

  lemma PreciseIsUnrounded(p: nat, a: Decimal, q: nat, b: Decimal)
    requires WithinPrecision(p, a) && WithinPrecision(q, b)
    ensures SameRounded(p, q)(a, b) <==> SameDecimal(a, b)
  {
  }

  lemma {:induction false} PreciseTreesIff(p: nat, a: ExpressionNode, q: nat, b: ExpressionNode)
    requires PreciseNode(p, a) && PreciseNode(q, b)
    ensures SameTree(SameRounded(p, q), a, b) <==> SameTree(SameDecimal, a, b)
    decreases a
  {
    if a.constant.Some? && b.constant.Some? { PreciseIsUnrounded(p, a.constant.value, q, b.constant.value); }
    forall i | 0 <= i < |a.children| && i < |b.children|
      ensures SameTree(SameRounded(p, q), a.children[i], b.children[i]) <==> SameTree(SameDecimal, a.children[i], b.children[i])
    {
      PreciseTreesIff(p, a.children[i], q, b.children[i]);
    }
  }

  /** While every number fits the precision it is hashed under, the rounding changes nothing: the
      texts identify hypothesis and family exactly, whichever contexts they were made under. */
  lemma PreciseGenomesAreIdentified(p: nat, a: Genome, q: nat, b: Genome)
    requires ValidGenome(a) && ValidGenome(b) && Precise(p, a) && Precise(q, b)
    ensures IdentityText(p, a, true) == IdentityText(q, b, true) <==> SameHypothesis(SameDecimal, a, b)
    ensures IdentityText(p, a, false) == IdentityText(q, b, false) <==> SameStructure(SameDecimal, a, b)
  {
    GenomeTextIff(p, a, q, b);
    StructureTextIff(p, a, q, b);
    PreciseTreesIff(p, a.entryRule, q, b.entryRule);
    forall name | name in a.parameters && name in b.parameters
      ensures SameRounded(p, q)(a.parameters[name], b.parameters[name]) <==> SameDecimal(a.parameters[name], b.parameters[name])
    {
      PreciseIsUnrounded(p, a.parameters[name], q, b.parameters[name]);
    }
  }

  lemma RetunedParameters(p: nat, parameters: map<string, Decimal>, name: string, moved: Decimal)
    requires name in parameters && moved.Finite? && AllFinite(parameters)
    ensures SameParameters(SameRounded(p, p), parameters[name := moved], parameters) <==> SameRounded(p, p)(moved, parameters[name])
  {
    var retuned := parameters[name := moved];
    assert retuned.Keys == parameters.Keys;
    assert SameRounded(p, p)(retuned[name], parameters[name]) <==> SameRounded(p, p)(moved, parameters[name]);
  }

  /** A re-tuned genome stays in its family and does not keep its identity: with any parameter moved
      the structure text is unchanged, and the genome text is unchanged only if the move does not
      survive the rounding. */
  lemma RetuningKeepsFamilyOnly(p: nat, g: Genome, name: string, moved: Decimal)
    requires ValidGenome(g) && name in g.parameters && moved.Finite?
    ensures var mutant := g.(parameters := g.parameters[name := moved]);
      && IdentityText(p, mutant, false) == IdentityText(p, g, false)
      && (IdentityText(p, mutant, true) == IdentityText(p, g, true) <==> SameRounded(p, p)(moved, g.parameters[name]))
  {
    var mutant := g.(parameters := g.parameters[name := moved]);
    SameTreeIsReflexive(p, g.entryRule);
    assert mutant.parameters.Keys == g.parameters.Keys;
    assert ValidGenome(mutant);
    RetunedParameters(p, g.parameters, name, moved);
    StructureTextIff(p, mutant, p, g);
    GenomeTextIff(p, mutant, p, g);
  }

  lemma {:induction false} SameTreeIsReflexive(p: nat, n: ExpressionNode)
    requires ValidNode(n)
    ensures SameTree(SameRounded(p, p), n, n)
    decreases n
  {
    forall i | 0 <= i < |n.children| ensures SameTree(SameRounded(p, p), n.children[i], n.children[i]) {
      SameTreeIsReflexive(p, n.children[i]);
    }
  }

  /** Any digest function, giving lower-case hex. */
  type Digest = string -> string

  ghost function GenomeHash(digest: Digest, precision: nat, g: Genome): string {
    digest(IdentityText(precision, g, true))
  }

  ghost function StructureHash(digest: Digest, precision: nat, g: Genome): string {
    digest(IdentityText(precision, g, false))
  }

  const LINEAGE_ID_HEX_CHARS: nat := 16

  /** The part of a structure hash that names a family. */
  function Shortened(hash: string): string {
    if |hash| >= LINEAGE_ID_HEX_CHARS then hash[..LINEAGE_ID_HEX_CHARS] else hash
  }

  ghost function LineageId(digest: Digest, precision: nat, g: Genome): string {
    "lin-" + Shortened(StructureHash(digest, precision, g))
  }

  /** Two texts with digests that begin alike. */
  ghost predicate ShortlyCollide(digest: Digest, a: string, b: string) {
    a != b && Shortened(digest(a)) == Shortened(digest(b))
  }

  /** Under any digest, two genomes have one lineage exactly when they are of one structure, or else
      their two structure texts collide in the characters a lineage is named by; and one hash
      exactly when they are one hypothesis, or else their texts collide outright. */
  lemma LineageIsStructureOrCollision(digest: Digest, p: nat, a: Genome, q: nat, b: Genome)
    requires ValidGenome(a) && ValidGenome(b)
    ensures LineageId(digest, p, a) == LineageId(digest, q, b) <==>
            SameStructure(SameRounded(p, q), a, b) || ShortlyCollide(digest, IdentityText(p, a, false), IdentityText(q, b, false))
    ensures GenomeHash(digest, p, a) == GenomeHash(digest, q, b) ==>
              SameHypothesis(SameRounded(p, q), a, b) || ShortlyCollide(digest, IdentityText(p, a, true), IdentityText(q, b, true))
  {
    StructureTextIff(p, a, q, b);
    GenomeTextIff(p, a, q, b);
    DropPrefixIff("lin-", Shortened(StructureHash(digest, p, a)), Shortened(StructureHash(digest, q, b)));
  }

  lemma DropPrefixIff(prefix: string, a: string, b: string)
    ensures prefix + a == prefix + b <==> a == b
  {
    if prefix + a == prefix + b { DropPrefix(prefix, a, b); }
  }

  /** `price > threshold`, for a feature and a parameter of those names. */
  function ThresholdGenome(threshold: Decimal): Genome {
    var leaf := ExpressionNode(Feature, None, Some("price"), None, None, []);
    var knob := ExpressionNode(Parameter, None, None, Some("threshold"), None, []);
    Genome(ExpressionNode(Comparison, Some("gt"), None, None, None, [leaf, knob]), map["threshold" := threshold], {"price"}, 1)
  }

  lemma ThresholdGenomeIsValid(threshold: Decimal)
    requires threshold.Finite?
    ensures ValidGenome(ThresholdGenome(threshold))
  {
    var rule := ThresholdGenome(threshold).entryRule;
    var leaf, knob := rule.children[0], rule.children[1];
    assert "price"[0] == 'p' && "threshold"[0] == 't';
    assert rule.children[1..] == [knob] && [knob][1..] == [] && leaf.children == [];
    assert Walk(leaf) == [leaf] && Walk(knob) == [knob];
    assert WalkAll([knob]) == [knob];
    assert Walk(rule) == [rule, leaf, knob];
  }

  lemma NeighboursShareIdentity(precision: nat, c: nat)
    requires WithNeighbourSpeltAlike(precision, c)
    ensures var a, b := ThresholdGenome(Finite(false, c, 0)), ThresholdGenome(Finite(false, c + 1, 0));
      IdentityText(precision, a, true) == IdentityText(precision, b, true) && !SameHypothesis(SameDecimal, a, b)
  {
    var a, b := ThresholdGenome(Finite(false, c, 0)), ThresholdGenome(Finite(false, c + 1, 0));
    assert ParameterValues(precision, a.parameters).fields == ParameterValues(precision, b.parameters).fields;
    assert CanonicalPayload(precision, a, true) == CanonicalPayload(precision, b, true);
    assert !SameDecimal(a.parameters["threshold"], b.parameters["threshold"]);
  }

  /** Outside the decimal context's precision, whatever it is, the identity text does not identify
      the hypothesis: two valid genomes differ in the value of a threshold and share it. */
  lemma LongThresholdsShareIdentity(precision: nat)
    requires precision > 0
    ensures exists c: nat ::
              var a, b := ThresholdGenome(Finite(false, c, 0)), ThresholdGenome(Finite(false, c + 1, 0));
              && ValidGenome(a) && ValidGenome(b)
              && IdentityText(precision, a, true) == IdentityText(precision, b, true) && !SameHypothesis(SameDecimal, a, b)
  {
    CanonicalMergesBeyondPrecision(precision);
    var c: nat :| WithNeighbourSpeltAlike(precision, c);
    ThresholdGenomeIsValid(Finite(false, c, 0));
    ThresholdGenomeIsValid(Finite(false, c + 1, 0));
    NeighboursShareIdentity(precision, c);
  }
}
