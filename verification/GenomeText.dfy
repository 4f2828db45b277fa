/** The genomes that can be constructed, as a grammar of two sorts, and the text each is hashed
    from, written out key by key. */
module GenomeText {
  import opened Decimals
  import opened Genome
  import opened Json
  import opened JsonStyles
  import opened JsonText
  import opened Options
  import opened Sequences

  // ----- which genomes there are

  predicate Named(text: Option<string>) {
    text.Some? && exists i :: 0 <= i < |text.value| && text.value[i] !in {' ', '\t', '\n', '\r'}
  }

  /** A number: a feature, a parameter, a finite constant, or an operation on two numbers. */
  predicate NumericTree(n: ExpressionNode)
    decreases n
  {
    || (n == ExpressionNode(Feature, None, n.featureId, None, None, []) && Named(n.featureId))
    || (n == ExpressionNode(Parameter, None, None, n.parameterName, None, []) && Named(n.parameterName))
    || (n == ExpressionNode(Constant, None, None, None, n.constant, []) && n.constant.Some? && n.constant.value.Finite?)
    || (|n.children| == 2
        && n == ExpressionNode(Arithmetic, n.operator, None, None, None, [n.children[0], n.children[1]])
        && n.operator in {Some("add"), Some("subtract"), Some("multiply"), Some("divide")}
        && NumericTree(n.children[0]) && NumericTree(n.children[1]))
  }

  /** A condition: two numbers compared, two or more conditions joined, or one denied. */
  predicate BooleanTree(n: ExpressionNode)
    decreases n
  {
    || (|n.children| == 2
        && n == ExpressionNode(Comparison, n.operator, None, None, None, [n.children[0], n.children[1]])
        && n.operator in {Some("lt"), Some("le"), Some("gt"), Some("ge")}
        && NumericTree(n.children[0]) && NumericTree(n.children[1]))
    || (|n.children| >= 2
        && n == ExpressionNode(Logical, n.operator, None, None, None, n.children)
        && n.operator in {Some("and"), Some("or")}
        && forall i :: 0 <= i < |n.children| ==> BooleanTree(n.children[i]))
    || (|n.children| == 1
        && n == ExpressionNode(Negation, None, None, None, None, [n.children[0]])
        && BooleanTree(n.children[0]))
  }

  lemma SaysIff(text: Option<string>)
    ensures Says(text) <==> Named(text)
  {
  }

  /** The nodes that pass validation, theirs and that of everything beneath them, are the trees of
      the grammar, and the sort of a node is the one its kind tells. */
  lemma {:induction false} ValidNodeIff(n: ExpressionNode)
    ensures ValidNode(n) && IsNumeric(n) <==> NumericTree(n)
    ensures ValidNode(n) && !IsNumeric(n) <==> BooleanTree(n)
    decreases n
  {
    SaysIff(n.featureId);
    SaysIff(n.parameterName);
    forall i | 0 <= i < |n.children|
      ensures ValidNode(n.children[i]) && IsNumeric(n.children[i]) <==> NumericTree(n.children[i])
      ensures ValidNode(n.children[i]) && !IsNumeric(n.children[i]) <==> BooleanTree(n.children[i])
    {
      ValidNodeIff(n.children[i]);
    }
    ChildrenOf(n);
    if |n.children| == 2 { assert n.children == [n.children[0], n.children[1]]; }
    if |n.children| == 1 { assert n.children == [n.children[0]]; }
  }

  lemma ChildrenOf(n: ExpressionNode)
    ensures AllNumeric(n.children) <==> forall i :: 0 <= i < |n.children| ==> IsNumeric(n.children[i])
    ensures NoneNumeric(n.children) <==> forall i :: 0 <= i < |n.children| ==> !IsNumeric(n.children[i])
    ensures (forall child :: child in n.children ==> ValidNode(child)) <==> forall i :: 0 <= i < |n.children| ==> ValidNode(n.children[i])
  {
    assert forall i :: 0 <= i < |n.children| ==> n.children[i] in n.children;
  }

  /** A genome can be constructed exactly when its rule is a condition of the grammar that reads only
      declared features and parameters, and what it declares is well formed. */
  lemma ValidGenomeIff(g: Genome)
    ensures ValidGenome(g) <==>
            && BooleanTree(g.entryRule)
            && g.featureIds != {} && g.horizonMicroseconds > 0
            && (forall x :: Within(g.entryRule, x) && x.kind == Feature ==> x.featureId.Some? && x.featureId.value in g.featureIds)
            && (forall x :: Within(g.entryRule, x) && x.kind == Parameter ==> x.parameterName.Some? && x.parameterName.value in g.parameters)
            && (forall name :: name in g.parameters ==> Named(Some(name)) && g.parameters[name].Finite?)
  {
    ValidNodeIff(g.entryRule);
    forall x ensures x in Walk(g.entryRule) <==> Within(g.entryRule, x) {
      WalkFindsWhatLiesBeneath(g.entryRule, x);
    }
    if ValidNode(g.entryRule) {
      forall x | Within(g.entryRule, x) ensures ShapeFits(x) {
        ShapeFitsWithin(g.entryRule, x);
      }
    }
    forall name | name in g.parameters ensures Named(Some(name)) <==> !Blank(name) {
      SaysIff(Some(name));
    }
  }

  lemma {:induction false} ShapeFitsWithin(n: ExpressionNode, x: ExpressionNode)
    requires ValidNode(n) && Within(n, x)
    ensures ShapeFits(x)
    decreases n
  {
    if x != n {
      var i :| 0 <= i < |n.children| && Within(n.children[i], x);
      assert n.children[i] in n.children;
      ShapeFitsWithin(n.children[i], x);
    }
  }

  // ----- the text that is hashed

  /** A string in digest text. */
  function TextOf(text: string): string {
    Render(CANONICAL, JStr(text))
  }

  function OptionalText(text: Option<string>): string {
    if text.None? then "null" else TextOf(text.value)
  }

  function ListOf(texts: seq<string>): string {
    "[" + Joined(texts, ",") + "]"
  }

  function ObjectOf(keys: seq<string>, values: seq<string>): string
    requires |keys| == |values|
  {
    "{" + Joined(seq(|keys|, i requires 0 <= i < |keys| => TextOf(keys[i]) + (":" + values[i])), ",") + "}"
  }

  const NODE_KEYS: seq<string> := ["children", "constant", "feature_id", "kind", "operator", "parameter_name"]

  /** A node, its six keys in alphabetical order and each always there. */
  function NodeText(precision: nat, n: ExpressionNode): string
    decreases n
  {
    ObjectOf(NODE_KEYS, [
      ListOf(seq(|n.children|, i requires 0 <= i < |n.children| => NodeText(precision, n.children[i]))),
      if n.constant.None? then "null" else TextOf(Canonical(precision, n.constant.value)),
      OptionalText(n.featureId),
      TextOf(KindText(n.kind)),
      OptionalText(n.operator),
      OptionalText(n.parameterName)])
  }

  lemma ObjectIsWritten(fields: map<string, Json>, keys: seq<string>, values: seq<string>)
    requires ListsKeys(keys, fields) && |values| == |keys|
    requires forall i :: 0 <= i < |keys| ==> keys[i] in fields && values[i] == Render(CANONICAL, fields[keys[i]])
    ensures Render(CANONICAL, JObject(fields)) == ObjectOf(keys, values)
  {
    BothLayouts([], fields, keys);
    assert PairEach(CANONICAL, fields, keys, ":") == seq(|keys|, i requires 0 <= i < |keys| => TextOf(keys[i]) + (":" + values[i]));
  }

  lemma {:induction false} NeighboursAscend(keys: seq<string>, i: nat, j: nat)
    requires i < j < |keys| && forall k :: 0 <= k < |keys| - 1 ==> Before(keys[k], keys[k + 1])
    ensures Before(keys[i], keys[j])
    decreases j
  {
    if i + 1 < j {
      NeighboursAscend(keys, i, j - 1);
      BeforeIsTransitive(keys[i], keys[j - 1], keys[j]);
    }
  }

  lemma NodeKeysAscend()
    ensures forall i, j :: 0 <= i < j < |NODE_KEYS| ==> Before(NODE_KEYS[i], NODE_KEYS[j])
  {
    assert Before("children", "constant") by { assert "children"[1..][0] == 'h' && "constant"[1..][0] == 'o'; }
    assert Before("constant", "feature_id") && Before("feature_id", "kind");
    assert Before("kind", "operator") && Before("operator", "parameter_name");
    forall i, j | 0 <= i < j < |NODE_KEYS| ensures Before(NODE_KEYS[i], NODE_KEYS[j]) {
      NeighboursAscend(NODE_KEYS, i, j);
    }
  }

  lemma NodeKeysListed(k: string, o: Json, f: Json, q: Json, c: Json, xs: seq<Json>)
    ensures ListsKeys(NODE_KEYS, NodeObject(k, o, f, q, c, xs).fields)
  {
    NodeKeysAscend();
    var fields := NodeObject(k, o, f, q, c, xs).fields;
    assert fields.Keys == {"kind", "operator", "feature_id", "parameter_name", "constant", "children"};
    assert NODE_KEYS[0] == "children" && NODE_KEYS[1] == "constant" && NODE_KEYS[2] == "feature_id";
    assert NODE_KEYS[3] == "kind" && NODE_KEYS[4] == "operator" && NODE_KEYS[5] == "parameter_name";
  }

  lemma ValuesOfNode(write: Json -> string, k: string, o: Json, f: Json, q: Json, c: Json, xs: seq<Json>)
    ensures var fields := NodeObject(k, o, f, q, c, xs).fields;
      var values := [write(JList(xs)), write(c), write(f), write(JStr(k)), write(o), write(q)];
      forall i :: 0 <= i < |NODE_KEYS| ==> NODE_KEYS[i] in fields && values[i] == write(fields[NODE_KEYS[i]])
  {
    NodeFields(k, o, f, q, c, xs);
    assert NODE_KEYS[0] == "children" && NODE_KEYS[1] == "constant" && NODE_KEYS[2] == "feature_id";
    assert NODE_KEYS[3] == "kind" && NODE_KEYS[4] == "operator" && NODE_KEYS[5] == "parameter_name";
  }

  lemma NodeObjectIsWritten(k: string, o: Json, f: Json, q: Json, c: Json, xs: seq<Json>)
    ensures Render(CANONICAL, NodeObject(k, o, f, q, c, xs)) ==
            ObjectOf(NODE_KEYS, [Render(CANONICAL, JList(xs)), Render(CANONICAL, c), Render(CANONICAL, f), TextOf(k), Render(CANONICAL, o), Render(CANONICAL, q)])
  {
    NodeKeysListed(k, o, f, q, c, xs);
    var write := (v: Json) => Render(CANONICAL, v);
    ValuesOfNode(write, k, o, f, q, c, xs);
    ObjectIsWritten(NodeObject(k, o, f, q, c, xs).fields, NODE_KEYS, [write(JList(xs)), write(c), write(f), write(JStr(k)), write(o), write(q)]);
  }

  /** What a node is called in the text. */
  lemma KindNames()
    ensures KindText(Feature) == "feature" && KindText(Parameter) == "parameter" && KindText(Constant) == "constant"
    ensures KindText(Arithmetic) == "arithmetic" && KindText(Comparison) == "comparison"
    ensures KindText(Logical) == "logical" && KindText(Negation) == "negation"
  {
  }

  lemma {:induction false} NodeIsWritten(precision: nat, n: ExpressionNode)
    ensures Render(CANONICAL, EncodeNode(precision, n)) == NodeText(precision, n)
    decreases n, 1
  {
    var encoded := EncodeNodes(precision, n.children);
    ChildrenAreWritten(precision, n);
    NodeObjectIsWritten(KindText(n.kind), Optional(n.operator), Optional(n.featureId), Optional(n.parameterName),
                        ConstantText(precision, n.constant), encoded);
  }

  lemma {:induction false} ChildrenAreWritten(precision: nat, n: ExpressionNode)
    ensures Render(CANONICAL, JList(EncodeNodes(precision, n.children))) ==
            ListOf(seq(|n.children|, i requires 0 <= i < |n.children| => NodeText(precision, n.children[i])))
    decreases n, 0
  {
    var children := seq(|n.children|, i requires 0 <= i < |n.children| => NodeText(precision, n.children[i]));
    var encoded := EncodeNodes(precision, n.children);
    forall i | 0 <= i < |n.children| ensures RenderEach(CANONICAL, encoded)[i] == children[i] {
      NodeIsWritten(precision, n.children[i]);
    }
    assert RenderEach(CANONICAL, encoded) == children;
    PackedList(encoded);
  }

  lemma PackedList(items: seq<Json>)
    ensures Render(CANONICAL, JList(items)) == ListOf(RenderEach(CANONICAL, items))
  {
    BothLayouts(items, map[], []);
  }

  const GENOME_KEYS: seq<string> := ["entry_rule", "feature_ids", "holding_horizon_microseconds", "parameters", "schema_version"]

  /** The names of a set, each once and in ascending order. */
  ghost predicate Lists(names: seq<string>, s: set<string>) {
    && (forall name :: name in names <==> name in s)
    && forall i, j :: 0 <= i < j < |names| ==> Before(names[i], names[j])
  }

  function TextsOf(names: seq<string>): seq<string> {
    seq(|names|, i requires 0 <= i < |names| => TextOf(names[i]))
  }

  /** The text of a genome around the text of its parameters, the recipe's version included. */
  function WholeText(precision: nat, g: Genome, features: seq<string>, parameters: string): string {
    ObjectOf(GENOME_KEYS, [
      NodeText(precision, g.entryRule), ListOf(TextsOf(features)), Render(CANONICAL, JInt(g.horizonMicroseconds)), parameters, "1"])
  }

  lemma StringsAreWritten(names: seq<string>, s: set<string>)
    requires Lists(names, s)
    ensures Render(CANONICAL, Strings(Sorted(s))) == ListOf(TextsOf(names))
  {
    SortedAscends(s);
    AscendingIsUnique(names, Sorted(s));
    PackedList(Strings(names).items);
    assert RenderEach(CANONICAL, Strings(names).items) == TextsOf(names);
  }

  function ValueTexts(precision: nat, parameters: map<string, Decimal>, names: seq<string>): seq<string>
    requires forall name :: name in names ==> name in parameters
  {
    seq(|names|, i requires 0 <= i < |names| => assert names[i] in names; TextOf(Canonical(precision, parameters[names[i]])))
  }

  lemma ParametersAreWritten(precision: nat, parameters: map<string, Decimal>, names: seq<string>)
    requires Lists(names, parameters.Keys)
    ensures Render(CANONICAL, ParameterValues(precision, parameters)) == ObjectOf(names, ValueTexts(precision, parameters, names))
  {
    var fields := ParameterValues(precision, parameters).fields;
    assert fields.Keys == parameters.Keys;
    forall i | 0 <= i < |names|
      ensures names[i] in fields && ValueTexts(precision, parameters, names)[i] == Render(CANONICAL, fields[names[i]])
    {
      assert names[i] in names;
      ParameterField(precision, parameters, names[i]);
    }
    ObjectIsWritten(fields, names, ValueTexts(precision, parameters, names));
  }

  lemma GenomeKeysListed(r: Json, p: Json, f: Json, h: int)
    ensures ListsKeys(GENOME_KEYS, PayloadObject(r, p, f, h).fields)
  {
    var fields := PayloadObject(r, p, f, h).fields;
    assert fields.Keys == {"entry_rule", "parameters", "feature_ids", "holding_horizon_microseconds", "schema_version"};
    assert GENOME_KEYS[0] == "entry_rule" && GENOME_KEYS[1] == "feature_ids" && GENOME_KEYS[2] == "holding_horizon_microseconds";
    assert GENOME_KEYS[3] == "parameters" && GENOME_KEYS[4] == "schema_version";
    assert Before("entry_rule", "feature_ids") && Before("feature_ids", "holding_horizon_microseconds");
    assert Before("holding_horizon_microseconds", "parameters") && Before("parameters", "schema_version");
    forall i, j | 0 <= i < j < |GENOME_KEYS| ensures Before(GENOME_KEYS[i], GENOME_KEYS[j]) {
      NeighboursAscend(GENOME_KEYS, i, j);
    }
  }

  lemma OneIsWritten()
    ensures Render(CANONICAL, JInt(1)) == "1"
  {
  }

  lemma ValuesOfPayload(write: Json -> string, r: Json, p: Json, f: Json, h: int)
    ensures var fields := PayloadObject(r, p, f, h).fields;
      var values := [write(r), write(f), write(JInt(h)), write(p), write(JInt(1))];
      forall i :: 0 <= i < |GENOME_KEYS| ==> GENOME_KEYS[i] in fields && values[i] == write(fields[GENOME_KEYS[i]])
  {
    PayloadFields(r, p, f, h);
    assert GENOME_KEYS[0] == "entry_rule" && GENOME_KEYS[1] == "feature_ids" && GENOME_KEYS[2] == "holding_horizon_microseconds";
    assert GENOME_KEYS[3] == "parameters" && GENOME_KEYS[4] == "schema_version";
    assert PayloadObject(r, p, f, h).fields["schema_version"] == JInt(1);
  }

  lemma PayloadIsWritten(r: Json, p: Json, f: Json, h: int)
    ensures Render(CANONICAL, PayloadObject(r, p, f, h)) ==
            ObjectOf(GENOME_KEYS, [Render(CANONICAL, r), Render(CANONICAL, f), Render(CANONICAL, JInt(h)), Render(CANONICAL, p), "1"])
  {
    GenomeKeysListed(r, p, f, h);
    OneIsWritten();
    var write := (v: Json) => Render(CANONICAL, v);
    ValuesOfPayload(write, r, p, f, h);
    ObjectIsWritten(PayloadObject(r, p, f, h).fields, GENOME_KEYS, [write(r), write(f), write(JInt(h)), write(p), write(JInt(1))]);
  }

  /** The two texts a genome is hashed from, key by key and whatever order its features and its
      parameters come in: rule, features by name, horizon, parameters and the version of the recipe;
      the parameters by name with their values, or by name alone. */
  lemma GenomeIsWritten(precision: nat, g: Genome, features: seq<string>, names: seq<string>)
    requires Lists(features, g.featureIds) && Lists(names, g.parameters.Keys)
    ensures IdentityText(precision, g, true) ==
            WholeText(precision, g, features, ObjectOf(names, ValueTexts(precision, g.parameters, names)))
    ensures IdentityText(precision, g, false) == WholeText(precision, g, features, ListOf(TextsOf(names)))
  {
    NodeIsWritten(precision, g.entryRule);
    StringsAreWritten(features, g.featureIds);
    StringsAreWritten(names, g.parameters.Keys);
    ParametersAreWritten(precision, g.parameters, names);
    var rule, listed := EncodeNode(precision, g.entryRule), Strings(Sorted(g.featureIds));
    PayloadIsWritten(rule, ParameterValues(precision, g.parameters), listed, g.horizonMicroseconds);
    PayloadIsWritten(rule, Strings(Sorted(g.parameters.Keys)), listed, g.horizonMicroseconds);
  }

  /** A lineage is named by the prefix and the first sixteen characters of its structure's digest. */
  lemma LineageIsNamed(digest: Digest, precision: nat, g: Genome, features: seq<string>, names: seq<string>)
    requires Lists(features, g.featureIds) && Lists(names, g.parameters.Keys) && forall text :: |digest(text)| == 64
    ensures var id, hash := LineageId(digest, precision, g), digest(WholeText(precision, g, features, ListOf(TextsOf(names))));
      |id| == 20 && id[..4] == "lin-" && id[4..] == hash[..16]
  {
    GenomeIsWritten(precision, g, features, names);
  }
}
