/** scripts/domain_data_product_contract_check.py: the schema graph of an OpenAPI document,
    and the check that every declared product route exposes its required trust metadata. */
module SchemaPaths {
  import opened Values
  import opened Graphs
  import opened PathSearch

  // ---------------------------------------------------------------- references

  /** The value reached by looking up the segments one after the other. */
  function Follow(target: Json, segments: seq<string>): Json
    decreases |segments|
  {
    if segments == [] then target
    else if target.Obj? then Follow(Get(target.fields, segments[0]), segments[1..])
    else Null
  }

  predicate LocalRef(schema: Dict) {
    Get(schema, "$ref").Str? && "#/" <= Get(schema, "$ref").text
  }

  /** One hop of a local reference; a reference that leads to no object leaves the schema. */
  function Resolved(root: Dict, schema: Dict): Dict {
    if LocalRef(schema) then
      var target := Follow(Obj(root), Split(Get(schema, "$ref").text[2..], '/'));
      if target.Obj? then target.fields else schema
    else
      schema
  }

  method ResolveSchemaRef(root: Dict, schema: Dict) returns (r: Dict)
    ensures r == Resolved(root, schema) && StandsFor(root, schema, r)
  {
    ResolvedExactly(root, schema, Resolved(root, schema));
    if !LocalRef(schema) {
      return schema;
    }
    var segments := Split(Get(schema, "$ref").text[2..], '/');
    var target := Obj(root);
    for i := 0 to |segments|
      invariant Follow(target, segments[i..]) == Follow(Obj(root), segments)
    {
      if !target.Obj? {
        return schema;
      }
      target := Get(target.fields, segments[i]);
      assert segments[i..][1..] == segments[i + 1..];
    }
    r := if target.Obj? then target.fields else schema;
  }

  // ---------------------------------------------------------------- the graph of a document

  function Objects(items: seq<Json>): (r: seq<Dict>) {
    if items == [] then []
    else (if items[0].Obj? then [items[0].fields] else []) + Objects(items[1..])
  }

  function MembersUnder(node: Dict, unions: seq<string>): seq<Dict> {
    if unions == [] then []
    else
      (if Get(node, unions[0]).List? then Objects(Get(node, unions[0]).items) else [])
      + MembersUnder(node, unions[1..])
  }

  const UNION_KEYS := ["allOf", "anyOf", "oneOf"]

  /** The schema one token below a resolved schema. */
  function Child(node: Dict, token: string): Option<Dict> {
    if token == "*" then
      if Get(node, "additionalProperties").Obj? then Some(Get(node, "additionalProperties").fields)
      else if Get(node, "items").Obj? then Some(Get(node, "items").fields)
      else None
    else
      var properties := Get(node, "properties");
      if properties.Obj? && Get(properties.fields, token).Obj? then
        Some(Get(properties.fields, token).fields)
      else None
  }

  /** The search graph: each schema is first replaced by what it references. */
  function Document(root: Dict): SchemaGraph<Dict> {
    SchemaGraph(
      schema => MembersUnder(Resolved(root, schema), UNION_KEYS),
      (schema, token) => Child(Resolved(root, schema), token))
  }

  function SchemaHasPath(root: Dict, schema: Dict, path: string, depth: nat): Reply {
    HasPath(Document(root), schema, Split(path, '.'), depth)
  }

  // ---------------------------------------------------------------- the graph is finite

  /** Every object inside a JSON value: the nodes of the schema graph. */
  ghost function Nodes(j: Json): set<Dict> {
    match j
    case Obj(f) => {f} + set k, n | k in f.Keys && n in Nodes(f[k]) :: n
    case List(items) => set i, n | 0 <= i < |items| && n in Nodes(items[i]) :: n
    case _ => {}
  }

  lemma {:induction false} NodesNest(j: Json, f: Dict, k: string)
    requires f in Nodes(j) && k in f
    ensures Nodes(f[k]) <= Nodes(j)
  {
    match j
    case Obj(g) =>
      if f != g {
        var key :| key in g && f in Nodes(g[key]);
        NodesNest(g[key], f, k);
      }
    case List(items) =>
      var i :| 0 <= i < |items| && f in Nodes(items[i]);
      NodesNest(items[i], f, k);
    case _ =>
  }

  lemma {:induction false} FollowStaysInside(root: Json, target: Json, segments: seq<string>)
    requires Nodes(target) <= Nodes(root)
    ensures Nodes(Follow(target, segments)) <= Nodes(root)
    decreases |segments|
  {
    if segments != [] && target.Obj? {
      if segments[0] in target.fields {
        NodesNest(target, target.fields, segments[0]);
      }
      FollowStaysInside(root, Get(target.fields, segments[0]), segments[1..]);
    }
  }

  lemma ResolvedInside(root: Dict, schema: Dict)
    requires schema in Nodes(Obj(root))
    ensures Resolved(root, schema) in Nodes(Obj(root))
  {
    if LocalRef(schema) {
      FollowStaysInside(Obj(root), Obj(root), Split(Get(schema, "$ref").text[2..], '/'));
    }
  }

  lemma {:induction false} ObjectsAreItems(items: seq<Json>, m: Dict)
    requires m in Objects(items)
    ensures exists i :: 0 <= i < |items| && items[i] == Obj(m)
  {
    if items[0] != Obj(m) {
      ObjectsAreItems(items[1..], m);
      var i :| 0 <= i < |items[1..]| && items[1..][i] == Obj(m);
      assert items[i + 1] == Obj(m);
    }
  }

  lemma {:induction false} MembersInside(root: Json, node: Dict, unions: seq<string>, m: Dict)
    requires node in Nodes(root) && m in MembersUnder(node, unions)
    ensures m in Nodes(root)
  {
    if m in MembersUnder(node, unions[1..]) {
      MembersInside(root, node, unions[1..], m);
    } else {
      NodesNest(root, node, unions[0]);
      ObjectsAreItems(node[unions[0]].items, m);
      var i :| 0 <= i < |node[unions[0]].items| && node[unions[0]].items[i] == Obj(m);
      assert m in Nodes(node[unions[0]].items[i]);
    }
  }

  lemma ChildInside(root: Json, node: Dict, token: string)
    requires node in Nodes(root) && Child(node, token).Some?
    ensures Child(node, token).value in Nodes(root)
  {
    if token == "*" {
      NodesNest(root, node, if Get(node, "additionalProperties").Obj? then "additionalProperties" else "items");
    } else {
      NodesNest(root, node, "properties");
      NodesNest(node["properties"], node["properties"].fields, token);
    }
  }

  /** Resolving a reference, entering a union and going down a token all stay in the document. */
  lemma DocumentClosed(root: Dict)
    ensures Closed(Document(root), Nodes(Obj(root)))
  {
    var g := Document(root);
    forall a: Position<Dict>, b: Position<Dict> | a.node in Nodes(Obj(root)) && Step(g, a, b)
      ensures b.node in Nodes(Obj(root))
    {
      ResolvedInside(root, a.node);
      if b.node in g.members(a.node) {
        MembersInside(Obj(root), Resolved(root, a.node), UNION_KEYS, b.node);
      } else {
        ChildInside(Obj(root), Resolved(root, a.node), a.tokens[0]);
      }
    }
  }

  /** The search decides path existence on every document whose reference-and-union edges are
      acyclic, also when its property edges are cyclic. */
  lemma SearchDecides(root: Dict, schema: Dict, tokens: seq<string>, depth: nat)
    requires schema in Nodes(Obj(root)) && Acyclic(UnionEdges(Document(root)), Nodes(Obj(root)))
    requires depth >= Budget(|tokens| + 1, |Nodes(Obj(root))|)
    ensures HasPath(Document(root), schema, tokens, depth) == Answer(PathExists(Document(root), schema, tokens))
  {
    DocumentClosed(root);
    HasPathDecides(Document(root), Nodes(Obj(root)), schema, tokens, depth);
  }

  // ---------------------------------------------------------------- exactly when the search is total

  lemma {:induction false} LongerThanAll(names: set<string>) returns (n: nat)
    ensures forall name | name in names :: |name| < n
  {
    n := 0;
    if names != {} {
      var name :| name in names;
      n := LongerThanAll(names - {name});
      n := if |name| < n then n else |name| + 1;
    }
  }

  /** Every document has a token that names none of its properties. */
  lemma DeadTokenExists(root: Dict) returns (token: string)
    ensures Dead(Document(root), Nodes(Obj(root)), token)
  {
    var nodes := Nodes(Obj(root));
    var names := set f, k | f in nodes && k in f.Keys :: k;
    var n := LongerThanAll(names);
    token := seq(n + 2, _ => 'x');
    assert |token| > |"*"| && token !in names;
    forall schema | schema in nodes ensures Child(Resolved(root, schema), token).None? {
      var node := Resolved(root, schema);
      ResolvedInside(root, schema);
      if Get(node, "properties").Obj? {
        NodesNest(Obj(root), node, "properties");
        assert node["properties"].fields in nodes;
      }
    }
  }

  /** Termination, exactly: every search in the document is answered, given a deep enough
      recursion limit, if and only if its reference-and-union edges are acyclic. */
  lemma SearchAnswersExactly(root: Dict)
    ensures AnswersAll(Document(root), Nodes(Obj(root))) <==> Acyclic(UnionEdges(Document(root)), Nodes(Obj(root)))
  {
    var dead := DeadTokenExists(root);
    DocumentClosed(root);
    AnswersAllExactly(Document(root), Nodes(Obj(root)), dead);
  }

  // ---------------------------------------------------------------- what the steps mean in the document

  ghost predicate Holds(value: Json, key: string, inner: Json) {
    value.Obj? && key in value.fields && value.fields[key] == inner
  }

  /** A walk down the keys, through objects that have them. */
  ghost predicate KeyWalk(w: seq<Json>, keys: seq<string>) {
    && |w| == |keys| + 1
    && forall i, j | 0 <= i && j == i + 1 < |w| :: Holds(w[i], keys[i], w[j])
  }

  ghost predicate LeadsTo(from: Json, keys: seq<string>, to: Json) {
    exists w :: KeyWalk(w, keys) && w[0] == from && w[|keys|] == to
  }

  lemma KeyWalkTail(w: seq<Json>, keys: seq<string>)
    requires keys != [] && KeyWalk(w, keys)
    ensures KeyWalk(w[1..], keys[1..]) && Holds(w[0], keys[0], w[1])
  {
    forall i, j | 0 <= i && j == i + 1 < |w| - 1 ensures Holds(w[1..][i], keys[1..][i], w[1..][j]) {
      assert Holds(w[i + 1], keys[i + 1], w[j + 1]);
    }
  }

  lemma KeyWalkCons(from: Json, w: seq<Json>, keys: seq<string>)
    requires keys != [] && KeyWalk(w, keys[1..]) && Holds(from, keys[0], w[0])
    ensures KeyWalk([from] + w, keys)
  {
    var longer := [from] + w;
    forall i, j | 0 <= i && j == i + 1 < |longer| ensures Holds(longer[i], keys[i], longer[j]) {
      assert i > 0 ==> Holds(w[i - 1], keys[1..][i - 1], w[j - 1]);
    }
  }

  lemma LeadsToUnfolds(from: Json, keys: seq<string>, to: Json)
    ensures LeadsTo(from, keys, to)
       <==> if keys == [] then from == to
            else from.Obj? && keys[0] in from.fields && LeadsTo(from.fields[keys[0]], keys[1..], to)
  {
    if keys == [] {
      assert from == to ==> KeyWalk([from], keys) && [from][0] == from;
    } else {
      if LeadsTo(from, keys, to) {
        var w :| KeyWalk(w, keys) && w[0] == from && w[|keys|] == to;
        KeyWalkTail(w, keys);
        assert w[1..][0] == w[1] && w[1..][|keys[1..]|] == to;
      }
      if from.Obj? && keys[0] in from.fields && LeadsTo(from.fields[keys[0]], keys[1..], to) {
        var w :| KeyWalk(w, keys[1..]) && w[0] == from.fields[keys[0]] && w[|keys[1..]|] == to;
        KeyWalkCons(from, w, keys);
        assert ([from] + w)[0] == from && ([from] + w)[|keys|] == to;
      }
    }
  }

  lemma {:induction false} FollowExactly(target: Json, segments: seq<string>, d: Dict)
    ensures Follow(target, segments) == Obj(d) <==> LeadsTo(target, segments, Obj(d))
    decreases |segments|
  {
    LeadsToUnfolds(target, segments, Obj(d));
    if segments != [] && target.Obj? {
      FollowExactly(Get(target.fields, segments[0]), segments[1..], d);
      if segments[0] !in target.fields {
        FollowNothing(segments[1..]);
      }
    }
  }

  lemma FollowNothing(segments: seq<string>)
    ensures Follow(Null, segments) == Null
  {
  }

  /** The schema is a local reference, and its segments lead from the root to the target. */
  ghost predicate RefersTo(root: Dict, schema: Dict, target: Dict) {
    exists segments ::
      && segments != [] && (forall i | 0 <= i < |segments| :: '/' !in segments[i])
      && "$ref" in schema && schema["$ref"] == Str("#/" + Join(segments, '/'))
      && LeadsTo(Obj(root), segments, Obj(target))
  }

  /** The node a schema stands for: what it refers to, or itself if it refers to no object. */
  ghost predicate StandsFor(root: Dict, schema: Dict, node: Dict) {
    RefersTo(root, schema, node) || (node == schema && forall target :: !RefersTo(root, schema, target))
  }

  lemma RefersExactly(root: Dict, schema: Dict, target: Dict)
    ensures RefersTo(root, schema, target)
       <==> LocalRef(schema) && Follow(Obj(root), Split(Get(schema, "$ref").text[2..], '/')) == Obj(target)
  {
    if LocalRef(schema) {
      var text := schema["$ref"].text;
      var segments := Split(text[2..], '/');
      SplitJoins(text[2..], '/');
      FollowExactly(Obj(root), segments, target);
      assert text == "#/" + text[2..];
    }
    if RefersTo(root, schema, target) {
      var segments :|
        && segments != [] && (forall i | 0 <= i < |segments| :: '/' !in segments[i])
        && "$ref" in schema && schema["$ref"] == Str("#/" + Join(segments, '/'))
        && LeadsTo(Obj(root), segments, Obj(target));
      SplitOnly(segments, '/');
      FollowExactly(Obj(root), segments, target);
      assert ("#/" + Join(segments, '/'))[2..] == Join(segments, '/');
    }
  }

  /** One hop, exactly. */
  lemma ResolvedExactly(root: Dict, schema: Dict, node: Dict)
    ensures Resolved(root, schema) == node <==> StandsFor(root, schema, node)
  {
    forall target ensures RefersTo(root, schema, target)
       <==> LocalRef(schema) && Follow(Obj(root), Split(Get(schema, "$ref").text[2..], '/')) == Obj(target)
    {
      RefersExactly(root, schema, target);
    }
  }

  /** An object in one of the three union lists. */
  ghost predicate UnionMember(node: Dict, m: Dict) {
    exists key, i ::
      && (key == "allOf" || key == "anyOf" || key == "oneOf") && key in node && node[key].List?
      && 0 <= i < |node[key].items| && node[key].items[i] == Obj(m)
  }

  lemma {:induction false} ObjectsExactly(items: seq<Json>, m: Dict)
    ensures m in Objects(items) <==> exists i :: 0 <= i < |items| && items[i] == Obj(m)
  {
    if m in Objects(items) {
      ObjectsAreItems(items, m);
    }
    if i :| 0 <= i < |items| && items[i] == Obj(m) {
      ItemIsObject(items, i, m);
    }
  }

  lemma {:induction false} ItemIsObject(items: seq<Json>, i: nat, m: Dict)
    requires i < |items| && items[i] == Obj(m)
    ensures m in Objects(items)
  {
    if i > 0 {
      ItemIsObject(items[1..], i - 1, m);
    }
  }

  lemma {:induction false} MembersUnderExactly(node: Dict, unions: seq<string>, m: Dict)
    ensures m in MembersUnder(node, unions)
       <==> exists k :: 0 <= k < |unions| && Get(node, unions[k]).List? && m in Objects(Get(node, unions[k]).items)
  {
    if unions != [] {
      MembersUnderExactly(node, unions[1..], m);
      var rest := unions[1..];
      if k :| 0 <= k < |rest| && Get(node, rest[k]).List? && m in Objects(Get(node, rest[k]).items) {
        assert unions[k + 1] == unions[1..][k];
      }
      if k :| 0 <= k < |unions| && Get(node, unions[k]).List? && m in Objects(Get(node, unions[k]).items) {
        assert k > 0 ==> unions[1..][k - 1] == unions[k];
      }
    }
  }

  lemma UnionMembersExactly(node: Dict, m: Dict)
    ensures m in MembersUnder(node, UNION_KEYS) <==> UnionMember(node, m)
  {
    MembersUnderExactly(node, UNION_KEYS, m);
    assert UNION_KEYS[0] == "allOf" && UNION_KEYS[1] == "anyOf" && UNION_KEYS[2] == "oneOf";
    forall key | Get(node, key).List? ensures m in Objects(Get(node, key).items)
       <==> exists i :: 0 <= i < |Get(node, key).items| && Get(node, key).items[i] == Obj(m)
    {
      ObjectsExactly(Get(node, key).items, m);
    }
  }

  /** The schema one token down: a named property; for "*" the additional properties, and the
      items if those are no schema. */
  ghost predicate Below(node: Dict, token: string, child: Dict) {
    if token != "*" then LeadsTo(Obj(node), ["properties", token], Obj(child))
    else
      || LeadsTo(Obj(node), ["additionalProperties"], Obj(child))
      || (LeadsTo(Obj(node), ["items"], Obj(child))
          && forall d :: !LeadsTo(Obj(node), ["additionalProperties"], Obj(d)))
  }

  lemma OneKey(node: Dict, key: string, to: Json)
    ensures LeadsTo(Obj(node), [key], to) <==> key in node && node[key] == to
  {
    LeadsToUnfolds(Obj(node), [key], to);
    if key in node {
      LeadsToUnfolds(node[key], [key][1..], to);
    }
  }

  lemma TwoKeys(node: Dict, first: string, second: string, to: Json)
    ensures LeadsTo(Obj(node), [first, second], to)
       <==> first in node && node[first].Obj? && second in node[first].fields && node[first].fields[second] == to
  {
    LeadsToUnfolds(Obj(node), [first, second], to);
    assert [first, second][1..] == [second];
    if first in node {
      LeadsToUnfolds(node[first], [second], to);
      if node[first].Obj? {
        OneKey(node[first].fields, second, to);
      }
    }
  }

  lemma ChildExactly(node: Dict, token: string, child: Dict)
    ensures Child(node, token) == Some(child) <==> Below(node, token, child)
  {
    TwoKeys(node, "properties", token, Obj(child));
    OneKey(node, "items", Obj(child));
    forall d ensures LeadsTo(Obj(node), ["additionalProperties"], Obj(d))
       <==> "additionalProperties" in node && node["additionalProperties"] == Obj(d)
    {
      OneKey(node, "additionalProperties", Obj(d));
    }
  }

  /** One step in the document: a schema stands for a node, which has a union member, or a schema
      below it under the next token. */
  ghost predicate DocumentStep(root: Dict, a: Position<Dict>, b: Position<Dict>) {
    exists node :: StandsFor(root, a.node, node) && NodeStep(node, a, b)
  }

  /** The step from a node that is already resolved. */
  ghost predicate NodeStep(node: Dict, a: Position<Dict>, b: Position<Dict>) {
    || (a.tokens == b.tokens && UnionMember(node, b.node))
    || (a.tokens != [] && b.tokens == a.tokens[1..] && Below(node, a.tokens[0], b.node))
  }

  lemma NodeStepExactly(root: Dict, a: Position<Dict>, b: Position<Dict>)
    ensures NodeStep(Resolved(root, a.node), a, b) <==> Step(Document(root), a, b)
  {
    var node := Resolved(root, a.node);
    UnionMembersExactly(node, b.node);
    if a.tokens != [] {
      ChildExactly(node, a.tokens[0], b.node);
    }
  }

  lemma DocumentStepExactly(root: Dict, a: Position<Dict>, b: Position<Dict>)
    ensures DocumentStep(root, a, b) <==> Step(Document(root), a, b)
  {
    var node := Resolved(root, a.node);
    NodeStepExactly(root, a, b);
    ResolvedExactly(root, a.node, node);
    if DocumentStep(root, a, b) {
      var n :| StandsFor(root, a.node, n) && NodeStep(n, a, b);
      ResolvedExactly(root, a.node, n);
    }
  }

  ghost predicate DocumentTrail(root: Dict, w: seq<Position<Dict>>) {
    && w != [] && w[|w| - 1].tokens == []
    && forall i, j | 0 <= i && j == i + 1 < |w| :: DocumentStep(root, w[i], w[j])
  }

  /** A path exists in the document when a trail of such steps uses up its tokens. */
  ghost predicate DocumentPath(root: Dict, schema: Dict, tokens: seq<string>) {
    exists w :: DocumentTrail(root, w) && w[0] == Position(schema, tokens)
  }

  lemma DocumentTrailExactly(root: Dict, w: seq<Position<Dict>>)
    ensures DocumentTrail(root, w) <==> Trail(Document(root), w)
  {
    forall i, j | 0 <= i && j == i + 1 < |w|
      ensures DocumentStep(root, w[i], w[j]) <==> Step(Document(root), w[i], w[j])
    {
      DocumentStepExactly(root, w[i], w[j]);
    }
  }

  /** What the search is exact for is path existence in the document itself. */
  lemma DocumentPathExactly(root: Dict, schema: Dict, tokens: seq<string>)
    ensures DocumentPath(root, schema, tokens) <==> PathExists(Document(root), schema, tokens)
  {
    if DocumentPath(root, schema, tokens) {
      var w :| DocumentTrail(root, w) && w[0] == Position(schema, tokens);
      DocumentTrailExactly(root, w);
    }
    if PathExists(Document(root), schema, tokens) {
      var w: seq<Position<Dict>> :| Trail(Document(root), w) && w[0] == Position(schema, tokens);
      DocumentTrailExactly(root, w);
    }
  }

  /** The search decides path existence in the document, wherever it is answered. */
  lemma SearchFindsDocumentPaths(root: Dict, schema: Dict, tokens: seq<string>, depth: nat)
    requires HasPath(Document(root), schema, tokens, depth).Answer?
    ensures HasPath(Document(root), schema, tokens, depth) == Answer(DocumentPath(root, schema, tokens))
  {
    HasPathExact(Document(root), schema, tokens, depth);
    DocumentPathExactly(root, schema, tokens);
  }

  // ---------------------------------------------------------------- declared metadata

  const TRUST_METADATA_RESPONSE_PATHS: map<string, seq<string>> := map[
    "product_name" := ["metadata.product_name", "product_name"],
    "product_version" := ["metadata.product_version", "product_version"],
    "as_of_date" := ["scope.as_of_date", "metadata.as_of_date", "as_of_date"],
    "lineage_version" := ["metadata.lineage_version", "lineage_version"],
    "request_fingerprint" := ["metadata.request_fingerprint", "request_fingerprint"],
    "source_services" := ["metadata.source_services", "source_services"],
    "upstream_request_fingerprints" :=
      ["metadata.upstream_request_fingerprints", "upstream_request_fingerprints"],
    "benchmark_context" := ["metadata.benchmark_context", "benchmark_context"],
    "risk_free_context" := ["metadata.risk_free_context", "risk_free_context"],
    "correlation_id" := ["metadata.correlation_id", "correlation_id"],
    "coverage_ratio" := ["metadata.coverage_ratio", "issuer_concentration.coverage_ratio_current"],
    "coverage_status" := ["metadata.coverage_status", "issuer_concentration.coverage_status"]
  ]

  datatype Issue =
    | ProductsNotAList
    | NoResponseSchema(product: Json, route: string)
    | NoGovernedMapping(product: Json, field: string)
    | MetadataOmitted(product: Json, route: string, field: string)

  /** The issues so far, or None once an exception was raised. */
  type Findings = Option<seq<Issue>>

  function Then(first: Findings, second: Findings): Findings {
    if first.Some? && second.Some? then Some(first.value + second.value) else None
  }

  /** The 200 schema of a route: found, absent, or behind a value on which .get raises. */
  datatype SchemaReply = FoundSchema(schema: Dict) | NoSchema | Unreadable

  /** .get(key, {}) one key after the other; None when a value on the way is no object. */
  function Descend(value: Json, keys: seq<string>): Option<Dict>
    decreases |keys|
  {
    if !value.Obj? then None
    else if keys == [] then Some(value.fields)
    else Descend(GetOr(value.fields, keys[0], Obj(map[])), keys[1..])
  }

  const CONTENT_KEYS := ["responses", "200", "content", "application/json"]

  function ResponseSchema(openapi: Dict, route: string): SchemaReply {
    match Descend(Obj(openapi), ["paths"])
    case None => Unreadable
    case Some(paths) =>
      var post := FieldOf(Get(paths, route), "post");
      if !post.Obj? then NoSchema
      else
        match Descend(post, CONTENT_KEYS)
        case None => Unreadable
        case Some(content) =>
          if Get(content, "schema").Obj? then FoundSchema(Get(content, "schema").fields) else NoSchema
  }

  /** any(...): left to right, stopping at the first hit. */
  function FirstHit(paths: seq<string>, query: string -> Reply): Reply {
    if paths == [] then Answer(false)
    else
      match query(paths[0])
      case Answer(false) => FirstHit(paths[1..], query)
      case other => other
  }

  function Query(openapi: Dict, schema: Dict, depth: nat): string -> Reply {
    path => SchemaHasPath(openapi, schema, path, depth)
  }

  /** any(...) over the governed paths of one field. */
  function AnyGovernedPath(openapi: Dict, schema: Dict, paths: seq<string>, depth: nat): Reply {
    FirstHit(paths, Query(openapi, schema, depth))
  }

  function FieldFinding(openapi: Dict, product: Json, route: string, schema: Dict, field: Json, depth: nat): Findings {
    if !field.Str? then Some([])
    else if field.text !in TRUST_METADATA_RESPONSE_PATHS then Some([NoGovernedMapping(product, field.text)])
    else
      match AnyGovernedPath(openapi, schema, TRUST_METADATA_RESPONSE_PATHS[field.text], depth)
      case RecursionError => None
      case Answer(true) => Some([])
      case Answer(false) => Some([MetadataOmitted(product, route, field.text)])
  }

  function FieldFindings(
      openapi: Dict, product: Json, route: string, schema: Dict, fields: seq<Json>, depth: nat)
    : Findings
  {
    if fields == [] then Some([])
    else Then(FieldFindings(openapi, product, route, schema, fields[..|fields| - 1], depth),
              FieldFinding(openapi, product, route, schema, fields[|fields| - 1], depth))
  }

  function RouteFinding(openapi: Dict, product: Json, fields: seq<Json>, route: Json, depth: nat): Findings {
    if !route.Str? then Some([])
    else
      match ResponseSchema(openapi, route.text)
      case Unreadable => None
      case NoSchema => Some([NoResponseSchema(product, route.text)])
      case FoundSchema(schema) => FieldFindings(openapi, product, route.text, schema, fields, depth)
  }

  function RouteFindings(openapi: Dict, product: Json, fields: seq<Json>, routes: seq<Json>, depth: nat): Findings {
    if routes == [] then Some([])
    else Then(RouteFindings(openapi, product, fields, routes[..|routes| - 1], depth),
              RouteFinding(openapi, product, fields, routes[|routes| - 1], depth))
  }

  predicate Declares(product: Json) {
    product.Obj? && Get(product.fields, "required_trust_metadata").List? && Get(product.fields, "current_routes").List?
  }

  function ProductName(product: Dict): Json {
    if "product_name" in product then product["product_name"] else Str("<unknown>")
  }

  function ProductFinding(openapi: Dict, product: Json, depth: nat): Findings {
    if !Declares(product) then Some([])
    else RouteFindings(openapi, ProductName(product.fields), Get(product.fields, "required_trust_metadata").items,
                       Get(product.fields, "current_routes").items, depth)
  }

  function ProductFindings(openapi: Dict, products: seq<Json>, depth: nat): Findings {
    if products == [] then Some([])
    else Then(ProductFindings(openapi, products[..|products| - 1], depth),
              ProductFinding(openapi, products[|products| - 1], depth))
  }

  method ValidateFields(openapi: Dict, product: Json, route: string, schema: Dict, fields: seq<Json>, depth: nat)
    returns (issues: Findings)
    ensures issues == FieldFindings(openapi, product, route, schema, fields, depth)
  {
    issues := Some([]);
    for i := 0 to |fields|
      invariant issues == FieldFindings(openapi, product, route, schema, fields[..i], depth)
    {
      issues := Then(issues, FieldFinding(openapi, product, route, schema, fields[i], depth));
      assert fields[..i + 1][..i] == fields[..i];
    }
    assert fields[..|fields|] == fields;
  }

  method ValidateRoutes(openapi: Dict, product: Json, fields: seq<Json>, routes: seq<Json>, depth: nat)
    returns (issues: Findings)
    ensures issues == RouteFindings(openapi, product, fields, routes, depth)
  {
    issues := Some([]);
    for i := 0 to |routes|
      invariant issues == RouteFindings(openapi, product, fields, routes[..i], depth)
    {
      var more: Findings := Some([]);
      if routes[i].Str? {
        match ResponseSchema(openapi, routes[i].text) {
          case Unreadable => more := None;
          case NoSchema => more := Some([NoResponseSchema(product, routes[i].text)]);
          case FoundSchema(schema) => more := ValidateFields(openapi, product, routes[i].text, schema, fields, depth);
        }
      }
      issues := Then(issues, more);
      assert routes[..i + 1][..i] == routes[..i];
    }
    assert routes[..|routes|] == routes;
  }

  method ValidateProducts(openapi: Dict, products: seq<Json>, depth: nat) returns (issues: Findings)
    ensures issues == ProductFindings(openapi, products, depth)
  {
    issues := Some([]);
    for i := 0 to |products|
      invariant issues == ProductFindings(openapi, products[..i], depth)
    {
      var more: Findings := Some([]);
      if Declares(products[i]) {
        more := ValidateRoutes(openapi, ProductName(products[i].fields),
                               Get(products[i].fields, "required_trust_metadata").items,
                               Get(products[i].fields, "current_routes").items, depth);
      }
      issues := Then(issues, more);
      assert products[..i + 1][..i] == products[..i];
    }
    assert products[..|products|] == products;
  }

  method ValidateDeclaredRouteResponseMetadata(producer: Dict, openapi: Dict, depth: nat) returns (issues: Findings)
    ensures issues == if Get(producer, "products").List? then
                        ProductFindings(openapi, Get(producer, "products").items, depth)
                      else Some([ProductsNotAList])
    ensures issues.Some? ==> (issues == Some([]) <==> EveryDeclarationHolds(producer, openapi))
    ensures Answerable(producer, openapi, depth) ==> issues.Some?
  {
    if !Get(producer, "products").List? {
      return Some([ProductsNotAList]);
    }
    issues := ValidateProducts(openapi, Get(producer, "products").items, depth);
    ReportExact(producer, openapi, depth);
    if Answerable(producer, openapi, depth) {
      ReportGiven(producer, openapi, depth);
    }
  }

  // ---------------------------------------------------------------- what a clean report means

  ghost predicate FieldHolds(openapi: Dict, schema: Dict, field: Json) {
    field.Str? ==>
      && field.text in TRUST_METADATA_RESPONSE_PATHS
      && exists path :: path in TRUST_METADATA_RESPONSE_PATHS[field.text] && Exposes(openapi, schema, path)
  }

  /** The keys from the document to the JSON schema of a route's 200 response. */
  function SchemaKeys(route: string): seq<string> {
    ["paths", route, "post"] + CONTENT_KEYS + ["schema"]
  }

  ghost predicate RouteSchema(openapi: Dict, route: string, schema: Dict) {
    LeadsTo(Obj(openapi), SchemaKeys(route), Obj(schema))
  }

  ghost predicate FieldsHold(openapi: Dict, schema: Dict, fields: seq<Json>) {
    forall i | 0 <= i < |fields| :: FieldHolds(openapi, schema, fields[i])
  }

  ghost predicate RouteHolds(openapi: Dict, fields: seq<Json>, route: Json) {
    route.Str? ==> exists schema :: RouteSchema(openapi, route.text, schema) && FieldsHold(openapi, schema, fields)
  }

  ghost predicate ProductHolds(openapi: Dict, product: Json) {
    Declares(product) ==>
      var routes := Get(product.fields, "current_routes").items;
      forall i | 0 <= i < |routes| ::
        RouteHolds(openapi, Get(product.fields, "required_trust_metadata").items, routes[i])
  }

  /** Every route a product declares has a JSON 200 schema, and every metadata field the
      product requires has a governed path that exists in that schema. */
  ghost predicate EveryDeclarationHolds(producer: Dict, openapi: Dict) {
    && Get(producer, "products").List?
    && var products := Get(producer, "products").items;
       forall i | 0 <= i < |products| :: ProductHolds(openapi, products[i])
  }

  /** The dotted path exists in the schema: its tokens, written with dots between them, can be
      used up in the document. */
  ghost predicate Exposes(openapi: Dict, schema: Dict, path: string) {
    exists tokens ::
      && tokens != [] && (forall i | 0 <= i < |tokens| :: '.' !in tokens[i])
      && Join(tokens, '.') == path && DocumentPath(openapi, schema, tokens)
  }

  lemma ExposesExactly(openapi: Dict, schema: Dict, path: string)
    ensures Exposes(openapi, schema, path) <==> PathExists(Document(openapi), schema, Split(path, '.'))
  {
    var split := Split(path, '.');
    SplitJoins(path, '.');
    DocumentPathExactly(openapi, schema, split);
    if Exposes(openapi, schema, path) {
      var tokens :|
        && tokens != [] && (forall i | 0 <= i < |tokens| :: '.' !in tokens[i])
        && Join(tokens, '.') == path && DocumentPath(openapi, schema, tokens);
      SplitOnly(tokens, '.');
    }
  }

  lemma SchemaHasPathExact(openapi: Dict, schema: Dict, path: string, depth: nat)
    requires SchemaHasPath(openapi, schema, path, depth).Answer?
    ensures SchemaHasPath(openapi, schema, path, depth).found <==> Exposes(openapi, schema, path)
  {
    HasPathExact(Document(openapi), schema, Split(path, '.'), depth);
    ExposesExactly(openapi, schema, path);
  }

  /** Trying queries from left to right finds a hit exactly when one of them is a hit. */
  lemma {:induction false} FirstHitExact(paths: seq<string>, query: string -> Reply)
    requires FirstHit(paths, query).Answer?
    ensures FirstHit(paths, query).found <==> exists path :: path in paths && query(path) == Answer(true)
    ensures !FirstHit(paths, query).found ==> forall path | path in paths :: query(path) == Answer(false)
  {
    if paths != [] && query(paths[0]) == Answer(false) {
      FirstHitExact(paths[1..], query);
      assert paths == [paths[0]] + paths[1..];
    } else if paths != [] {
      assert paths[0] in paths;
    }
  }

  lemma AnyGovernedPathExact(openapi: Dict, schema: Dict, paths: seq<string>, depth: nat)
    requires AnyGovernedPath(openapi, schema, paths, depth).Answer?
    ensures AnyGovernedPath(openapi, schema, paths, depth).found
       <==> exists path :: path in paths && Exposes(openapi, schema, path)
  {
    var query := Query(openapi, schema, depth);
    FirstHitExact(paths, query);
    forall path | path in paths && query(path).Answer?
      ensures query(path).found <==> Exposes(openapi, schema, path)
    {
      SchemaHasPathExact(openapi, schema, path, depth);
    }
  }

  // ---------------------------------------------------------------- the schema of a route

  lemma {:induction false} DescendNothing(keys: seq<string>)
    ensures Descend(Obj(map[]), keys) == Some(map[])
  {
    if keys != [] {
      DescendNothing(keys[1..]);
    }
  }

  lemma {:induction false} DescendExactly(value: Json, keys: seq<string>, d: Dict)
    requires d != map[]
    ensures Descend(value, keys) == Some(d) <==> LeadsTo(value, keys, Obj(d))
    decreases |keys|
  {
    LeadsToUnfolds(value, keys, Obj(d));
    if keys != [] && value.Obj? {
      if keys[0] in value.fields {
        DescendExactly(value.fields[keys[0]], keys[1..], d);
      } else {
        DescendNothing(keys[1..]);
      }
    }
  }

  lemma {:induction false} LeadsToSnoc(from: Json, keys: seq<string>, key: string, to: Json)
    ensures LeadsTo(from, keys + [key], to)
       <==> exists d: Dict :: LeadsTo(from, keys, Obj(d)) && key in d && d[key] == to
  {
    LeadsToUnfolds(from, keys + [key], to);
    forall d: Dict ensures LeadsTo(from, keys, Obj(d))
       <==> if keys == [] then from == Obj(d)
            else from.Obj? && keys[0] in from.fields && LeadsTo(from.fields[keys[0]], keys[1..], Obj(d))
    {
      LeadsToUnfolds(from, keys, Obj(d));
    }
    if keys == [] {
      assert (keys + [key])[1..] == [];
      if from.Obj? && key in from.fields {
        LeadsToUnfolds(from.fields[key], [], to);
      }
    } else {
      assert (keys + [key])[1..] == keys[1..] + [key];
      if from.Obj? && keys[0] in from.fields {
        LeadsToSnoc(from.fields[keys[0]], keys[1..], key, to);
      }
    }
  }

  /** Below the post operation, .get with a default finds what a walk down the keys does. */
  lemma ContentExactly(post: Json, schema: Dict)
    ensures LeadsTo(post, CONTENT_KEYS + ["schema"], Obj(schema))
       <==> Descend(post, CONTENT_KEYS).Some? && Get(Descend(post, CONTENT_KEYS).value, "schema") == Obj(schema)
  {
    LeadsToSnoc(post, CONTENT_KEYS, "schema", Obj(schema));
    forall d: Dict | d != map[]
      ensures Descend(post, CONTENT_KEYS) == Some(d) <==> LeadsTo(post, CONTENT_KEYS, Obj(d))
    {
      DescendExactly(post, CONTENT_KEYS, d);
    }
  }

  lemma LeadsFirst(from: Json, key: string, rest: seq<string>, to: Json)
    requires from.Obj? && key in from.fields
    ensures LeadsTo(from, [key] + rest, to) <==> LeadsTo(from.fields[key], rest, to)
  {
    LeadsToUnfolds(from, [key] + rest, to);
    assert ([key] + rest)[1..] == rest;
  }

  lemma LeadsNowhere(from: Json, key: string, rest: seq<string>, to: Json)
    requires !from.Obj? || key !in from.fields
    ensures !LeadsTo(from, [key] + rest, to)
  {
    LeadsToUnfolds(from, [key] + rest, to);
  }

  /** One key of a walk that goes on. */
  lemma LeadsOn(from: Json, key: string, rest: seq<string>, to: Json)
    requires rest != [] || to != Null
    ensures LeadsTo(from, [key] + rest, to) <==> LeadsTo(FieldOf(from, key), rest, to)
  {
    if from.Obj? && key in from.fields {
      LeadsFirst(from, key, rest, to);
    } else {
      LeadsNowhere(from, key, rest, to);
      LeadsToUnfolds(Null, rest, to);
    }
  }

  /** The schema that is found is the object at the end of the keys. */
  lemma ResponseSchemaExactly(openapi: Dict, route: string, schema: Dict)
    ensures ResponseSchema(openapi, route) == FoundSchema(schema) <==> RouteSchema(openapi, route, schema)
  {
    var rest := CONTENT_KEYS + ["schema"];
    var paths := FieldOf(Obj(openapi), "paths");
    var post := FieldOf(FieldOf(paths, route), "post");
    assert SchemaKeys(route) == ["paths"] + ([route] + (["post"] + rest));
    LeadsOn(Obj(openapi), "paths", [route] + (["post"] + rest), Obj(schema));
    LeadsOn(paths, route, ["post"] + rest, Obj(schema));
    LeadsOn(FieldOf(paths, route), "post", rest, Obj(schema));
    ContentExactly(post, schema);
    PathsExactly(openapi);
  }

  lemma PathsExactly(openapi: Dict)
    ensures Descend(Obj(openapi), ["paths"])
         == if "paths" !in openapi then Some(map[])
            else if openapi["paths"].Obj? then Some(openapi["paths"].fields) else None
  {
    assert ["paths"][1..] == [];
  }

  lemma FieldClean(openapi: Dict, product: Json, route: string, schema: Dict, field: Json, depth: nat)
    requires FieldFinding(openapi, product, route, schema, field, depth).Some?
    ensures FieldFinding(openapi, product, route, schema, field, depth).value == []
       <==> FieldHolds(openapi, schema, field)
  {
    if field.Str? && field.text in TRUST_METADATA_RESPONSE_PATHS {
      AnyGovernedPathExact(openapi, schema, TRUST_METADATA_RESPONSE_PATHS[field.text], depth);
    }
  }

  lemma {:induction false} FieldsClean(
      openapi: Dict, product: Json, route: string, schema: Dict, fields: seq<Json>, depth: nat)
    requires FieldFindings(openapi, product, route, schema, fields, depth).Some?
    ensures FieldFindings(openapi, product, route, schema, fields, depth).value == []
       <==> FieldsHold(openapi, schema, fields)
  {
    if fields != [] {
      FieldsClean(openapi, product, route, schema, fields[..|fields| - 1], depth);
      FieldClean(openapi, product, route, schema, fields[|fields| - 1], depth);
    }
  }

  lemma RouteClean(openapi: Dict, product: Json, fields: seq<Json>, route: Json, depth: nat)
    requires RouteFinding(openapi, product, fields, route, depth).Some?
    ensures RouteFinding(openapi, product, fields, route, depth).value == [] <==> RouteHolds(openapi, fields, route)
  {
    if route.Str? {
      forall schema
        ensures ResponseSchema(openapi, route.text) == FoundSchema(schema) <==> RouteSchema(openapi, route.text, schema)
      {
        ResponseSchemaExactly(openapi, route.text, schema);
      }
      if ResponseSchema(openapi, route.text).FoundSchema? {
        FieldsClean(openapi, product, route.text, ResponseSchema(openapi, route.text).schema, fields, depth);
      }
    }
  }

  lemma {:induction false} RoutesClean(openapi: Dict, product: Json, fields: seq<Json>, routes: seq<Json>, depth: nat)
    requires RouteFindings(openapi, product, fields, routes, depth).Some?
    ensures RouteFindings(openapi, product, fields, routes, depth).value == []
       <==> forall i | 0 <= i < |routes| :: RouteHolds(openapi, fields, routes[i])
  {
    if routes != [] {
      RoutesClean(openapi, product, fields, routes[..|routes| - 1], depth);
      RouteClean(openapi, product, fields, routes[|routes| - 1], depth);
    }
  }

  lemma ProductClean(openapi: Dict, product: Json, depth: nat)
    requires ProductFinding(openapi, product, depth).Some?
    ensures ProductFinding(openapi, product, depth).value == [] <==> ProductHolds(openapi, product)
  {
    if Declares(product) {
      RoutesClean(openapi, ProductName(product.fields), Get(product.fields, "required_trust_metadata").items,
                  Get(product.fields, "current_routes").items, depth);
    }
  }

  lemma {:induction false} ProductsClean(openapi: Dict, products: seq<Json>, depth: nat)
    requires ProductFindings(openapi, products, depth).Some?
    ensures ProductFindings(openapi, products, depth).value == []
       <==> forall i | 0 <= i < |products| :: ProductHolds(openapi, products[i])
  {
    if products != [] {
      ProductsClean(openapi, products[..|products| - 1], depth);
      ProductClean(openapi, products[|products| - 1], depth);
    }
  }

  // ---------------------------------------------------------------- which issues are reported

  ghost predicate Any<T>(xs: seq<T>, p: T -> bool) {
    exists i :: 0 <= i < |xs| && p(xs[i])
  }

  lemma AnySnoc<T>(xs: seq<T>, x: T, p: T -> bool)
    ensures Any(xs + [x], p) <==> Any(xs, p) || p(x)
  {
    var more := xs + [x];
    assert more[|xs|] == x && forall i | 0 <= i < |xs| :: more[i] == xs[i];
  }

  ghost predicate FieldIssue(openapi: Dict, product: Json, route: string, schema: Dict, field: Json, x: Issue) {
    field.Str? &&
    match x
    case NoGovernedMapping(p, f) => p == product && f == field.text && f !in TRUST_METADATA_RESPONSE_PATHS
    case MetadataOmitted(p, r, f) =>
      && p == product && r == route && f == field.text && f in TRUST_METADATA_RESPONSE_PATHS
      && forall path | path in TRUST_METADATA_RESPONSE_PATHS[f] :: !Exposes(openapi, schema, path)
    case _ => false
  }

  ghost predicate SomeFieldIssue(
      openapi: Dict, product: Json, route: string, schema: Dict, fields: seq<Json>, x: Issue)
  {
    Any(fields, FieldIssueIs(openapi, product, route, schema, x))
  }

  ghost function FieldIssueIs(openapi: Dict, product: Json, route: string, schema: Dict, x: Issue): Json -> bool {
    field => FieldIssue(openapi, product, route, schema, field, x)
  }

  ghost predicate RouteIssue(openapi: Dict, product: Json, fields: seq<Json>, route: Json, x: Issue) {
    route.Str? &&
    if x.NoResponseSchema? then
      x == NoResponseSchema(product, route.text) && forall schema :: !RouteSchema(openapi, route.text, schema)
    else
      exists schema :: RouteSchema(openapi, route.text, schema)
                       && SomeFieldIssue(openapi, product, route.text, schema, fields, x)
  }

  ghost predicate SomeRouteIssue(openapi: Dict, product: Json, fields: seq<Json>, routes: seq<Json>, x: Issue) {
    Any(routes, RouteIssueIs(openapi, product, fields, x))
  }

  ghost function RouteIssueIs(openapi: Dict, product: Json, fields: seq<Json>, x: Issue): Json -> bool {
    route => RouteIssue(openapi, product, fields, route, x)
  }

  /** An issue of one product: one of its routes has no schema, or does not expose one of its
      required fields, or one of those has no governed path. */
  ghost predicate ProductIssue(openapi: Dict, product: Json, x: Issue) {
    && Declares(product)
    && SomeRouteIssue(openapi, ProductName(product.fields), Get(product.fields, "required_trust_metadata").items,
                      Get(product.fields, "current_routes").items, x)
  }

  ghost function ProductIssueIs(openapi: Dict, x: Issue): Json -> bool {
    product => ProductIssue(openapi, product, x)
  }

  lemma FieldReports(openapi: Dict, product: Json, route: string, schema: Dict, field: Json, depth: nat, x: Issue)
    requires FieldFinding(openapi, product, route, schema, field, depth).Some?
    ensures x in FieldFinding(openapi, product, route, schema, field, depth).value
       <==> FieldIssue(openapi, product, route, schema, field, x)
  {
    if field.Str? && field.text in TRUST_METADATA_RESPONSE_PATHS {
      AnyGovernedPathExact(openapi, schema, TRUST_METADATA_RESPONSE_PATHS[field.text], depth);
    }
  }

  lemma {:induction false} FieldsReport(
      openapi: Dict, product: Json, route: string, schema: Dict, fields: seq<Json>, depth: nat, x: Issue)
    requires FieldFindings(openapi, product, route, schema, fields, depth).Some?
    ensures x in FieldFindings(openapi, product, route, schema, fields, depth).value
       <==> SomeFieldIssue(openapi, product, route, schema, fields, x)
  {
    if fields != [] {
      var init, last := fields[..|fields| - 1], fields[|fields| - 1];
      FieldsReport(openapi, product, route, schema, init, depth, x);
      FieldReports(openapi, product, route, schema, last, depth, x);
      assert fields == init + [last];
      AnySnoc(init, last, FieldIssueIs(openapi, product, route, schema, x));
    }
  }

  lemma RouteReports(openapi: Dict, product: Json, fields: seq<Json>, route: Json, depth: nat, x: Issue)
    requires RouteFinding(openapi, product, fields, route, depth).Some?
    ensures x in RouteFinding(openapi, product, fields, route, depth).value
       <==> RouteIssue(openapi, product, fields, route, x)
  {
    if route.Str? {
      var reply := ResponseSchema(openapi, route.text);
      forall schema ensures reply == FoundSchema(schema) <==> RouteSchema(openapi, route.text, schema) {
        ResponseSchemaExactly(openapi, route.text, schema);
      }
      if reply.FoundSchema? {
        FieldsReport(openapi, product, route.text, reply.schema, fields, depth, x);
      }
    }
  }

  lemma {:induction false} RoutesReport(
      openapi: Dict, product: Json, fields: seq<Json>, routes: seq<Json>, depth: nat, x: Issue)
    requires RouteFindings(openapi, product, fields, routes, depth).Some?
    ensures x in RouteFindings(openapi, product, fields, routes, depth).value
       <==> SomeRouteIssue(openapi, product, fields, routes, x)
  {
    if routes != [] {
      var init, last := routes[..|routes| - 1], routes[|routes| - 1];
      RoutesReport(openapi, product, fields, init, depth, x);
      RouteReports(openapi, product, fields, last, depth, x);
      assert routes == init + [last];
      AnySnoc(init, last, RouteIssueIs(openapi, product, fields, x));
    }
  }

  lemma ProductReports(openapi: Dict, product: Json, depth: nat, x: Issue)
    requires ProductFinding(openapi, product, depth).Some?
    ensures x in ProductFinding(openapi, product, depth).value <==> ProductIssue(openapi, product, x)
  {
    if Declares(product) {
      RoutesReport(openapi, ProductName(product.fields), Get(product.fields, "required_trust_metadata").items,
                   Get(product.fields, "current_routes").items, depth, x);
    }
  }

  /** A report names exactly the true issues. */
  lemma {:induction false} ReportNames(openapi: Dict, products: seq<Json>, depth: nat, x: Issue)
    requires ProductFindings(openapi, products, depth).Some?
    ensures x in ProductFindings(openapi, products, depth).value
       <==> Any(products, ProductIssueIs(openapi, x))
  {
    if products != [] {
      var init, last := products[..|products| - 1], products[|products| - 1];
      ReportNames(openapi, init, depth, x);
      ProductReports(openapi, last, depth, x);
      assert products == init + [last];
      AnySnoc(init, last, ProductIssueIs(openapi, x));
    }
  }

  // ---------------------------------------------------------------- when the check answers

  /** Deep enough for the longest of some dotted paths, in a document with `size` objects. */
  ghost predicate Deep(paths: seq<string>, size: nat, depth: nat) {
    forall path | path in paths :: depth >= Budget(|Split(path, '.')| + 1, size)
  }

  /** A recursion limit deep enough for the governed paths of every field. */
  ghost predicate DeepEnough(governed: map<string, seq<string>>, size: nat, depth: nat) {
    forall field | field in governed :: Deep(governed[field], size, depth)
  }

  ghost predicate ReadableRoute(openapi: Dict, route: Json) {
    route.Str? ==> ResponseSchema(openapi, route.text) != Unreadable
  }

  ghost predicate ReadableProduct(openapi: Dict, product: Json) {
    Declares(product) ==>
      var routes := Get(product.fields, "current_routes").items;
      forall i | 0 <= i < |routes| :: ReadableRoute(openapi, routes[i])
  }

  /** No reference-and-union cycle, a deep enough recursion limit, and no declared route whose
      schema is behind a value on which .get raises. */
  ghost predicate Answerable(producer: Dict, openapi: Dict, depth: nat) {
    && Acyclic(UnionEdges(Document(openapi)), Nodes(Obj(openapi)))
    && DeepEnough(TRUST_METADATA_RESPONSE_PATHS, |Nodes(Obj(openapi))|, depth)
    && (Get(producer, "products").List? ==>
          var products := Get(producer, "products").items;
          forall i | 0 <= i < |products| :: ReadableProduct(openapi, products[i]))
  }

  lemma {:induction false} DeepExists(paths: seq<string>, size: nat) returns (depth: nat)
    ensures forall d: nat | d >= depth :: Deep(paths, size, d)
  {
    depth := 0;
    if paths != [] {
      depth := DeepExists(paths[1..], size);
      var first := Budget(|Split(paths[0], '.')| + 1, size);
      depth := if first > depth then first else depth;
      assert paths == [paths[0]] + paths[1..];
      forall d: nat | d >= depth ensures Deep(paths, size, d) {
        assert Deep(paths[1..], size, d);
      }
    }
  }

  /** Every document has such a recursion limit. */
  lemma {:induction false} DeepEnoughExists(governed: map<string, seq<string>>, size: nat) returns (depth: nat)
    ensures forall d: nat | d >= depth :: DeepEnough(governed, size, d)
    decreases |governed|
  {
    depth := 0;
    if governed != map[] {
      var field :| field in governed;
      var rest := governed - {field};
      assert rest.Keys == governed.Keys - {field};
      depth := DeepEnoughExists(rest, size);
      var first := DeepExists(governed[field], size);
      depth := if first > depth then first else depth;
      forall d: nat | d >= depth ensures DeepEnough(governed, size, d) {
        assert DeepEnough(rest, size, d) && Deep(governed[field], size, d);
        assert forall f | f in governed && f != field :: f in rest && rest[f] == governed[f];
      }
    }
  }

  /** Descending ends in an object of the document, or in nothing. */
  lemma {:induction false} DescendInside(root: Json, value: Json, keys: seq<string>)
    requires Nodes(value) <= Nodes(root) && Descend(value, keys).Some?
    ensures Descend(value, keys).value == map[] || Descend(value, keys).value in Nodes(root)
    decreases |keys|
  {
    if keys != [] {
      if keys[0] in value.fields {
        NodesNest(value, value.fields, keys[0]);
        DescendInside(root, value.fields[keys[0]], keys[1..]);
      } else {
        DescendNothing(keys[1..]);
      }
    }
  }

  lemma ValueInside(root: Json, d: Dict, key: string)
    requires (d == map[] || d in Nodes(root)) && Get(d, key).Obj?
    ensures Nodes(Get(d, key)) <= Nodes(root) && Get(d, key).fields in Nodes(root)
  {
    NodesNest(root, d, key);
  }

  lemma SchemaInside(openapi: Dict, route: string)
    requires ResponseSchema(openapi, route).FoundSchema?
    ensures ResponseSchema(openapi, route).schema in Nodes(Obj(openapi))
  {
    var root := Obj(openapi);
    DescendInside(root, root, ["paths"]);
    var paths := Descend(root, ["paths"]).value;
    ValueInside(root, paths, route);
    var post := FieldOf(Get(paths, route), "post");
    ValueInside(root, Get(paths, route).fields, "post");
    DescendInside(root, post, CONTENT_KEYS);
    ValueInside(root, Descend(post, CONTENT_KEYS).value, "schema");
  }

  lemma {:induction false} FirstHitAnswers(paths: seq<string>, query: string -> Reply)
    requires forall path | path in paths :: query(path).Answer?
    ensures FirstHit(paths, query).Answer?
  {
    if paths != [] {
      FirstHitAnswers(paths[1..], query);
    }
  }

  /** Every governed search from an object of the document is answered. */
  ghost predicate Searchable(openapi: Dict, governed: map<string, seq<string>>, depth: nat) {
    forall schema, field | schema in Nodes(Obj(openapi)) && field in governed ::
      AnyGovernedPath(openapi, schema, governed[field], depth).Answer?
  }

  lemma DocumentSearchable(openapi: Dict, governed: map<string, seq<string>>, depth: nat)
    requires Acyclic(UnionEdges(Document(openapi)), Nodes(Obj(openapi)))
    requires DeepEnough(governed, |Nodes(Obj(openapi))|, depth)
    ensures Searchable(openapi, governed, depth)
  {
    forall schema, field | schema in Nodes(Obj(openapi)) && field in governed
      ensures AnyGovernedPath(openapi, schema, governed[field], depth).Answer?
    {
      var query := Query(openapi, schema, depth);
      assert Deep(governed[field], |Nodes(Obj(openapi))|, depth);
      forall path | path in governed[field] ensures query(path).Answer? {
        SearchDecides(openapi, schema, Split(path, '.'), depth);
      }
      FirstHitAnswers(governed[field], query);
    }
  }

  lemma {:induction false} FieldsAnswer(
      openapi: Dict, product: Json, route: string, schema: Dict, fields: seq<Json>, depth: nat)
    requires Searchable(openapi, TRUST_METADATA_RESPONSE_PATHS, depth) && schema in Nodes(Obj(openapi))
    ensures FieldFindings(openapi, product, route, schema, fields, depth).Some?
  {
    if fields != [] {
      FieldsAnswer(openapi, product, route, schema, fields[..|fields| - 1], depth);
      FieldAnswers(openapi, product, route, schema, fields[|fields| - 1], depth);
    }
  }

  lemma FieldAnswers(openapi: Dict, product: Json, route: string, schema: Dict, field: Json, depth: nat)
    requires Searchable(openapi, TRUST_METADATA_RESPONSE_PATHS, depth) && schema in Nodes(Obj(openapi))
    ensures FieldFinding(openapi, product, route, schema, field, depth).Some?
  {
  }

  lemma RouteAnswers(openapi: Dict, product: Json, fields: seq<Json>, route: Json, depth: nat)
    requires Searchable(openapi, TRUST_METADATA_RESPONSE_PATHS, depth) && ReadableRoute(openapi, route)
    ensures RouteFinding(openapi, product, fields, route, depth).Some?
  {
    if route.Str? && ResponseSchema(openapi, route.text).FoundSchema? {
      SchemaInside(openapi, route.text);
      FieldsAnswer(openapi, product, route.text, ResponseSchema(openapi, route.text).schema, fields, depth);
    }
  }

  lemma {:induction false} RoutesAnswer(openapi: Dict, product: Json, fields: seq<Json>, routes: seq<Json>, depth: nat)
    requires Searchable(openapi, TRUST_METADATA_RESPONSE_PATHS, depth)
    requires forall i | 0 <= i < |routes| :: ReadableRoute(openapi, routes[i])
    ensures RouteFindings(openapi, product, fields, routes, depth).Some?
  {
    if routes != [] {
      RoutesAnswer(openapi, product, fields, routes[..|routes| - 1], depth);
      RouteAnswers(openapi, product, fields, routes[|routes| - 1], depth);
    }
  }

  lemma ProductAnswers(openapi: Dict, product: Json, depth: nat)
    requires Searchable(openapi, TRUST_METADATA_RESPONSE_PATHS, depth) && ReadableProduct(openapi, product)
    ensures ProductFinding(openapi, product, depth).Some?
  {
    if Declares(product) {
      RoutesAnswer(openapi, ProductName(product.fields), Get(product.fields, "required_trust_metadata").items,
                   Get(product.fields, "current_routes").items, depth);
    }
  }

  lemma {:induction false} ProductsAnswer(openapi: Dict, products: seq<Json>, depth: nat)
    requires Searchable(openapi, TRUST_METADATA_RESPONSE_PATHS, depth)
    requires forall i | 0 <= i < |products| :: ReadableProduct(openapi, products[i])
    ensures ProductFindings(openapi, products, depth).Some?
  {
    if products != [] {
      ProductsAnswer(openapi, products[..|products| - 1], depth);
      ProductAnswers(openapi, products[|products| - 1], depth);
    }
  }

  /** A report is empty exactly when every declaration holds. */
  lemma ReportExact(producer: Dict, openapi: Dict, depth: nat)
    requires Get(producer, "products").List?
    ensures var findings := ProductFindings(openapi, Get(producer, "products").items, depth);
            findings.Some? ==> (findings == Some([]) <==> EveryDeclarationHolds(producer, openapi))
  {
    var products := Get(producer, "products").items;
    if ProductFindings(openapi, products, depth).Some? {
      ProductsClean(openapi, products, depth);
    }
  }

  /** On an answerable input the check does give a report. */
  lemma ReportGiven(producer: Dict, openapi: Dict, depth: nat)
    requires Get(producer, "products").List? && Answerable(producer, openapi, depth)
    ensures ProductFindings(openapi, Get(producer, "products").items, depth).Some?
  {
    DocumentSearchable(openapi, TRUST_METADATA_RESPONSE_PATHS, depth);
    ProductsAnswer(openapi, Get(producer, "products").items, depth);
  }
}
