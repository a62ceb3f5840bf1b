/** scripts/api_vocabulary_inventory.py: flattening schemas into named fields, and the
    attribute catalog that groups the fields by semantic id. */
module VocabularyInventory {
  import opened Values
  import opened Graphs
  import Ordering

  /** A field; the description and the example of a parameter are null. */
  datatype Field = Field(
    name: string, location: string, required: bool, typ: string, semanticId: string, description: Json, example: Json)

  /** What the walk reads of a schema. `ref` is the last segment of a "$ref"; a property whose
      schema is no object is None. */
  datatype Schema = Schema(
    ref: Option<string>,
    typ: Option<string>,
    properties: seq<Property>,
    required: set<string>,
    items: Option<Schema>,
    notes: Notes)

  /** The documentation of a schema; an absent key is null. */
  datatype Notes = Notes(description: Json, example: Json, format: Json, enumeration: Json)

  const BLANK := Notes(Null, Null, Null, Null)

  datatype Property = Property(name: string, schema: Option<Schema>)

  type Components = map<string, Schema>

  /** The naming rules: the semantic id from field name, property name and schema context, and
      the fallback description and example of a field that has none. */
  datatype Naming = Naming(
    id: (string, string, Option<string>) -> string, describe: string -> string, sample: (string, Schema) -> Json)

  const EMPTY := Schema(None, None, [], {}, None, BLANK)

  function Resolve(schema: Schema, components: Components): Schema {
    match schema.ref
    case None => schema
    case Some(name) => if name in components then components[name] else EMPTY
  }

  function ContextOf(schema: Schema, context: Option<string>): Option<string> {
    if schema.ref.Some? && schema.ref.value != "" then schema.ref else context
  }

  function TypeName(schema: Schema): string {
    match schema.ref
    case Some(name) => name
    case None => if schema.typ.Some? then schema.typ.value else "object"
  }

  /** The schema a property recurses into, and what its fields' prefix gains. */
  datatype Nest = Nest(schema: Schema, suffix: string)

  function NestOf(property: Schema, components: Components): Option<Nest> {
    var resolved := Resolve(property, components);
    if resolved.typ == Some("object") || property.ref.Some? then Some(Nest(property, ""))
    else if resolved.typ == Some("array") && resolved.items.Some? then Some(Nest(resolved.items.value, "[]"))
    else None
  }

  function Joined(prefix: string, name: string): string {
    if prefix == "" then name else prefix + "." + name
  }

  function OwnField(
      property: Schema, resolved: Schema, name: string, fieldName: string, required: set<string>,
      context: Option<string>, naming: Naming)
    : Field
  {
    Field(
      fieldName, "body", name in required, TypeName(property), naming.id(fieldName, name, context),
      if Truthy(resolved.notes.description) then resolved.notes.description else Str(naming.describe(fieldName)),
      if !resolved.notes.example.Null? then resolved.notes.example else naming.sample(fieldName, resolved))
  }

  /** Two lists of fields, if both calls returned. */
  function Both(a: Option<seq<Field>>, b: Option<seq<Field>>): Option<seq<Field>> {
    if a.Some? && b.Some? then Some(a.value + b.value) else None
  }

  /** _extract_fields, with `depth` calls left before Python raises RecursionError (None). */
  function ExtractFields(
      schema: Schema, components: Components, prefix: string, context: Option<string>, naming: Naming, depth: nat)
    : Option<seq<Field>>
    decreases depth, 0, 0
  {
    if depth == 0 then None
    else
      var resolved := Resolve(schema, components);
      ExtractAll(
        resolved.properties, resolved.required, components, prefix, ContextOf(schema, context), naming, depth - 1)
  }

  function ExtractAll(
      properties: seq<Property>, required: set<string>, components: Components, prefix: string, context: Option<string>,
      naming: Naming, depth: nat)
    : Option<seq<Field>>
    decreases depth, 2, |properties|
  {
    if properties == [] then Some([])
    else
      var init := ExtractAll(properties[..|properties| - 1], required, components, prefix, context, naming, depth);
      var last := ExtractOne(properties[|properties| - 1], required, components, prefix, context, naming, depth);
      Both(init, last)
  }

  function ExtractOne(
      property: Property, required: set<string>, components: Components, prefix: string, context: Option<string>,
      naming: Naming, depth: nat)
    : Option<seq<Field>>
    decreases depth, 1, 0
  {
    match property.schema
    case None => Some([])
    case Some(schema) =>
      var fieldName := Joined(prefix, property.name);
      var own := OwnField(schema, Resolve(schema, components), property.name, fieldName, required, context, naming);
      match NestOf(schema, components)
      case None => Some([own])
      case Some(nest) =>
        var inner := ContextOf(nest.schema, context);
        match ExtractFields(nest.schema, components, fieldName + nest.suffix, inner, naming, depth)
        case None => None
        case Some(below) => Some([own] + below)
  }

  /** The walk as the program runs it: one list, extended property by property. */
  method ExtractFieldsInto(
      schema: Schema, components: Components, prefix: string, context: Option<string>, naming: Naming, depth: nat)
    returns (fields: Option<seq<Field>>)
    ensures fields == ExtractFields(schema, components, prefix, context, naming, depth)
    ensures fields.Some? ==>
              forall f :: f in fields.value <==> Occurs(components, Visit(schema, prefix, context), naming, f)
    decreases depth, 0
  {
    if depth == 0 {
      return None;
    }
    EmitsExactly(schema, components, prefix, context, naming, depth);
    var resolved := Resolve(schema, components);
    var here := ContextOf(schema, context);
    var properties := resolved.properties;
    fields := Some([]);
    for i := 0 to |properties|
      invariant fields == ExtractAll(properties[..i], resolved.required, components, prefix, here, naming, depth - 1)
    {
      var more := ExtractPropertyInto(properties[i], resolved.required, components, prefix, here, naming, depth - 1);
      ExtractAllSnoc(properties, i, resolved.required, components, prefix, here, naming, depth - 1);
      fields := Both(fields, more);
    }
    assert properties[..|properties|] == properties;
  }

  lemma ExtractAllSnoc(
      properties: seq<Property>, n: nat, required: set<string>, components: Components, prefix: string,
      context: Option<string>, naming: Naming, depth: nat)
    requires n < |properties|
    ensures ExtractAll(properties[..n + 1], required, components, prefix, context, naming, depth)
         == Both(ExtractAll(properties[..n], required, components, prefix, context, naming, depth),
                 ExtractOne(properties[n], required, components, prefix, context, naming, depth))
  {
    assert properties[..n + 1][..n] == properties[..n];
  }

  method ExtractPropertyInto(
      property: Property, required: set<string>, components: Components, prefix: string, context: Option<string>,
      naming: Naming, depth: nat)
    returns (fields: Option<seq<Field>>)
    ensures fields == ExtractOne(property, required, components, prefix, context, naming, depth)
    decreases depth, 1
  {
    if property.schema.None? {
      return Some([]);
    }
    var schema := property.schema.value;
    var fieldName := Joined(prefix, property.name);
    var own := OwnField(schema, Resolve(schema, components), property.name, fieldName, required, context, naming);
    var nest := NestOf(schema, components);
    if nest.None? {
      return Some([own]);
    }
    var below := ExtractFieldsInto(
      nest.value.schema, components, fieldName + nest.value.suffix, ContextOf(nest.value.schema, context), naming,
      depth);
    return if below.Some? then Some([own] + below.value) else None;
  }

  // ---------------------------------------------------------------- when the walk ends

  /** The schemas one call recurses into. */
  function Nested(properties: seq<Property>, components: Components): seq<Schema> {
    if properties == [] then []
    else
      var last := properties[|properties| - 1].schema;
      var nest := if last.Some? then NestOf(last.value, components) else None;
      Nested(properties[..|properties| - 1], components) + if nest.Some? then [nest.value.schema] else []
  }

  ghost predicate Nests(components: Components, a: Schema, b: Schema) {
    b in Nested(Resolve(a, components).properties, components)
  }

  /** A chain of schemas, each nested in the one before. */
  ghost predicate Chain(components: Components, w: seq<Schema>) {
    forall i, j | 0 <= i && j == i + 1 < |w| :: Nests(components, w[i], w[j])
  }

  ghost predicate AllFit(components: Components, schemas: seq<Schema>, depth: nat) {
    forall s | s in schemas :: ChainsFit(components, s, depth)
  }

  ghost predicate ChainsFit(components: Components, schema: Schema, depth: nat) {
    forall w | w != [] && w[0] == schema && Chain(components, w) :: |w| <= depth
  }

  lemma ChainsFitBelow(components: Components, schema: Schema, s: Schema, depth: nat)
    requires depth > 0 && ChainsFit(components, schema, depth) && Nests(components, schema, s)
    ensures ChainsFit(components, s, depth - 1)
  {
    forall w | w != [] && w[0] == s && Chain(components, w) ensures |w| <= depth - 1 {
      var longer := [schema] + w;
      assert Chain(components, longer) && longer[0] == schema;
    }
  }

  lemma ChainsFitAbove(components: Components, schema: Schema, depth: nat)
    requires depth > 0 && forall s | Nests(components, schema, s) :: ChainsFit(components, s, depth - 1)
    ensures ChainsFit(components, schema, depth)
  {
    forall w | w != [] && w[0] == schema && Chain(components, w) ensures |w| <= depth {
      if |w| > 1 {
        assert Nests(components, w[0], w[1]);
        assert Chain(components, w[1..]) && w[1..][0] == w[1];
      }
    }
  }

  lemma ChainsFitStep(components: Components, schema: Schema, depth: nat)
    requires depth > 0
    ensures ChainsFit(components, schema, depth)
       <==> AllFit(components, Nested(Resolve(schema, components).properties, components), depth - 1)
  {
    var nested := Nested(Resolve(schema, components).properties, components);
    if ChainsFit(components, schema, depth) {
      forall s | s in nested ensures ChainsFit(components, s, depth - 1) {
        ChainsFitBelow(components, schema, s, depth);
      }
    }
    if AllFit(components, nested, depth - 1) {
      ChainsFitAbove(components, schema, depth);
    }
  }

  lemma {:induction false} AllReturn(
      properties: seq<Property>, required: set<string>, components: Components, prefix: string, context: Option<string>,
      naming: Naming, depth: nat)
    ensures ExtractAll(properties, required, components, prefix, context, naming, depth).Some?
       <==> AllFit(components, Nested(properties, components), depth)
    decreases depth, 1, |properties|
  {
    if properties != [] {
      var last := properties[|properties| - 1].schema;
      AllReturn(properties[..|properties| - 1], required, components, prefix, context, naming, depth);
      if last.Some? && NestOf(last.value, components).Some? {
        var nest := NestOf(last.value, components).value;
        var fieldName := Joined(prefix, properties[|properties| - 1].name);
        ExtractReturnsExactly(
          nest.schema, components, fieldName + nest.suffix, ContextOf(nest.schema, context), naming, depth);
      }
    }
  }

  /** The walk returns exactly when no chain of nested schemas is longer than the calls it has. */
  lemma {:induction false} ExtractReturnsExactly(
      schema: Schema, components: Components, prefix: string, context: Option<string>, naming: Naming, depth: nat)
    ensures ExtractFields(schema, components, prefix, context, naming, depth).Some?
       <==> ChainsFit(components, schema, depth)
    decreases depth, 0
  {
    if depth == 0 {
      assert Chain(components, [schema]);
    } else {
      var resolved := Resolve(schema, components);
      ChainsFitStep(components, schema, depth);
      AllReturn(
        resolved.properties, resolved.required, components, prefix, ContextOf(schema, context), naming, depth - 1);
    }
  }

  /** A schema and every schema inside it. */
  ghost function Parts(schema: Schema): set<Schema> {
    {schema}
    + (set i, s | 0 <= i < |schema.properties| && schema.properties[i].schema.Some?
                  && s in Parts(schema.properties[i].schema.value) :: s)
    + (if schema.items.Some? then Parts(schema.items.value) else {})
  }

  ghost function AllParts(schema: Schema, components: Components): set<Schema> {
    Parts(schema) + set name, s | name in components.Keys && s in Parts(components[name]) :: s
  }

  lemma {:induction false} PartsNest(whole: Schema, part: Schema, inner: Schema)
    requires part in Parts(whole)
    requires || part.items == Some(inner)
             || exists i :: 0 <= i < |part.properties| && part.properties[i].schema == Some(inner)
    ensures inner in Parts(whole)
  {
    if part == whole {
      assert inner in Parts(inner);
    } else if whole.items.Some? && part in Parts(whole.items.value) {
      PartsNest(whole.items.value, part, inner);
    } else {
      var i :| 0 <= i < |whole.properties| && whole.properties[i].schema.Some?
          && part in Parts(whole.properties[i].schema.value);
      PartsNest(whole.properties[i].schema.value, part, inner);
    }
  }

  lemma AllPartsNest(schema: Schema, components: Components, part: Schema, inner: Schema)
    requires part in AllParts(schema, components)
    requires || part.items == Some(inner)
             || exists i :: 0 <= i < |part.properties| && part.properties[i].schema == Some(inner)
    ensures inner in AllParts(schema, components)
  {
    if part in Parts(schema) {
      PartsNest(schema, part, inner);
    } else {
      var name :| name in components.Keys && part in Parts(components[name]);
      PartsNest(components[name], part, inner);
    }
  }

  lemma {:induction false} NestedProperty(properties: seq<Property>, components: Components, s: Schema)
    requires s in Nested(properties, components)
    ensures exists i :: 0 <= i < |properties| && properties[i].schema.Some?
                        && NestOf(properties[i].schema.value, components).Some?
                        && NestOf(properties[i].schema.value, components).value.schema == s
  {
    var init := properties[..|properties| - 1];
    if s in Nested(init, components) {
      NestedProperty(init, components, s);
      var i :| 0 <= i < |init| && init[i].schema.Some? && NestOf(init[i].schema.value, components).Some?
               && NestOf(init[i].schema.value, components).value.schema == s;
      assert properties[i] == init[i];
    }
  }

  lemma NestsInside(schema: Schema, components: Components, a: Schema, b: Schema)
    requires a in AllParts(schema, components) && Nests(components, a, b)
    ensures b in AllParts(schema, components)
  {
    var node := Resolve(a, components);
    if a.ref.Some? && a.ref.value in components {
      assert node in Parts(node);
    }
    NestedProperty(node.properties, components, b);
    var i :| 0 <= i < |node.properties| && node.properties[i].schema.Some?
             && NestOf(node.properties[i].schema.value, components).Some?
             && NestOf(node.properties[i].schema.value, components).value.schema == b;
    var property := node.properties[i].schema.value;
    AllPartsNest(schema, components, node, property);
    if b != property {
      AllPartsNest(schema, components, property, b);
    }
  }

  ghost function NestEdges(components: Components): (Schema, Schema) -> bool {
    (a, b) => Nests(components, a, b)
  }

  lemma {:induction false} ChainIsWalk(schema: Schema, components: Components, w: seq<Schema>)
    requires w != [] && w[0] in AllParts(schema, components) && Chain(components, w)
    ensures Walk(NestEdges(components), AllParts(schema, components), w)
  {
    if |w| > 1 {
      var init, last := w[..|w| - 1], w[|w| - 1];
      ChainIsWalk(schema, components, init);
      assert Nests(components, w[|w| - 2], w[|w| - 1]);
      NestsInside(schema, components, init[|init| - 1], last);
      WalkExtends(NestEdges(components), AllParts(schema, components), init, last);
      assert w == init + [last];
    }
  }

  /** Termination: when no schema is nested in itself, through references or not, the walk
      returns, given as many calls as there are schemas. */
  lemma AcyclicSchemasReturn(
      schema: Schema, components: Components, prefix: string, context: Option<string>, naming: Naming, depth: nat)
    requires Acyclic(NestEdges(components), AllParts(schema, components))
    requires depth >= |AllParts(schema, components)|
    ensures ExtractFields(schema, components, prefix, context, naming, depth).Some?
  {
    var parts := AllParts(schema, components);
    assert schema in Parts(schema);
    forall w | w != [] && w[0] == schema && Chain(components, w) ensures |w| <= depth {
      ChainIsWalk(schema, components, w);
      AcyclicWalkFits(NestEdges(components), parts, w);
    }
    ExtractReturnsExactly(schema, components, prefix, context, naming, depth);
  }

  /** No chain of nested schemas that begins here comes back to one of its own schemas. */
  ghost predicate NoCycleFrom(components: Components, schema: Schema) {
    forall w, i | w != [] && w[0] == schema && Chain(components, w) && 0 <= i < |w| - 1 :: w[i] != w[|w| - 1]
  }

  /** A chain without repetitions is no longer than there are schemas. */
  lemma NoCycleFits(schema: Schema, components: Components, w: seq<Schema>)
    requires NoCycleFrom(components, schema) && w != [] && w[0] == schema && Chain(components, w)
    ensures |w| <= |AllParts(schema, components)|
  {
    assert schema in Parts(schema);
    ChainIsWalk(schema, components, w);
    forall i, j | 0 <= i < j < |w| ensures w[i] != w[j] {
      assert Chain(components, w[..j + 1]) && w[..j + 1][0] == schema;
      assert w[..j + 1][i] != w[..j + 1][|w[..j + 1]| - 1];
    }
    DistinctFit(w, AllParts(schema, components));
  }

  /** A chain that comes back can be made as long as one likes. */
  lemma {:induction false} ChainPumps(components: Components, w: seq<Schema>, i: nat, n: nat)
    returns (longer: seq<Schema>)
    requires w != [] && Chain(components, w) && i < |w| - 1 && w[i] == w[|w| - 1]
    ensures longer != [] && longer[0] == w[0] && longer[|longer| - 1] == w[|w| - 1]
    ensures Chain(components, longer) && |longer| >= n
    decreases n
  {
    longer := w;
    if n > 0 {
      longer := ChainPumps(components, w, i, n - 1);
      longer := ChainsJoin(components, longer, w[i..]);
    }
  }

  lemma ChainsJoin(components: Components, a: seq<Schema>, b: seq<Schema>) returns (joined: seq<Schema>)
    requires a != [] && |b| > 1 && Chain(components, a) && Chain(components, b) && a[|a| - 1] == b[0]
    ensures joined != [] && joined[0] == a[0] && joined[|joined| - 1] == b[|b| - 1]
    ensures Chain(components, joined) && |joined| > |a|
  {
    joined := a + b[1..];
    forall i, j | 0 <= i && j == i + 1 < |joined| ensures Nests(components, joined[i], joined[j]) {
      if i >= |a| - 1 {
        assert joined[i] == b[i - |a| + 1] && joined[j] == b[j - |a| + 1];
      }
    }
  }

  /** Termination, exactly: some recursion limit is deep enough if and only if no cycle of
      nested schemas can be reached from the schema. Unlike the path search the walk does not
      stop early, so every cycle it reaches counts. */
  lemma WalkTerminatesExactly(
      schema: Schema, components: Components, prefix: string, context: Option<string>, naming: Naming)
    ensures (exists depth: nat :: ExtractFields(schema, components, prefix, context, naming, depth).Some?)
       <==> NoCycleFrom(components, schema)
  {
    if NoCycleFrom(components, schema) {
      var depth := |AllParts(schema, components)|;
      forall w | w != [] && w[0] == schema && Chain(components, w) ensures |w| <= depth {
        NoCycleFits(schema, components, w);
      }
      ExtractReturnsExactly(schema, components, prefix, context, naming, depth);
    } else {
      var w, i :| w != [] && w[0] == schema && Chain(components, w) && 0 <= i < |w| - 1 && w[i] == w[|w| - 1];
      forall depth: nat ensures ExtractFields(schema, components, prefix, context, naming, depth).None? {
        var longer := ChainPumps(components, w, i, depth + 1);
        ExtractReturnsExactly(schema, components, prefix, context, naming, depth);
      }
    }
  }

  // ---------------------------------------------------------------- which fields are emitted

  /** The schema itself, or the component it refers to; an unknown component has nothing. */
  ghost predicate StandsFor(components: Components, schema: Schema, node: Schema) {
    match schema.ref
    case None => node == schema
    case Some(name) => if name in components then node == components[name] else node == EMPTY
  }

  /** The reference in force below a schema: its own, or the one above it. */
  function InForce(schema: Schema, above: Option<string>): Option<string> {
    if schema.ref == None || schema.ref == Some("") then above else schema.ref
  }

  ghost predicate NamedUnder(prefix: string, name: string, fieldName: string) {
    if prefix == "" then fieldName == name else fieldName == prefix + "." + name
  }

  /** What is below a property: the property itself if it is a reference or stands for an object,
      and otherwise the items of the list it stands for, behind brackets. */
  ghost predicate Opens(components: Components, property: Schema, inner: Schema, brackets: string) {
    exists node ::
      && StandsFor(components, property, node)
      && if property.ref.Some? || node.typ == Some("object") then inner == property && brackets == ""
         else node.typ == Some("array") && node.items == Some(inner) && brackets == "[]"
  }

  /** A schema met on the walk, under a prefix, and the reference in force above it. */
  datatype Visit = Visit(schema: Schema, prefix: string, above: Option<string>)

  ghost predicate StepInto(components: Components, property: Property, prefix: string, here: Option<string>, b: Visit) {
    && property.schema.Some?
    && exists name, brackets ::
         && NamedUnder(prefix, property.name, name) && Opens(components, property.schema.value, b.schema, brackets)
         && b.prefix == name + brackets && b.above == InForce(b.schema, here)
  }

  /** The field of a property, with everything it says. */
  ghost predicate DescribesProperty(
      components: Components, property: Property, required: set<string>, prefix: string, here: Option<string>,
      naming: Naming, f: Field)
  {
    && property.schema.Some?
    && var schema := property.schema.value;
       && NamedUnder(prefix, property.name, f.name)
       && f.location == "body"
       && (f.required <==> property.name in required)
       && (match schema.ref
           case Some(name) => f.typ == name
           case None => f.typ == if schema.typ.Some? then schema.typ.value else "object")
       && f.semanticId == naming.id(f.name, property.name, here)
       && exists node ::
            && StandsFor(components, schema, node)
            && f.description
               == (if Truthy(node.notes.description) then node.notes.description else Str(naming.describe(f.name)))
            && f.example == if node.notes.example.Null? then naming.sample(f.name, node) else node.notes.example
  }

  ghost predicate VisitStep(components: Components, a: Visit, b: Visit) {
    exists node, k ::
      && StandsFor(components, a.schema, node) && 0 <= k < |node.properties|
      && StepInto(components, node.properties[k], a.prefix, InForce(a.schema, a.above), b)
  }

  ghost predicate FieldAt(components: Components, a: Visit, naming: Naming, f: Field) {
    exists node, k ::
      && StandsFor(components, a.schema, node) && 0 <= k < |node.properties|
      && DescribesProperty(
           components, node.properties[k], node.required, a.prefix, InForce(a.schema, a.above), naming, f)
  }

  ghost predicate VisitTrail(components: Components, w: seq<Visit>) {
    w != [] && forall i, j | 0 <= i && j == i + 1 < |w| :: VisitStep(components, w[i], w[j])
  }

  /** The field is that of a property at the end of some way down from the start. */
  ghost predicate Occurs(components: Components, start: Visit, naming: Naming, f: Field) {
    exists w :: VisitTrail(components, w) && w[0] == start && FieldAt(components, w[|w| - 1], naming, f)
  }

  lemma StandsForExactly(components: Components, schema: Schema, node: Schema)
    ensures StandsFor(components, schema, node) <==> node == Resolve(schema, components)
  {
  }

  lemma OpensExactly(components: Components, property: Schema, inner: Schema, brackets: string)
    ensures Opens(components, property, inner, brackets)
       <==> NestOf(property, components) == Some(Nest(inner, brackets))
  {
    forall node ensures StandsFor(components, property, node) <==> node == Resolve(property, components) {
      StandsForExactly(components, property, node);
    }
  }

  lemma StepIntoExactly(components: Components, property: Property, prefix: string, here: Option<string>, b: Visit)
    ensures StepInto(components, property, prefix, here, b)
       <==> && property.schema.Some? && NestOf(property.schema.value, components).Some?
            && var nest := NestOf(property.schema.value, components).value;
               b == Visit(nest.schema, Joined(prefix, property.name) + nest.suffix, ContextOf(nest.schema, here))
  {
    if property.schema.Some? {
      forall brackets ensures Opens(components, property.schema.value, b.schema, brackets)
         <==> NestOf(property.schema.value, components) == Some(Nest(b.schema, brackets))
      {
        OpensExactly(components, property.schema.value, b.schema, brackets);
      }
      assert NamedUnder(prefix, property.name, Joined(prefix, property.name));
    }
  }

  lemma DescribesExactly(
      components: Components, property: Property, required: set<string>, prefix: string, here: Option<string>,
      naming: Naming, f: Field)
    ensures DescribesProperty(components, property, required, prefix, here, naming, f)
       <==> && property.schema.Some?
            && var schema := property.schema.value;
               f == OwnField(schema, Resolve(schema, components), property.name, Joined(prefix, property.name),
                             required, here, naming)
  {
    if property.schema.Some? {
      var node := Resolve(property.schema.value, components);
      StandsForExactly(components, property.schema.value, node);
    }
  }

  lemma TrailGoesOn(components: Components, a: Visit, w: seq<Visit>)
    requires VisitTrail(components, w) && VisitStep(components, a, w[0])
    ensures VisitTrail(components, [a] + w)
  {
  }

  lemma TrailTail(components: Components, w: seq<Visit>)
    requires VisitTrail(components, w) && |w| > 1
    ensures VisitStep(components, w[0], w[1]) && VisitTrail(components, w[1..])
  {
  }

  lemma OccursAbove(components: Components, start: Visit, b: Visit, naming: Naming, f: Field)
    requires VisitStep(components, start, b) && Occurs(components, b, naming, f)
    ensures Occurs(components, start, naming, f)
  {
    var w :| VisitTrail(components, w) && w[0] == b && FieldAt(components, w[|w| - 1], naming, f);
    TrailGoesOn(components, start, w);
    var longer := [start] + w;
    assert longer[0] == start && longer[|longer| - 1] == w[|w| - 1];
  }

  lemma OccursAtEnd(components: Components, w: seq<Visit>, naming: Naming, f: Field)
    requires VisitTrail(components, w) && FieldAt(components, w[|w| - 1], naming, f)
    ensures Occurs(components, w[0], naming, f)
  {
  }

  lemma OccursHereOrBelow(components: Components, start: Visit, naming: Naming, f: Field)
    requires Occurs(components, start, naming, f) && !FieldAt(components, start, naming, f)
    ensures exists b :: VisitStep(components, start, b) && Occurs(components, b, naming, f)
  {
    var w :| VisitTrail(components, w) && w[0] == start && FieldAt(components, w[|w| - 1], naming, f);
    TrailTail(components, w);
    OccursAtEnd(components, w[1..], naming, f);
    assert VisitStep(components, start, w[1]);
  }

  /** A field occurs here, or further down. */
  lemma OccursUnfolds(components: Components, start: Visit, naming: Naming, f: Field)
    ensures Occurs(components, start, naming, f)
       <==> || FieldAt(components, start, naming, f)
            || exists b :: VisitStep(components, start, b) && Occurs(components, b, naming, f)
  {
    if FieldAt(components, start, naming, f) {
      assert VisitTrail(components, [start]) && [start][0] == start;
    } else if Occurs(components, start, naming, f) {
      OccursHereOrBelow(components, start, naming, f);
    } else if b :| VisitStep(components, start, b) && Occurs(components, b, naming, f) {
      OccursAbove(components, start, b, naming, f);
    }
  }

  /** What one property gives: its own field, and all that occurs below it. */
  ghost predicate Gives(
      components: Components, property: Property, required: set<string>, prefix: string, here: Option<string>,
      naming: Naming, f: Field)
  {
    || DescribesProperty(components, property, required, prefix, here, naming, f)
    || exists b :: StepInto(components, property, prefix, here, b) && Occurs(components, b, naming, f)
  }

  ghost predicate SomeGives(
      components: Components, properties: seq<Property>, required: set<string>, prefix: string, here: Option<string>,
      naming: Naming, f: Field)
  {
    exists k :: 0 <= k < |properties| && Gives(components, properties[k], required, prefix, here, naming, f)
  }

  lemma OccursByProperty(components: Components, start: Visit, naming: Naming, f: Field)
    ensures var node := Resolve(start.schema, components);
            Occurs(components, start, naming, f)
            <==> SomeGives(components, node.properties, node.required, start.prefix,
                           InForce(start.schema, start.above), naming, f)
  {
    var node := Resolve(start.schema, components);
    var here := InForce(start.schema, start.above);
    OccursUnfolds(components, start, naming, f);
    StandsForExactly(components, start.schema, node);
    if FieldAt(components, start, naming, f) {
      var n, k :|
        && StandsFor(components, start.schema, n) && 0 <= k < |n.properties|
        && DescribesProperty(components, n.properties[k], n.required, start.prefix, here, naming, f);
      StandsForExactly(components, start.schema, n);
      assert Gives(components, node.properties[k], node.required, start.prefix, here, naming, f);
    }
    if b :| VisitStep(components, start, b) && Occurs(components, b, naming, f) {
      var n, k :|
        && StandsFor(components, start.schema, n) && 0 <= k < |n.properties|
        && StepInto(components, n.properties[k], start.prefix, here, b);
      StandsForExactly(components, start.schema, n);
      assert Gives(components, node.properties[k], node.required, start.prefix, here, naming, f);
    }
  }

  /** Completeness: whenever the walk returns, it has emitted exactly the fields that occur below
      the schema, each with its own name, flag, type, id, description and example. */
  lemma {:induction false} EmittedExactly(
      schema: Schema, components: Components, prefix: string, context: Option<string>, naming: Naming, depth: nat,
      f: Field)
    requires ExtractFields(schema, components, prefix, context, naming, depth).Some?
    ensures f in ExtractFields(schema, components, prefix, context, naming, depth).value
       <==> Occurs(components, Visit(schema, prefix, context), naming, f)
    decreases depth, 0, 0
  {
    var node := Resolve(schema, components);
    var here := ContextOf(schema, context);
    OccursByProperty(components, Visit(schema, prefix, context), naming, f);
    EmittedByAll(node.properties, node.required, components, prefix, here, naming, depth - 1, f);
  }

  lemma EmitsExactly(
      schema: Schema, components: Components, prefix: string, context: Option<string>, naming: Naming, depth: nat)
    ensures var fields := ExtractFields(schema, components, prefix, context, naming, depth);
            fields.Some? ==>
              forall f :: f in fields.value <==> Occurs(components, Visit(schema, prefix, context), naming, f)
  {
    var fields := ExtractFields(schema, components, prefix, context, naming, depth);
    if fields.Some? {
      forall f ensures f in fields.value <==> Occurs(components, Visit(schema, prefix, context), naming, f) {
        EmittedExactly(schema, components, prefix, context, naming, depth, f);
      }
    }
  }

  lemma {:induction false} EmittedByAll(
      properties: seq<Property>, required: set<string>, components: Components, prefix: string, context: Option<string>,
      naming: Naming, depth: nat, f: Field)
    requires ExtractAll(properties, required, components, prefix, context, naming, depth).Some?
    ensures f in ExtractAll(properties, required, components, prefix, context, naming, depth).value
       <==> SomeGives(components, properties, required, prefix, context, naming, f)
    decreases depth, 2, |properties|
  {
    if properties != [] {
      var init, last := properties[..|properties| - 1], properties[|properties| - 1];
      EmittedByAll(init, required, components, prefix, context, naming, depth, f);
      EmittedByOne(last, required, components, prefix, context, naming, depth, f);
      assert properties == init + [last];
      SomeGivesSnoc(components, init, last, required, prefix, context, naming, f);
    }
  }

  lemma SomeGivesSnoc(
      components: Components, properties: seq<Property>, property: Property, required: set<string>, prefix: string,
      here: Option<string>, naming: Naming, f: Field)
    ensures SomeGives(components, properties + [property], required, prefix, here, naming, f)
       <==> || SomeGives(components, properties, required, prefix, here, naming, f)
            || Gives(components, property, required, prefix, here, naming, f)
  {
    var more := properties + [property];
    assert more[|properties|] == property && forall k | 0 <= k < |properties| :: more[k] == properties[k];
  }

  lemma {:induction false} EmittedByOne(
      property: Property, required: set<string>, components: Components, prefix: string, context: Option<string>,
      naming: Naming, depth: nat, f: Field)
    requires ExtractOne(property, required, components, prefix, context, naming, depth).Some?
    ensures f in ExtractOne(property, required, components, prefix, context, naming, depth).value
       <==> Gives(components, property, required, prefix, context, naming, f)
    decreases depth, 1, 0
  {
    DescribesExactly(components, property, required, prefix, context, naming, f);
    if property.schema.Some? && NestOf(property.schema.value, components).Some? {
      var nest := NestOf(property.schema.value, components).value;
      var b := Visit(nest.schema, Joined(prefix, property.name) + nest.suffix, ContextOf(nest.schema, context));
      EmittedExactly(b.schema, components, b.prefix, b.above, naming, depth, f);
      StepIntoExactly(components, property, prefix, context, b);
      OneWayDown(components, property, prefix, context, b, naming, f);
    } else {
      forall b ensures !StepInto(components, property, prefix, context, b) {
        StepIntoExactly(components, property, prefix, context, b);
      }
    }
  }

  lemma OneWayDown(
      components: Components, property: Property, prefix: string, here: Option<string>, b: Visit, naming: Naming,
      f: Field)
    requires StepInto(components, property, prefix, here, b)
    ensures (exists c :: StepInto(components, property, prefix, here, c) && Occurs(components, c, naming, f))
       <==> Occurs(components, b, naming, f)
  {
    forall c | StepInto(components, property, prefix, here, c) ensures c == b {
      StepIntoExactly(components, property, prefix, here, b);
      StepIntoExactly(components, property, prefix, here, c);
    }
  }

  // ---------------------------------------------------------------- field names

  /** Where the name of a property ends in a field name: at its end, at the dot before a nested
      name, or at the brackets of a list. */
  predicate SegmentEnds(rest: string) {
    rest == "" || rest[0] == '.' || rest == "[]" || "[]." <= rest
  }

  /** One name is not another, nor another with a nested name after it. */
  predicate Apart(a: string, b: string) {
    !(a <= b && SegmentEnds(b[|a|..]))
  }

  /** Names pairwise apart. Keys of one dictionary are distinct anyway; what this adds is that no
      key reads as a nested name of another, as "a.b" and "a[].b" do beside "a". */
  ghost predicate Separate(properties: seq<Property>) {
    forall i, j | 0 <= i < |properties| && 0 <= j < |properties| && i != j ::
      Apart(properties[i].name, properties[j].name)
  }

  /** No field name under the prefix is empty: there is a prefix, or no empty property name. */
  ghost predicate Rooted(prefix: string, properties: seq<Property>) {
    forall i | 0 <= i < |properties| :: Joined(prefix, properties[i].name) != ""
  }

  ghost predicate WellNamed(schema: Schema) {
    Separate(schema.properties)
  }

  ghost predicate AllWellNamed(schema: Schema, components: Components) {
    forall s | s in AllParts(schema, components) :: WellNamed(s)
  }

  /** The name lies at or below the property under the prefix. */
  ghost predicate Under(name: string, prefix: string, property: string) {
    var own := Joined(prefix, property);
    own <= name && SegmentEnds(name[|own|..])
  }

  /** What ends a longer property's name ends the shorter one's within it. */
  lemma EndsInside(rest: string, inner: string)
    requires inner <= rest && SegmentEnds(rest) && SegmentEnds(rest[|inner|..])
    ensures SegmentEnds(inner)
  {
    if inner != "" && rest[0] != '.' {
      assert inner[0] == '[' && rest[1] == ']';
      if |inner| >= 3 {
        assert inner[..3] == rest[..3];
      } else if |inner| == 2 {
        assert inner == "[]";
      }
    }
  }

  lemma ShorterNotApart(own: string, a: string, b: string)
    requires a <= own && b <= own && |a| <= |b|
    requires SegmentEnds(own[|a|..]) && SegmentEnds(own[|b|..])
    ensures !Apart(a, b)
  {
    var rest, inner := own[|a|..], b[|a|..];
    assert inner == rest[..|b| - |a|] && rest[|inner|..] == own[|b|..];
    EndsInside(rest, inner);
  }

  /** The name without the prefix begins with the property. */
  lemma UnderBegins(name: string, prefix: string, a: string)
    requires Under(name, prefix, a)
    ensures var start := if prefix == "" then 0 else |prefix| + 1;
            && |name| >= start + |a| && a <= name[start..]
            && SegmentEnds(name[start..][|a|..])
  {
    var start := if prefix == "" then 0 else |prefix| + 1;
    var own := Joined(prefix, a);
    assert own[start..] == a;
    assert name[start..][|a|..] == name[|own|..];
  }

  lemma UnderShorter(name: string, prefix: string, a: string, b: string)
    requires Under(name, prefix, a) && Under(name, prefix, b) && |a| <= |b|
    ensures !Apart(a, b)
  {
    UnderBegins(name, prefix, a);
    UnderBegins(name, prefix, b);
    ShorterNotApart(name[if prefix == "" then 0 else |prefix| + 1..], a, b);
  }

  /** No name lies under two properties that are apart. */
  lemma UnderOneProperty(name: string, prefix: string, a: string, b: string)
    requires Under(name, prefix, a) && Under(name, prefix, b)
    ensures !Apart(a, b) || !Apart(b, a)
  {
    if |a| <= |b| {
      UnderShorter(name, prefix, a, b);
    } else {
      UnderShorter(name, prefix, b, a);
    }
  }

  ghost predicate DistinctNames(fields: seq<Field>) {
    forall i, j | 0 <= i < j < |fields| :: fields[i].name != fields[j].name
  }

  /** Every field lies under one of the first n properties. */
  ghost predicate AllUnder(fields: seq<Field>, prefix: string, properties: seq<Property>) {
    forall i | 0 <= i < |fields| ::
      exists k :: 0 <= k < |properties| && Under(fields[i].name, prefix, properties[k].name)
  }

  /** A name below a property of a nested schema lies strictly below the outer property. */
  lemma UnderNested(name: string, own: string, suffix: string, inner: string)
    requires own != "" && suffix in {"", "[]"} && Under(name, own + suffix, inner)
    ensures own <= name && name != own && SegmentEnds(name[|own|..])
  {
    assert name[..|Joined(own + suffix, inner)|] == own + suffix + "." + inner;
    assert name[|own|] == (suffix + ".")[0];
  }

  lemma {:induction false} OneDistinct(
      property: Property, required: set<string>, components: Components, prefix: string, context: Option<string>,
      naming: Naming, depth: nat, all: set<Schema>)
    requires NamedClosed(components, all) && Joined(prefix, property.name) != "" && NestIn(property, components, all)
    requires ExtractOne(property, required, components, prefix, context, naming, depth).Some?
    ensures var fields := ExtractOne(property, required, components, prefix, context, naming, depth).value;
            DistinctNames(fields) && forall i | 0 <= i < |fields| :: Under(fields[i].name, prefix, property.name)
    decreases depth, 1, 0
  {
    if property.schema.Some? {
      var own := OwnField(
        property.schema.value, Resolve(property.schema.value, components), property.name, Joined(prefix, property.name),
        required, context, naming);
      if NestOf(property.schema.value, components).Some? {
        var nest := NestOf(property.schema.value, components).value;
        var inner := ContextOf(nest.schema, context);
        var below := ExtractFields(nest.schema, components, own.name + nest.suffix, inner, naming, depth);
        ExtractDistinct(nest.schema, components, own.name + nest.suffix, inner, naming, depth, all);
        NestDistinct(own, below.value, nest.suffix, Resolve(nest.schema, components).properties, prefix, property.name);
      }
    }
  }

  lemma NestDistinct(
      own: Field, below: seq<Field>, suffix: string, inner: seq<Property>, prefix: string, property: string)
    requires own.name == Joined(prefix, property) != "" && suffix in {"", "[]"}
    requires DistinctNames(below) && AllUnder(below, own.name + suffix, inner)
    ensures DistinctNames([own] + below)
    ensures forall i | 0 <= i < |[own] + below| :: Under(([own] + below)[i].name, prefix, property)
  {
    forall i | 0 <= i < |below| ensures below[i].name != own.name && Under(below[i].name, prefix, property) {
      var k :| 0 <= k < |inner| && Under(below[i].name, own.name + suffix, inner[k].name);
      UnderNested(below[i].name, own.name, suffix, inner[k].name);
    }
  }

  /** What a property nests, if anything, is in the set. */
  ghost predicate NestIn(property: Property, components: Components, all: set<Schema>) {
    var p := property.schema;
    p.Some? && NestOf(p.value, components).Some? ==> NestOf(p.value, components).value.schema in all
  }

  ghost predicate NestsIn(properties: seq<Property>, components: Components, all: set<Schema>) {
    forall i | 0 <= i < |properties| :: NestIn(properties[i], components, all)
  }

  /** A set of schemas closed under nesting whose resolved schemas are well named. */
  ghost predicate NamedClosed(components: Components, all: set<Schema>) {
    forall s {:trigger Resolve(s, components)} | s in all ::
      WellNamed(Resolve(s, components)) && NestsIn(Resolve(s, components).properties, components, all)
  }

  /** The conditions on the properties of a schema, for one prefix. */
  ghost predicate Fit(properties: seq<Property>, prefix: string, components: Components, all: set<Schema>) {
    Separate(properties) && Rooted(prefix, properties) && NestsIn(properties, components, all)
  }

  lemma FitInit(properties: seq<Property>, prefix: string, components: Components, all: set<Schema>)
    requires properties != [] && Fit(properties, prefix, components, all)
    ensures var init, last := properties[..|properties| - 1], properties[|properties| - 1];
            && Fit(init, prefix, components, all) && NestIn(last, components, all) && Joined(prefix, last.name) != ""
            && forall k | 0 <= k < |init| :: Apart(init[k].name, last.name) && Apart(last.name, init[k].name)
  {
  }

  lemma {:induction false} AllDistinct(
      properties: seq<Property>, required: set<string>, components: Components, prefix: string, context: Option<string>,
      naming: Naming, depth: nat, all: set<Schema>)
    requires NamedClosed(components, all) && Fit(properties, prefix, components, all)
    requires ExtractAll(properties, required, components, prefix, context, naming, depth).Some?
    ensures var fields := ExtractAll(properties, required, components, prefix, context, naming, depth).value;
            DistinctNames(fields) && AllUnder(fields, prefix, properties)
    decreases depth, 2, |properties|
  {
    if properties != [] {
      var init, last := properties[..|properties| - 1], properties[|properties| - 1];
      FitInit(properties, prefix, components, all);
      var a := ExtractAll(init, required, components, prefix, context, naming, depth);
      var b := ExtractOne(last, required, components, prefix, context, naming, depth);
      assert ExtractAll(properties, required, components, prefix, context, naming, depth) == Both(a, b);
      AllDistinct(init, required, components, prefix, context, naming, depth, all);
      OneDistinct(last, required, components, prefix, context, naming, depth, all);
      SidesDistinct(a.value, b.value, prefix, init, last);
      assert properties == init + [last];
    }
  }

  lemma SidesDistinct(a: seq<Field>, b: seq<Field>, prefix: string, init: seq<Property>, last: Property)
    requires DistinctNames(a) && DistinctNames(b) && AllUnder(a, prefix, init)
    requires forall i | 0 <= i < |b| :: Under(b[i].name, prefix, last.name)
    requires forall k | 0 <= k < |init| :: Apart(init[k].name, last.name) && Apart(last.name, init[k].name)
    ensures DistinctNames(a + b) && AllUnder(a + b, prefix, init + [last])
  {
    var properties := init + [last];
    forall i | 0 <= i < |a|
      ensures exists k :: 0 <= k < |properties| && Under(a[i].name, prefix, properties[k].name)
      ensures forall j | 0 <= j < |b| :: a[i].name != b[j].name
    {
      var k :| 0 <= k < |init| && Under(a[i].name, prefix, init[k].name);
      assert properties[k] == init[k];
      forall j | 0 <= j < |b| && a[i].name == b[j].name ensures false {
        UnderOneProperty(a[i].name, prefix, init[k].name, last.name);
      }
    }
    assert properties[|init|] == last;
  }

  lemma {:induction false} ExtractDistinct(
      schema: Schema, components: Components, prefix: string, context: Option<string>, naming: Naming, depth: nat,
      all: set<Schema>)
    requires NamedClosed(components, all) && schema in all && Rooted(prefix, Resolve(schema, components).properties)
    requires ExtractFields(schema, components, prefix, context, naming, depth).Some?
    ensures var fields := ExtractFields(schema, components, prefix, context, naming, depth).value;
            DistinctNames(fields) && AllUnder(fields, prefix, Resolve(schema, components).properties)
    decreases depth, 0, 0
  {
    var resolved := Resolve(schema, components);
    AllDistinct(
      resolved.properties, resolved.required, components, prefix, ContextOf(schema, context), naming, depth - 1, all);
  }

  /** Whenever the walk returns, the field names it emits are pairwise distinct, provided that in
      each schema the property names are apart, and that the outermost names are not empty when
      there is no prefix before them. */
  lemma FieldNamesDistinct(
      schema: Schema, components: Components, prefix: string, context: Option<string>, naming: Naming, depth: nat)
    requires AllWellNamed(schema, components) && Rooted(prefix, Resolve(schema, components).properties)
    requires ExtractFields(schema, components, prefix, context, naming, depth).Some?
    ensures DistinctNames(ExtractFields(schema, components, prefix, context, naming, depth).value)
  {
    var all := AllParts(schema, components);
    assert schema in Parts(schema);
    forall s | s in all
      ensures WellNamed(Resolve(s, components)) && NestsIn(Resolve(s, components).properties, components, all)
    {
      NestsStayNamed(schema, components, s);
    }
    ExtractDistinct(schema, components, prefix, context, naming, depth, all);
  }

  lemma NestsStayNamed(schema: Schema, components: Components, s: Schema)
    requires AllWellNamed(schema, components) && s in AllParts(schema, components)
    ensures WellNamed(Resolve(s, components))
    ensures NestsIn(Resolve(s, components).properties, components, AllParts(schema, components))
  {
    var node := Resolve(s, components);
    if s.ref.Some? && s.ref.value in components {
      assert node in Parts(node);
    }
    forall i | 0 <= i < |node.properties| && node.properties[i].schema.Some?
               && NestOf(node.properties[i].schema.value, components).Some?
      ensures NestOf(node.properties[i].schema.value, components).value.schema in AllParts(schema, components)
    {
      var property := node.properties[i].schema.value;
      var b := NestOf(property, components).value.schema;
      AllPartsNest(schema, components, node, property);
      if b != property {
        AllPartsNest(schema, components, property, b);
      }
    }
  }

  // ---------------------------------------------------------------- exactly which siblings are safe

  function Leaf(): Schema {
    EMPTY.(typ := Some("string"))
  }

  /** An object with one property. */
  function Holding(name: string): Schema {
    EMPTY.(typ := Some("object"), properties := [Property(name, Some(Leaf()))])
  }

  function ListOf(schema: Schema): Schema {
    EMPTY.(typ := Some("array"), items := Some(schema))
  }

  function Pair(a: string, p: Schema, b: string, q: Schema): Schema {
    EMPTY.(typ := Some("object"), properties := [Property(a, Some(p)), Property(b, Some(q))])
  }

  lemma OneProperty(name: string, prefix: string, naming: Naming)
    ensures var fields := ExtractAll([Property(name, Some(Leaf()))], {}, map[], prefix, None, naming, 0);
            fields.Some? && |fields.value| == 1 && fields.value[0].name == Joined(prefix, name)
  {
    var p := Property(name, Some(Leaf()));
    assert [p][..0] == [];
    assert ExtractAll([], {}, map[], prefix, None, naming, 0) == Some([]);
  }

  function Brackets(list: bool): string {
    if list then "[]" else ""
  }

  /** An object with one property, or a list of such objects. */
  function Nesting(list: bool, inner: string): Schema {
    if list then ListOf(Holding(inner)) else Holding(inner)
  }

  /** A property that nests one field, directly or in a list. */
  lemma NestsOneField(prefix: string, name: string, list: bool, inner: string, naming: Naming)
    ensures var fields := ExtractOne(Property(name, Some(Nesting(list, inner))), {}, map[], prefix, None, naming, 1);
            && fields.Some? && |fields.value| == 2
            && fields.value[0].name == Joined(prefix, name)
            && fields.value[1].name == Joined(Joined(prefix, name) + Brackets(list), inner)
  {
    var nest := Nest(Holding(inner), Brackets(list));
    assert NestOf(Nesting(list, inner), map[]) == Some(nest);
    OneProperty(inner, Joined(prefix, name) + nest.suffix, naming);
  }

  lemma PairFields(prefix: string, a: string, p: Schema, b: string, q: Schema, naming: Naming)
    requires ExtractOne(Property(a, Some(p)), {}, map[], prefix, None, naming, 1).Some?
    requires ExtractOne(Property(b, Some(q)), {}, map[], prefix, None, naming, 1).Some?
    ensures ExtractFields(Pair(a, p, b, q), map[], prefix, None, naming, 2)
         == Some(ExtractOne(Property(a, Some(p)), {}, map[], prefix, None, naming, 1).value
                 + ExtractOne(Property(b, Some(q)), {}, map[], prefix, None, naming, 1).value)
  {
    var x, y := Property(a, Some(p)), Property(b, Some(q));
    assert [x, y][..1] == [x] && [x][..0] == [];
    assert ExtractAll([], {}, map[], prefix, None, naming, 1) == Some([]);
    var one := ExtractOne(x, {}, map[], prefix, None, naming, 1).value;
    assert [] + one == one;
    assert ExtractAll([x], {}, map[], prefix, None, naming, 1) == Some(one);
  }

  lemma NestedNamesMeet(prefix: string, a: string, suffix: string, y: string, b: string)
    requires Joined(prefix, a) != "" && Joined(prefix, b) != ""
    requires b + ".x" == a + suffix + "." + y
    ensures Joined(Joined(prefix, a) + suffix, y) == Joined(Joined(prefix, b) + "", "x")
  {
    var before := if prefix == "" then "" else prefix + ".";
    assert Joined(prefix, a) == before + a && Joined(prefix, b) == before + b;
    assert before + (b + ".x") == before + b + "" + "." + "x";
    assert before + (a + suffix + "." + y) == before + a + suffix + "." + y;
  }

  /** Two siblings of which one reads as a nested name of the other: nested names can then be
      chosen so that two fields of the schema have the same name. */
  lemma SiblingsCollide(prefix: string, a: string, list: bool, y: string, b: string, naming: Naming)
    requires Joined(prefix, a) != "" && Joined(prefix, b) != ""
    requires b + ".x" == a + Brackets(list) + "." + y
    ensures var fields := ExtractFields(Pair(a, Nesting(list, y), b, Holding("x")), map[], prefix, None, naming, 2);
            fields.Some? && !DistinctNames(fields.value)
  {
    NestsOneField(prefix, a, list, y, naming);
    NestsOneField(prefix, b, false, "x", naming);
    PairFields(prefix, a, Nesting(list, y), b, Holding("x"), naming);
    var one := ExtractOne(Property(a, Some(Nesting(list, y))), {}, map[], prefix, None, naming, 1).value;
    var two := ExtractOne(Property(b, Some(Holding("x"))), {}, map[], prefix, None, naming, 1).value;
    NestedNamesMeet(prefix, a, Brackets(list), y, b);
    var fields: seq<Field> := one + two;
    assert fields[1].name == fields[3].name;
  }

  /** With no prefix, an empty name nests its fields under no name at all, beside its siblings. */
  lemma EmptyNameCollides(b: string, naming: Naming)
    ensures var fields := ExtractFields(Pair("", Holding(b), b, Leaf()), map[], "", None, naming, 2);
            fields.Some? && !DistinctNames(fields.value)
  {
    NestsOneField("", "", false, b, naming);
    PairFields("", "", Holding(b), b, Leaf(), naming);
    var one := ExtractOne(Property("", Some(Holding(b))), {}, map[], "", None, naming, 1).value;
    var two := ExtractOne(Property(b, Some(Leaf())), {}, map[], "", None, naming, 1).value;
    var fields: seq<Field> := one + two;
    assert fields[1].name == fields[2].name;
  }

  /** Whatever well-named schemas the two siblings have, all fields get distinct names. */
  ghost predicate SafeSiblings(prefix: string, a: string, b: string, naming: Naming) {
    forall p, q, depth: nat |
      && AllWellNamed(p, map[]) && AllWellNamed(q, map[])
      && ExtractFields(Pair(a, p, b, q), map[], prefix, None, naming, depth).Some? ::
        DistinctNames(ExtractFields(Pair(a, p, b, q), map[], prefix, None, naming, depth).value)
  }

  lemma PairWellNamed(a: string, p: Schema, b: string, q: Schema)
    requires Apart(a, b) && Apart(b, a)
    requires AllWellNamed(p, map[]) && AllWellNamed(q, map[])
    ensures AllWellNamed(Pair(a, p, b, q), map[])
  {
    var whole := Pair(a, p, b, q);
    forall s | s in AllParts(whole, map[]) ensures WellNamed(s) {
      if s != whole {
        var i :| 0 <= i < 2 && s in Parts(whole.properties[i].schema.value);
        assert s in AllParts(if i == 0 then p else q, map[]);
      }
    }
  }

  lemma NestingWellNamed(list: bool, name: string)
    ensures AllWellNamed(Nesting(list, name), map[]) && AllWellNamed(Leaf(), map[])
  {
    var one, many := Holding(name), ListOf(Holding(name));
    forall s | s in Parts(one) && s != one ensures s == Leaf() {
      var i :| 0 <= i < |one.properties| && s in Parts(one.properties[i].schema.value);
      assert s in Parts(Leaf());
    }
    forall s | s in Parts(many) && s != many ensures s in {one, Leaf()} {
      assert s in Parts(one);
    }
  }

  /** What a nested name can be when one sibling reads as a nested name of the other. */
  lemma NestedNameOf(a: string, b: string) returns (list: bool, y: string)
    requires a != b && !Apart(a, b)
    ensures b + ".x" == a + Brackets(list) + "." + y
  {
    var rest := b[|a|..];
    assert b == a + rest;
    list := rest[0] == '[';
    if rest[0] == '.' {
      y := rest[1..] + ".x";
      assert rest == "." + rest[1..];
    } else if rest == "[]" {
      y := "x";
    } else {
      y := rest[3..] + ".x";
      assert rest == "[]." + rest[3..];
    }
  }

  lemma UnsafeBelow(prefix: string, a: string, b: string, naming: Naming)
    requires Joined(prefix, a) != "" && Joined(prefix, b) != "" && a != b && !Apart(a, b)
    ensures !SafeSiblings(prefix, a, b, naming)
  {
    var list, y := NestedNameOf(a, b);
    SiblingsCollide(prefix, a, list, y, b, naming);
    NestingWellNamed(list, y);
    NestingWellNamed(false, "x");
  }

  lemma UnsafeEmpty(b: string, naming: Naming)
    ensures !SafeSiblings("", "", b, naming)
  {
    EmptyNameCollides(b, naming);
    NestingWellNamed(false, b);
  }

  /** The condition is exact: two sibling names are safe if and only if they are apart and, when
      there is no prefix before them, neither is empty. */
  lemma SiblingsSafeExactly(prefix: string, a: string, b: string, naming: Naming)
    requires a != b
    ensures SafeSiblings(prefix, a, b, naming) && SafeSiblings(prefix, b, a, naming)
       <==> (prefix != "" || (a != "" && b != "")) && Apart(a, b) && Apart(b, a)
  {
    if prefix == "" && a == "" {
      UnsafeEmpty(b, naming);
    } else if prefix == "" && b == "" {
      UnsafeEmpty(a, naming);
    } else if Apart(a, b) && Apart(b, a) {
      ApartIsSafe(prefix, a, b, naming);
      ApartIsSafe(prefix, b, a, naming);
    } else if !Apart(a, b) {
      UnsafeBelow(prefix, a, b, naming);
    } else {
      UnsafeBelow(prefix, b, a, naming);
    }
  }

  lemma ApartIsSafe(prefix: string, a: string, b: string, naming: Naming)
    requires Joined(prefix, a) != "" && Joined(prefix, b) != "" && Apart(a, b) && Apart(b, a)
    ensures SafeSiblings(prefix, a, b, naming)
  {
    forall p, q, depth: nat |
      && AllWellNamed(p, map[]) && AllWellNamed(q, map[])
      && ExtractFields(Pair(a, p, b, q), map[], prefix, None, naming, depth).Some?
      ensures DistinctNames(ExtractFields(Pair(a, p, b, q), map[], prefix, None, naming, depth).value)
    {
      PairWellNamed(a, p, b, q);
      FieldNamesDistinct(Pair(a, p, b, q), map[], prefix, None, naming, depth);
    }
  }

  // ---------------------------------------------------------------- the attribute catalog

  datatype Operation = Operation(request: seq<Field>, response: seq<Field>)

  datatype Attribute = Attribute(
    semanticId: string, typ: string, description: Json, example: Json, locations: seq<string>,
    observedTypes: seq<string>, fieldPaths: seq<string>)

  /** Every field of every operation: request fields, then response fields. */
  function AllFields(operations: seq<Operation>): seq<Field> {
    if operations == [] then []
    else
      var last := operations[|operations| - 1];
      AllFields(operations[..|operations| - 1]) + (last.request + last.response)
  }

  /** The fields with an id, in order. */
  function WithId(fields: seq<Field>, id: string): seq<Field> {
    if fields == [] then []
    else
      var last := fields[|fields| - 1];
      WithId(fields[..|fields| - 1], id) + if last.semanticId == id then [last] else []
  }

  /** A list without its later repetitions. */
  function FirstOccurrences(xs: seq<string>): seq<string> {
    if xs == [] then []
    else
      var init := FirstOccurrences(xs[..|xs| - 1]);
      if xs[|xs| - 1] in xs[..|xs| - 1] then init else init + [xs[|xs| - 1]]
  }

  /** The three collected columns. */
  datatype Column = LocationColumn | TypeColumn | NameColumn

  function Value(field: Field, column: Column): string {
    match column
    case LocationColumn => field.location
    case TypeColumn => field.typ
    case NameColumn => field.name
  }

  function ColumnValues(fields: seq<Field>, column: Column): seq<string> {
    seq(|fields|, i requires 0 <= i < |fields| => Value(fields[i], column))
  }

  /** The description a field brings to its attribute. */
  function Described(field: Field, describe: string -> string): Json {
    if Truthy(field.description) then field.description else Str(describe(field.name))
  }

  /** The attribute of a group of fields with one id; type, description and example are those of
      its first field. */
  function Summarized(group: seq<Field>, describe: string -> string): Attribute
    requires group != []
  {
    Attribute(
      group[0].semanticId, group[0].typ, Described(group[0], describe), group[0].example,
      FirstOccurrences(ColumnValues(group, LocationColumn)),
      FirstOccurrences(ColumnValues(group, TypeColumn)),
      FirstOccurrences(ColumnValues(group, NameColumn)))
  }

  /** The attribute of an id, computed from all fields at once. */
  function Group(fields: seq<Field>, id: string, describe: string -> string): Attribute
    requires WithId(fields, id) != []
  {
    Summarized(WithId(fields, id), describe)
  }

  /** The catalog has the attribute of the id's group, if the id has one. */
  ghost predicate GroupedAt(
      catalog: map<string, Attribute>, fields: seq<Field>, id: string, describe: string -> string)
  {
    if WithId(fields, id) == [] then id !in catalog
    else id in catalog && catalog[id] == Group(fields, id, describe)
  }

  ghost predicate IsGroupBy(catalog: map<string, Attribute>, fields: seq<Field>, describe: string -> string) {
    forall id :: GroupedAt(catalog, fields, id, describe)
  }

  /** `if x not in xs: xs.append(x)` */
  function AppendNew(xs: seq<string>, x: string): seq<string> {
    if x in xs then xs else xs + [x]
  }

  function Started(field: Field, describe: string -> string): Attribute {
    Attribute(
      field.semanticId, field.typ, Described(field, describe), field.example, [field.location], [field.typ],
      [field.name])
  }

  function Extended(item: Attribute, field: Field): Attribute {
    item.(
      locations := AppendNew(item.locations, field.location),
      observedTypes := AppendNew(item.observedTypes, field.typ),
      fieldPaths := AppendNew(item.fieldPaths, field.name))
  }

  function Updated(catalog: map<string, Attribute>, field: Field, describe: string -> string): map<string, Attribute> {
    var id := field.semanticId;
    catalog[id := if id in catalog then Extended(catalog[id], field) else Started(field, describe)]
  }

  /** All fields are those of some operation's request or response. */
  lemma {:induction false} AllFieldsExactly(operations: seq<Operation>, f: Field)
    ensures f in AllFields(operations)
       <==> exists i :: 0 <= i < |operations| && (f in operations[i].request || f in operations[i].response)
  {
    if operations != [] {
      var init, last := operations[..|operations| - 1], operations[|operations| - 1];
      AllFieldsExactly(init, f);
      assert forall i | 0 <= i < |init| :: operations[i] == init[i];
    }
  }

  lemma {:induction false} FirstOccurrencesMembers(xs: seq<string>)
    ensures forall x :: x in FirstOccurrences(xs) <==> x in xs
  {
    if xs != [] {
      FirstOccurrencesMembers(xs[..|xs| - 1]);
      assert xs == xs[..|xs| - 1] + [xs[|xs| - 1]];
    }
  }

  lemma ColumnGrows(group: seq<Field>, field: Field, column: Column)
    ensures FirstOccurrences(ColumnValues(group + [field], column))
         == AppendNew(FirstOccurrences(ColumnValues(group, column)), Value(field, column))
  {
    var xs := ColumnValues(group + [field], column);
    assert xs[..|group|] == ColumnValues(group, column);
    FirstOccurrencesMembers(ColumnValues(group, column));
  }

  lemma FirstColumn(field: Field, column: Column)
    ensures FirstOccurrences(ColumnValues([field], column)) == [Value(field, column)]
  {
    assert ColumnValues([field], column)[..0] == [];
  }

  lemma SummaryStarts(field: Field, describe: string -> string)
    ensures Summarized([field], describe) == Started(field, describe)
  {
    FirstColumn(field, LocationColumn);
    FirstColumn(field, TypeColumn);
    FirstColumn(field, NameColumn);
  }

  lemma SummaryGrows(group: seq<Field>, field: Field, describe: string -> string)
    requires group != []
    ensures Summarized(group + [field], describe) == Extended(Summarized(group, describe), field)
  {
    ColumnGrows(group, field, LocationColumn);
    ColumnGrows(group, field, TypeColumn);
    ColumnGrows(group, field, NameColumn);
  }

  lemma WithIdSnoc(fields: seq<Field>, field: Field, id: string)
    ensures WithId(fields + [field], id)
         == if id == field.semanticId then WithId(fields, id) + [field] else WithId(fields, id)
  {
    assert (fields + [field])[..|fields|] == fields;
    assert WithId(fields, id) + [] == WithId(fields, id);
  }

  lemma CatalogStepAt(
      catalog: map<string, Attribute>, fields: seq<Field>, field: Field, id: string, describe: string -> string)
    requires GroupedAt(catalog, fields, id, describe)
    ensures GroupedAt(Updated(catalog, field, describe), fields + [field], id, describe)
  {
    var group := WithId(fields, id);
    WithIdSnoc(fields, field, id);
    if id == field.semanticId {
      if group == [] {
        assert group + [field] == [field];
        SummaryStarts(field, describe);
      } else {
        SummaryGrows(group, field, describe);
      }
    }
  }

  /** One field updates the incremental catalog as it changes the groups. */
  lemma CatalogStep(catalog: map<string, Attribute>, fields: seq<Field>, field: Field, describe: string -> string)
    requires IsGroupBy(catalog, fields, describe)
    ensures IsGroupBy(Updated(catalog, field, describe), fields + [field], describe)
  {
    forall id ensures GroupedAt(Updated(catalog, field, describe), fields + [field], id, describe) {
      assert GroupedAt(catalog, fields, id, describe);
      CatalogStepAt(catalog, fields, field, id, describe);
    }
  }

  method AddFields(
      start: map<string, Attribute>, fields: seq<Field>, describe: string -> string, ghost before: seq<Field>)
    returns (catalog: map<string, Attribute>)
    requires IsGroupBy(start, before, describe)
    ensures IsGroupBy(catalog, before + fields, describe)
  {
    catalog := start;
    ghost var added := before;
    for k := 0 to |fields|
      invariant IsGroupBy(catalog, added, describe)
      invariant added == before + fields[..k]
    {
      CatalogStep(catalog, added, fields[k], describe);
      catalog := Updated(catalog, fields[k], describe);
      added := added + [fields[k]];
    }
    assert added == before + fields;
  }

  /** The incremental catalog refines the plain group-by over all fields. */
  method BuildAttributeCatalog(operations: seq<Operation>, describe: string -> string)
    returns (catalog: map<string, Attribute>)
    ensures IsGroupBy(catalog, AllFields(operations), describe)
  {
    catalog := map[];
    for i := 0 to |operations|
      invariant IsGroupBy(catalog, AllFields(operations[..i]), describe)
    {
      catalog := AddFields(
        catalog, operations[i].request + operations[i].response, describe, AllFields(operations[..i]));
      assert operations[..i + 1][..i] == operations[..i];
    }
    assert operations[..|operations|] == operations;
  }

  /** The catalog as it is written: its attributes, sorted by semantic id. */
  method SortedAttributes(catalog: map<string, Attribute>) returns (attributes: seq<Attribute>)
    requires forall id | id in catalog :: catalog[id].semanticId == id
    ensures forall i, j | 0 <= i < j < |attributes| ::
              Ordering.StringLess(attributes[i].semanticId, attributes[j].semanticId)
    ensures forall a :: a in attributes <==> a.semanticId in catalog && catalog[a.semanticId] == a
  {
    Ordering.StringLessStrictTotal();
    var ids := Ordering.SortSet(Ordering.StringLess, catalog.Keys);
    assert forall i | 0 <= i < |ids| :: ids[i] in ids;
    attributes := seq(|ids|, i requires 0 <= i < |ids| => catalog[ids[i]]);
    forall a: Attribute | a.semanticId in catalog && catalog[a.semanticId] == a ensures a in attributes {
      var i :| 0 <= i < |ids| && ids[i] == a.semanticId;
      assert attributes[i] == a;
    }
  }

  // ---------------------------------------------------------------- what the lists hold

  /** x occurs in xs at i and nowhere before. */
  ghost predicate FirstAt(xs: seq<string>, i: nat, x: string) {
    i < |xs| && xs[i] == x && x !in xs[..i]
  }

  /** A list without later repetitions has each member once, in the order of their first
      occurrences. */
  lemma {:induction false} FirstOccurrencesInOrder(xs: seq<string>)
    ensures var ds := FirstOccurrences(xs);
            && Ordering.Distinct(ds)
            && (forall x :: x in ds <==> x in xs)
            && (forall a, b, i, j | 0 <= a < b < |ds| && FirstAt(xs, i, ds[a]) && FirstAt(xs, j, ds[b]) :: i < j)
  {
    FirstOccurrencesMembers(xs);
    if xs != [] {
      var init, last := xs[..|xs| - 1], xs[|xs| - 1];
      var ds, ns := FirstOccurrences(xs), FirstOccurrences(init);
      FirstOccurrencesInOrder(init);
      FirstOccurrencesMembers(init);
      forall a, b, i, j | 0 <= a < b < |ds| && FirstAt(xs, i, ds[a]) && FirstAt(xs, j, ds[b]) ensures i < j {
        assert a < |ns| && ds[a] == ns[a] && ns[a] in init;
        FirstAtInit(xs, i, ds[a]);
        if b < |ns| {
          assert ds[b] == ns[b] && ns[b] in init;
          FirstAtInit(xs, j, ds[b]);
        } else {
          assert ds[b] == last && last !in init;
          assert j == |xs| - 1;
        }
      }
    }
  }

  lemma FirstAtInit(xs: seq<string>, i: nat, x: string)
    requires xs != [] && FirstAt(xs, i, x) && x in xs[..|xs| - 1]
    ensures FirstAt(xs[..|xs| - 1], i, x)
  {
    var init := xs[..|xs| - 1];
    if i < |xs| - 1 {
      assert init[..i] == xs[..i];
    }
  }

  /** No field is lost: its name, location and type are in the catalog under its own id. */
  lemma {:induction false} EveryFieldCatalogued(
      catalog: map<string, Attribute>, fields: seq<Field>, describe: string -> string, i: nat)
    requires IsGroupBy(catalog, fields, describe) && i < |fields|
    ensures var f := fields[i];
            && f.semanticId in catalog
            && f.name in catalog[f.semanticId].fieldPaths
            && f.location in catalog[f.semanticId].locations
            && f.typ in catalog[f.semanticId].observedTypes
  {
    var f := fields[i];
    var group := WithId(fields, f.semanticId);
    WithIdContains(fields, i);
    assert GroupedAt(catalog, fields, f.semanticId, describe);
    var k :| 0 <= k < |group| && group[k] == f;
    assert ColumnValues(group, NameColumn)[k] == f.name && ColumnValues(group, LocationColumn)[k] == f.location;
    assert ColumnValues(group, TypeColumn)[k] == f.typ;
    FirstOccurrencesMembers(ColumnValues(group, NameColumn));
    FirstOccurrencesMembers(ColumnValues(group, LocationColumn));
    FirstOccurrencesMembers(ColumnValues(group, TypeColumn));
  }

  lemma {:induction false} WithIdFirst(fields: seq<Field>, i: nat)
    requires i < |fields| && forall j | 0 <= j < i :: fields[j].semanticId != fields[i].semanticId
    ensures var group := WithId(fields, fields[i].semanticId); group != [] && group[0] == fields[i]
  {
    var init := fields[..|fields| - 1];
    if i < |fields| - 1 {
      WithIdFirst(init, i);
    } else {
      NoneWithId(init, fields[i].semanticId);
    }
  }

  lemma {:induction false} NoneWithId(fields: seq<Field>, id: string)
    requires forall j | 0 <= j < |fields| :: fields[j].semanticId != id
    ensures WithId(fields, id) == []
  {
    if fields != [] {
      NoneWithId(fields[..|fields| - 1], id);
    }
  }

  /** The first field with an id gives its attribute the type, the description and the example. */
  lemma FirstFieldGoverns(
      catalog: map<string, Attribute>, fields: seq<Field>, describe: string -> string, i: nat)
    requires IsGroupBy(catalog, fields, describe) && i < |fields|
    requires forall j | 0 <= j < i :: fields[j].semanticId != fields[i].semanticId
    ensures var f := fields[i];
            && f.semanticId in catalog
            && catalog[f.semanticId].semanticId == f.semanticId
            && catalog[f.semanticId].typ == f.typ && catalog[f.semanticId].example == f.example
            && catalog[f.semanticId].description
               == if Truthy(f.description) then f.description else Str(describe(f.name))
  {
    WithIdFirst(fields, i);
    assert GroupedAt(catalog, fields, fields[i].semanticId, describe);
  }

  lemma {:induction false} WithIdContains(fields: seq<Field>, i: nat)
    requires i < |fields|
    ensures fields[i] in WithId(fields, fields[i].semanticId)
  {
    if i < |fields| - 1 {
      WithIdContains(fields[..|fields| - 1], i);
    }
  }
}
