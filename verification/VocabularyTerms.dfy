/** scripts/api_vocabulary_inventory.py: the naming rule for semantic ids, the validation of an
    inventory, and exactly when a built inventory passes it. */
module VocabularyTerms {
  import opened Values
  import opened VocabularyInventory
  import Ordering

  // ---------------------------------------------------------------- snake case

  predicate IsUpperLetter(c: char) {
    'A' <= c <= 'Z'
  }

  predicate IsLowerOrDigit(c: char) {
    'a' <= c <= 'z' || '0' <= c <= '9'
  }

  predicate IsSeparator(c: char) {
    c == '-' || c == ' ' || c == '.' || c == '_'
  }

  /** An underscore between each lower-case letter or digit and the capital after it. */
  function Broken(s: string): string {
    if |s| <= 1 then s
    else if IsLowerOrDigit(s[0]) && IsUpperLetter(s[1]) then [s[0], '_'] + Broken(s[1..])
    else [s[0]] + Broken(s[1..])
  }

  function UnderscoreFor(c: char): char {
    if IsSeparator(c) then '_' else c
  }

  function Underscored(s: string): string {
    seq(|s|, i requires 0 <= i < |s| => UnderscoreFor(s[i]))
  }

  function WithoutLeading(s: string): string {
    if s != "" && s[0] == '_' then WithoutLeading(s[1..]) else s
  }

  function WithoutTrailing(s: string): string {
    if s != "" && s[|s| - 1] == '_' then WithoutTrailing(s[..|s| - 1]) else s
  }

  function ToSnakeCase(s: string): string {
    Lower(WithoutTrailing(WithoutLeading(Underscored(Broken(s)))))
  }

  predicate IsSnakeCase(s: string) {
    && s != "" && 'a' <= s[0] <= 'z'
    && forall i | 0 <= i < |s| :: IsLowerOrDigit(s[i]) || s[i] == '_'
  }

  predicate IsLetter(c: char) {
    IsUpperLetter(c) || 'a' <= c <= 'z'
  }

  predicate IsWord(c: char) {
    IsUpperLetter(c) || IsLowerOrDigit(c) || IsSeparator(c)
  }

  predicate AllWord(s: string) {
    forall i | 0 <= i < |s| :: IsWord(s[i])
  }

  /** A name without the separators it begins with. */
  function Bare(s: string): string {
    if s != "" && IsSeparator(s[0]) then Bare(s[1..]) else s
  }

  lemma AllWordCons(c: char, s: string)
    ensures AllWord([c] + s) <==> IsWord(c) && AllWord(s)
  {
    assert ([c] + s)[0] == c;
    assert forall i | 0 <= i < |s| :: ([c] + s)[i + 1] == s[i];
  }

  lemma {:induction false} BrokenWords(s: string)
    ensures AllWord(Broken(s)) <==> AllWord(s)
    ensures s != "" ==> Broken(s) != "" && Broken(s)[0] == s[0]
  {
    if |s| > 1 {
      BrokenWords(s[1..]);
      assert s == [s[0]] + s[1..];
      AllWordCons(s[0], s[1..]);
      AllWordCons(s[0], Broken(s[1..]));
      AllWordCons('_', Broken(s[1..]));
      AllWordCons(s[0], ['_'] + Broken(s[1..]));
      assert [s[0], '_'] + Broken(s[1..]) == [s[0]] + (['_'] + Broken(s[1..]));
    }
  }

  lemma UnderscoredWords(s: string)
    ensures AllWord(Underscored(s)) <==> AllWord(s)
  {
    assert forall i | 0 <= i < |s| :: IsWord(Underscored(s)[i]) <==> IsWord(s[i]);
  }

  lemma {:induction false} BareWords(s: string)
    ensures AllWord(Bare(s)) <==> AllWord(s)
  {
    if s != "" && IsSeparator(s[0]) {
      BareWords(s[1..]);
      assert s == [s[0]] + s[1..];
      AllWordCons(s[0], s[1..]);
    }
  }

  lemma {:induction false} TrailingWords(s: string)
    ensures AllWord(WithoutTrailing(s)) <==> AllWord(s)
    ensures s != "" && s[0] != '_' ==> WithoutTrailing(s) != "" && WithoutTrailing(s)[0] == s[0]
  {
    if s != "" && s[|s| - 1] == '_' {
      TrailingWords(s[..|s| - 1]);
    }
  }

  /** Stripping underscores in front is leaving out the separators in front. */
  lemma {:induction false} LeadingIsBare(s: string)
    ensures WithoutLeading(Underscored(Broken(s))) == Underscored(Broken(Bare(s)))
  {
    var u := Underscored(Broken(s));
    BrokenWords(s);
    if s != "" && IsSeparator(s[0]) {
      LeadingIsBare(s[1..]);
      assert Broken(s) == [s[0]] + Broken(s[1..]);
      assert u[1..] == Underscored(Broken(s[1..]));
    }
  }

  lemma LowerSnake(s: string)
    ensures IsSnakeCase(Lower(s))
       <==> s != "" && IsLetter(s[0]) && forall i | 0 <= i < |s| :: IsWord(s[i]) && s[i] !in "-. "
  {
    assert forall i | 0 <= i < |s| ::
        (IsLowerOrDigit(Lower(s)[i]) || Lower(s)[i] == '_') <==> (IsWord(s[i]) && s[i] !in "-. ");
  }

  lemma {:induction false} NoOtherSeparators(s: string)
    requires forall i | 0 <= i < |s| :: s[i] !in "-. "
    ensures forall i | 0 <= i < |WithoutTrailing(s)| :: WithoutTrailing(s)[i] !in "-. "
  {
    if s != "" && s[|s| - 1] == '_' {
      NoOtherSeparators(s[..|s| - 1]);
    }
  }

  /** A name becomes a snake-case term exactly when it holds nothing but ASCII letters, digits
      and separators, and a letter comes first after leading separators. */
  lemma SnakeCaseExactly(s: string)
    ensures IsSnakeCase(ToSnakeCase(s)) <==> AllWord(s) && Bare(s) != "" && IsLetter(Bare(s)[0])
  {
    var b := Bare(s);
    var u := Underscored(Broken(b));
    LeadingIsBare(s);
    LowerSnake(WithoutTrailing(u));
    NoOtherSeparators(u);
    TrailingWords(u);
    UnderscoredWords(Broken(b));
    BrokenWords(b);
    BareWords(s);
    BareStart(s);
    assert forall i | 0 <= i < |WithoutTrailing(u)| :: WithoutTrailing(u)[i] !in "-. ";
    if b != "" {
      assert u[0] == b[0];
    } else {
      assert u == "";
    }
  }

  lemma {:induction false} BareStart(s: string)
    ensures Bare(s) != "" ==> !IsSeparator(Bare(s)[0])
  {
    if s != "" && IsSeparator(s[0]) {
      BareStart(s[1..]);
    }
  }

  // ---------------------------------------------------------------- what becomes of a name

  function Letter(c: char): string {
    if IsSeparator(c) then "" else [c]
  }

  /** A name without its separators. */
  function Letters(s: string): string {
    if s == "" then "" else Letter(s[0]) + Letters(s[1..])
  }

  lemma {:induction false} LettersAppend(a: string, b: string)
    ensures Letters(a + b) == Letters(a) + Letters(b)
  {
    if a == "" {
      assert a + b == b;
    } else {
      LettersAppend(a[1..], b);
      assert (a + b)[0] == a[0] && (a + b)[1..] == a[1..] + b;
      LetterInFront(a[0], Letters(a[1..]), Letters(b));
    }
  }

  lemma LetterInFront(c: char, x: string, y: string)
    ensures Letter(c) + (x + y) == Letter(c) + x + y
  {
  }

  lemma {:induction false} BrokenLetters(s: string)
    ensures Letters(Broken(s)) == Letters(s)
  {
    if |s| > 1 {
      BrokenLetters(s[1..]);
      var rest := Broken(s[1..]);
      LettersAppend([s[0]], rest);
      LettersAppend([s[0], '_'], rest);
      LettersAppend([s[0]], s[1..]);
      LettersAppend([s[0]], ['_']);
      assert [s[0]] + ['_'] == [s[0], '_'] && s == [s[0]] + s[1..];
      assert Letters(['_']) == "";
    }
  }

  lemma {:induction false} UnderscoredLetters(s: string)
    ensures Letters(Underscored(s)) == Letters(s)
  {
    if s != "" {
      UnderscoredLetters(s[1..]);
      assert Underscored(s)[1..] == Underscored(s[1..]);
    }
  }

  lemma {:induction false} LeadingLetters(s: string)
    ensures Letters(WithoutLeading(s)) == Letters(s)
  {
    if s != "" && s[0] == '_' {
      LeadingLetters(s[1..]);
    }
  }

  lemma {:induction false} TrailingLetters(s: string)
    ensures Letters(WithoutTrailing(s)) == Letters(s)
  {
    if s != "" && s[|s| - 1] == '_' {
      var init := s[..|s| - 1];
      TrailingLetters(init);
      assert s == init + ['_'];
      LettersAppend(init, ['_']);
      assert Letters(['_']) == "";
    }
  }

  lemma {:induction false} LowerLetters(s: string)
    ensures Letters(Lower(s)) == Lower(Letters(s))
  {
    if s != "" {
      LowerLetters(s[1..]);
      assert Lower(s)[1..] == Lower(s[1..]);
      assert IsSeparator(LowerChar(s[0])) <==> IsSeparator(s[0]);
    }
  }

  /** The term keeps the name: all its letters and digits, in order, in lower case. */
  lemma LettersKept(s: string)
    ensures Letters(ToSnakeCase(s)) == Lower(Letters(s))
  {
    var u := Underscored(Broken(s));
    LowerLetters(WithoutTrailing(WithoutLeading(u)));
    TrailingLetters(WithoutLeading(u));
    LeadingLetters(u);
    UnderscoredLetters(Broken(s));
    BrokenLetters(s);
  }

  lemma {:induction false} NothingBroken(s: string)
    requires forall i | 0 <= i < |s| :: !IsUpperLetter(s[i])
    ensures Broken(s) == s
  {
    if |s| > 1 {
      NothingBroken(s[1..]);
    }
  }

  /** A term is its own term. */
  lemma TermsStay(s: string)
    requires IsSnakeCase(s) && s[|s| - 1] != '_'
    ensures ToSnakeCase(s) == s
  {
    NothingBroken(s);
    assert Underscored(s) == s;
    NothingTrimmed(s);
    LowerStays(s);
  }

  lemma LowerStays(s: string)
    requires forall i | 0 <= i < |s| :: !IsUpperLetter(s[i])
    ensures Lower(s) == s
  {
  }

  lemma {:induction false} BrokenAtHump(a: string, b: string)
    requires a != "" && b != "" && IsLowerOrDigit(a[|a| - 1]) && IsUpperLetter(b[0])
    ensures Broken(a + b) == Broken(a) + "_" + Broken(b)
  {
    var s := a + b;
    if |a| == 1 {
      assert s[1..] == b && Broken(s) == [s[0], '_'] + Broken(b);
    } else {
      BrokenAtHump(a[1..], b);
      assert s[1..] == a[1..] + b && s[0] == a[0] && s[1] == a[1];
    }
  }

  lemma {:induction false} BrokenLast(s: string)
    requires s != ""
    ensures Broken(s) != "" && Broken(s)[|Broken(s)| - 1] == s[|s| - 1] && Broken(s)[0] == s[0]
  {
    if |s| > 1 {
      BrokenLast(s[1..]);
    }
  }

  lemma NothingTrimmed(u: string)
    requires u != "" && u[0] != '_' && u[|u| - 1] != '_'
    ensures WithoutTrailing(WithoutLeading(u)) == u
  {
    assert WithoutLeading(u) == u;
  }

  lemma UnderscoredEnds(b: string)
    requires b != "" && !IsSeparator(b[0]) && !IsSeparator(b[|b| - 1])
    ensures var u := Underscored(b); u != "" && u[0] != '_' && u[|u| - 1] != '_'
  {
  }

  lemma Untrimmed(s: string)
    requires s != "" && !IsSeparator(s[0]) && !IsSeparator(s[|s| - 1])
    ensures ToSnakeCase(s) == Lower(Underscored(Broken(s)))
  {
    BrokenLast(s);
    UnderscoredEnds(Broken(s));
    NothingTrimmed(Underscored(Broken(s)));
  }

  lemma UnderscoredAppend(a: string, b: string)
    ensures Underscored(a + b) == Underscored(a) + Underscored(b)
  {
  }

  /** Words on both sides of a break stay words. */
  lemma LoweredApart(x: string, y: string)
    ensures Lower(Underscored(x + "_" + y)) == Lower(Underscored(x)) + "_" + Lower(Underscored(y))
  {
    UnderscoredAppend(x + "_", y);
    UnderscoredAppend(x, "_");
    LowerAppend(Underscored(x) + "_", Underscored(y));
    LowerAppend(Underscored(x), "_");
    assert Underscored("_") == "_" && Lower("_") == "_";
  }

  /** A capital after a lower-case letter or a digit begins a new word. */
  lemma HumpsBreak(a: string, b: string)
    requires a != "" && b != "" && !IsSeparator(a[0]) && !IsSeparator(b[|b| - 1])
    requires IsLowerOrDigit(a[|a| - 1]) && IsUpperLetter(b[0])
    ensures ToSnakeCase(a + b) == ToSnakeCase(a) + "_" + ToSnakeCase(b)
  {
    BrokenAtHump(a, b);
    Untrimmed(a + b);
    Untrimmed(a);
    Untrimmed(b);
    LoweredApart(Broken(a), Broken(b));
  }

  lemma LowerAppend(a: string, b: string)
    ensures Lower(a + b) == Lower(a) + Lower(b)
  {
  }

  // ---------------------------------------------------------------- semantic ids

  const LEGACY_TERM_MAP: map<string, string> := map["cif_id" := "client_id", "booking_center" := "booking_center_code"]

  const AMBIGUOUS_LEAF_TERMS := {"state", "status", "reason", "type", "metric_unit_semantics"}

  /** A row of a contextual table: what the context is compared with, the leaf, and the term. */
  datatype Row = Row(context: string, leaf: string, term: string)

  const BY_PATH_SUFFIX := [
    Row("products[].dependency_signals[].status", "status", "trust_dependency_status"),
    Row("metadata.calculation_supportability.state", "state", "calculation_supportability_state"),
    Row("metadata.calculation_supportability.reason", "reason", "calculation_supportability_reason"),
    Row("metadata.risk_free_context.reason", "reason", "risk_free_context_reason"),
    Row("period.type", "type", "period_type"),
    Row("periods[].type", "type", "period_type")
  ]

  const BY_SCHEMA := [
    Row("RollingMetadata", "metric_unit_semantics", "rolling_metric_unit_semantics"),
    Row("HistoricalAttributionMetadata", "metric_unit_semantics", "attribution_metric_unit_semantics"),
    Row("HealthResponse", "status", "health_status"),
    Row("LivenessResponse", "status", "liveness_status"),
    Row("ReadinessResponse", "status", "readiness_status"),
    Row("DependencyStatus", "status", "dependency_runtime_status"),
    Row("OpsResponse", "status", "ops_status")
  ]

  /** replace("[]", "") */
  function WithoutBrackets(s: string): string {
    if s == "" then ""
    else if |s| >= 2 && s[0] == '[' && s[1] == ']' then WithoutBrackets(s[2..])
    else [s[0]] + WithoutBrackets(s[1..])
  }

  function Base(name: string): string {
    var parts := Split(name, '.');
    ToSnakeCase(WithoutBrackets(parts[|parts| - 1]))
  }

  function Modern(term: string, legacy: map<string, string>): string {
    if term in legacy then legacy[term] else term
  }

  function CanonicalTerm(name: string): string {
    Modern(Base(name), LEGACY_TERM_MAP)
  }

  /** The term of the first row that applies. */
  function FirstTerm(rows: seq<Row>, applies: Row -> bool): Option<string> {
    if rows == [] then None
    else if applies(rows[0]) then Some(rows[0].term)
    else FirstTerm(rows[1..], applies)
  }

  function SuffixApplies(fieldName: string, leaf: string): Row -> bool {
    (row: Row) => leaf == row.leaf && EndsWith(fieldName, row.context)
  }

  function SchemaApplies(context: Option<string>, leaf: string): Row -> bool {
    (row: Row) => context == Some(row.context) && leaf == row.leaf
  }

  /** The term of a leaf in its context, over any tables. */
  function Contextual(
      leaf: string, ambiguous: set<string>, byPath: seq<Row>, bySchema: seq<Row>, fieldName: string,
      context: Option<string>)
    : string
  {
    if leaf !in ambiguous then leaf
    else
      match FirstTerm(byPath, SuffixApplies(fieldName, leaf))
      case Some(term) => term
      case None =>
        match FirstTerm(bySchema, SchemaApplies(context, leaf))
        case Some(term) => term
        case None => leaf
  }

  function SemanticTerm(fieldName: string, propName: string, context: Option<string>): string {
    Contextual(CanonicalTerm(propName), AMBIGUOUS_LEAF_TERMS, BY_PATH_SUFFIX, BY_SCHEMA, fieldName, context)
  }

  const ID_PREFIX := "lotus."

  /** replace("_", " ") */
  function Readable(term: string): string {
    seq(|term|, i requires 0 <= i < |term| => if term[i] == '_' then ' ' else term[i])
  }

  function FallbackDescription(name: string): string {
    "Canonical " + Readable(CanonicalTerm(name)) + " used by lotus-risk APIs."
  }

  predicate HasEnumeration(schema: Schema) {
    schema.notes.enumeration.List? && schema.notes.enumeration.items != []
  }

  function FallbackExample(name: string, schema: Schema): Json {
    if HasEnumeration(schema) then schema.notes.enumeration.items[0]
    else if schema.notes.format == Str("date") then Str("2025-03-31")
    else if schema.notes.format == Str("date-time") then Str("2025-03-31T00:00:00Z")
    else if EndsWith(CanonicalTerm(name), "_id") then Str("ENTITY_001")
    else if EndsWith(CanonicalTerm(name), "_date") then Str("2025-03-31")
    else ExampleOfType(schema.typ)
  }

  function ExampleOfType(typ: Option<string>): Json {
    if typ == Some("boolean") then Bool(true)
    else if typ == Some("integer") then Int(1)
    else if typ == Some("number") then Float(0.1)
    else if typ == Some("array") then List([Str("VALUE")])
    else if typ == Some("object") then Obj(map["key" := Str("value")])
    else Str("STANDARD_VALUE")
  }

  /** The naming rules for the fields of a body. */
  function BodyNaming(): Naming {
    Naming(
      (fieldName, propName, context) => ID_PREFIX + SemanticTerm(fieldName, propName, context),
      Describe(),
      (fieldName, schema) => FallbackExample(fieldName, schema))
  }

  function Describe(): string -> string {
    name => FallbackDescription(name)
  }

  /** removeprefix("lotus.") */
  function TermOf(id: string): string {
    if ID_PREFIX <= id then id[|ID_PREFIX|..] else id
  }

  /** The field's id comes from the naming rule: of a parameter, or of a body field. */
  ghost predicate Named(f: Field) {
    || f.semanticId == ID_PREFIX + CanonicalTerm(f.name)
    || exists propName, context :: f.semanticId == ID_PREFIX + SemanticTerm(f.name, propName, context)
  }

  // ---------------------------------------------------------------- which term a field gets

  lemma {:induction false} NoBracketsNothingLost(s: string)
    requires '[' !in s
    ensures WithoutBrackets(s) == s
  {
    if s != "" {
      assert s[0] in s;
      NoBracketsNothingLost(s[1..]);
      assert s == [s[0]] + s[1..];
    }
  }

  lemma {:induction false} FinalBracketsLost(s: string)
    requires '[' !in s
    ensures WithoutBrackets(s + "[]") == s
  {
    var more := s + "[]";
    if s == "" {
      assert more == "[]" && more[2..] == "";
    } else {
      assert s[0] in s && more[0] == s[0] && more[1..] == s[1..] + "[]";
      FinalBracketsLost(s[1..]);
      assert s == [s[0]] + s[1..];
    }
  }

  lemma LastPart(before: string, leaf: string)
    requires '.' !in leaf
    ensures var parts := Split(before + "." + leaf, '.'); parts[|parts| - 1] == leaf
  {
    assert before + "." + leaf == before + ['.'] + leaf;
    SplitAppend(before, '.', leaf);
    SplitPlain(leaf, '.');
  }

  lemma BaseOfPath(before: string, leaf: string)
    requires '.' !in leaf && '[' !in leaf
    ensures Base(before + "." + leaf) == ToSnakeCase(leaf)
  {
    LastPart(before, leaf);
    NoBracketsNothingLost(leaf);
  }

  lemma BaseOfLeaf(leaf: string)
    requires '.' !in leaf && '[' !in leaf
    ensures Base(leaf) == ToSnakeCase(leaf) && Base(leaf + "[]") == ToSnakeCase(leaf)
  {
    SplitPlain(leaf, '.');
    SplitPlain(leaf + "[]", '.');
    NoBracketsNothingLost(leaf);
    FinalBracketsLost(leaf);
  }

  /** The term of a path is that of its last segment, and list brackets do not count; it is the
      segment in snake case, but for the two legacy terms. */
  lemma CanonicalTermOfPath(before: string, leaf: string)
    requires '.' !in leaf && '[' !in leaf
    ensures CanonicalTerm(before + "." + leaf) == CanonicalTerm(leaf) == CanonicalTerm(leaf + "[]")
    ensures CanonicalTerm(leaf)
         == if ToSnakeCase(leaf) == "cif_id" then "client_id"
            else if ToSnakeCase(leaf) == "booking_center" then "booking_center_code"
            else ToSnakeCase(leaf)
  {
    BaseOfPath(before, leaf);
    BaseOfLeaf(leaf);
  }

  /** The row is the first that applies. */
  ghost predicate FirstRow(rows: seq<Row>, applies: Row -> bool, i: nat) {
    i < |rows| && applies(rows[i]) && forall j | 0 <= j < i :: !applies(rows[j])
  }

  lemma {:induction false} FirstTermExactly(rows: seq<Row>, applies: Row -> bool)
    ensures match FirstTerm(rows, applies)
            case None => forall i | 0 <= i < |rows| :: !applies(rows[i])
            case Some(term) => exists i: nat :: FirstRow(rows, applies, i) && rows[i].term == term
  {
    if rows != [] {
      FirstTermExactly(rows[1..], applies);
      if applies(rows[0]) {
        assert FirstRow(rows, applies, 0);
      } else if FirstTerm(rows, applies).Some? {
        var i: nat :| FirstRow(rows[1..], applies, i) && rows[1..][i].term == FirstTerm(rows, applies).value;
        assert FirstRow(rows, applies, i + 1);
      } else {
        assert forall i | 0 < i < |rows| :: rows[i] == rows[1..][i - 1];
      }
    }
  }

  /** The term comes from the first row that applies. */
  ghost predicate FromRow(rows: seq<Row>, applies: Row -> bool, term: string) {
    exists i: nat :: FirstRow(rows, applies, i) && rows[i].term == term
  }

  ghost predicate NoRow(rows: seq<Row>, applies: Row -> bool) {
    forall i | 0 <= i < |rows| :: !applies(rows[i])
  }

  /** Which term a field gets: its own if it is unambiguous; then that of the first row whose path
      suffix its name ends in; then that of its schema's row; then its own. */
  lemma ContextualExactly(
      leaf: string, ambiguous: set<string>, byPath: seq<Row>, bySchema: seq<Row>, fieldName: string,
      context: Option<string>)
    ensures var term := Contextual(leaf, ambiguous, byPath, bySchema, fieldName, context);
            var onPath, onSchema := SuffixApplies(fieldName, leaf), SchemaApplies(context, leaf);
            if leaf !in ambiguous then term == leaf
            else
              || FromRow(byPath, onPath, term)
              || (NoRow(byPath, onPath) && FromRow(bySchema, onSchema, term))
              || (NoRow(byPath, onPath) && NoRow(bySchema, onSchema) && term == leaf)
  {
    FirstTermExactly(byPath, SuffixApplies(fieldName, leaf));
    FirstTermExactly(bySchema, SchemaApplies(context, leaf));
  }

  // ---------------------------------------------------------------- no id is a legacy one

  ghost predicate NoLegacyTerm(rows: seq<Row>, legacy: map<string, string>) {
    forall i | 0 <= i < |rows| :: rows[i].term !in legacy
  }

  lemma {:induction false} FirstTermIsListed(rows: seq<Row>, applies: Row -> bool)
    requires FirstTerm(rows, applies).Some?
    ensures exists i :: 0 <= i < |rows| && rows[i].term == FirstTerm(rows, applies).value
  {
    if !applies(rows[0]) {
      FirstTermIsListed(rows[1..], applies);
      var i :| 0 <= i < |rows[1..]| && rows[1..][i].term == FirstTerm(rows, applies).value;
      assert rows[i + 1].term == FirstTerm(rows, applies).value;
    }
  }

  lemma ContextualIsModern(
      leaf: string, ambiguous: set<string>, byPath: seq<Row>, bySchema: seq<Row>, fieldName: string,
      context: Option<string>, legacy: map<string, string>)
    requires leaf !in legacy && NoLegacyTerm(byPath, legacy) && NoLegacyTerm(bySchema, legacy)
    ensures Contextual(leaf, ambiguous, byPath, bySchema, fieldName, context) !in legacy
  {
    if FirstTerm(byPath, SuffixApplies(fieldName, leaf)).Some? {
      FirstTermIsListed(byPath, SuffixApplies(fieldName, leaf));
    }
    if FirstTerm(bySchema, SchemaApplies(context, leaf)).Some? {
      FirstTermIsListed(bySchema, SchemaApplies(context, leaf));
    }
  }

  lemma LegacyByLength(term: string)
    requires |term| != 6 && |term| != 14
    ensures term !in LEGACY_TERM_MAP
  {
    assert |"cif_id"| == 6 && |"booking_center"| == 14;
  }

  /** The legacy map leads out of itself. */
  lemma CanonicalIsModern(name: string)
    ensures CanonicalTerm(name) !in LEGACY_TERM_MAP
  {
    LegacyByLength("client_id");
    LegacyByLength("booking_center_code");
  }

  lemma TablesAreModern()
    ensures NoLegacyTerm(BY_PATH_SUFFIX, LEGACY_TERM_MAP) && NoLegacyTerm(BY_SCHEMA, LEGACY_TERM_MAP)
  {
    forall i | 0 <= i < |BY_PATH_SUFFIX| ensures BY_PATH_SUFFIX[i].term !in LEGACY_TERM_MAP {
      LegacyByLength(BY_PATH_SUFFIX[i].term);
    }
    forall i | 0 <= i < |BY_SCHEMA| ensures BY_SCHEMA[i].term !in LEGACY_TERM_MAP {
      LegacyByLength(BY_SCHEMA[i].term);
    }
  }

  /** Whatever the names are, no field gets a legacy term. */
  lemma NamedIsModern(f: Field)
    requires Named(f)
    ensures f.semanticId != "" && TermOf(f.semanticId) !in LEGACY_TERM_MAP
  {
    if f.semanticId == ID_PREFIX + CanonicalTerm(f.name) {
      CanonicalIsModern(f.name);
      assert TermOf(f.semanticId) == CanonicalTerm(f.name);
    } else {
      var propName, context :| f.semanticId == ID_PREFIX + SemanticTerm(f.name, propName, context);
      CanonicalIsModern(propName);
      TablesAreModern();
      ContextualIsModern(
        CanonicalTerm(propName), AMBIGUOUS_LEAF_TERMS, BY_PATH_SUFFIX, BY_SCHEMA, f.name, context, LEGACY_TERM_MAP);
      assert TermOf(f.semanticId) == SemanticTerm(f.name, propName, context);
    }
  }

  /** Every field of a walk is named by the rule the walk is given. */
  lemma {:induction false} WalkNames(
      schema: Schema, components: Components, prefix: string, context: Option<string>, naming: Naming, depth: nat)
    requires ExtractFields(schema, components, prefix, context, naming, depth).Some?
    ensures forall f | f in ExtractFields(schema, components, prefix, context, naming, depth).value ::
              NamedBy(naming, f)
    decreases depth, 0, 0
  {
    var resolved := Resolve(schema, components);
    WalkNamesAll(
      resolved.properties, resolved.required, components, prefix, ContextOf(schema, context), naming, depth - 1);
  }

  ghost predicate NamedBy(naming: Naming, f: Field) {
    exists propName, context :: f.semanticId == naming.id(f.name, propName, context)
  }

  lemma {:induction false} WalkNamesAll(
      properties: seq<Property>, required: set<string>, components: Components, prefix: string, context: Option<string>,
      naming: Naming, depth: nat)
    requires ExtractAll(properties, required, components, prefix, context, naming, depth).Some?
    ensures forall f | f in ExtractAll(properties, required, components, prefix, context, naming, depth).value ::
              NamedBy(naming, f)
    decreases depth, 2, |properties|
  {
    if properties != [] {
      WalkNamesAll(properties[..|properties| - 1], required, components, prefix, context, naming, depth);
      WalkNamesOne(properties[|properties| - 1], required, components, prefix, context, naming, depth);
    }
  }

  lemma {:induction false} WalkNamesOne(
      property: Property, required: set<string>, components: Components, prefix: string, context: Option<string>,
      naming: Naming, depth: nat)
    requires ExtractOne(property, required, components, prefix, context, naming, depth).Some?
    ensures forall f | f in ExtractOne(property, required, components, prefix, context, naming, depth).value ::
              NamedBy(naming, f)
    decreases depth, 1, 0
  {
    if property.schema.Some? {
      var schema, name := property.schema.value, Joined(prefix, property.name);
      var own := OwnField(schema, Resolve(schema, components), property.name, name, required, context, naming);
      assert own.semanticId == naming.id(own.name, property.name, context);
      if NestOf(schema, components).Some? {
        var nest := NestOf(schema, components).value;
        WalkNames(nest.schema, components, name + nest.suffix, ContextOf(nest.schema, context), naming, depth);
      }
    }
  }

  /** The fields of a body walked under the naming rule are named by it. */
  lemma BodyFieldsNamed(schema: Schema, components: Components, depth: nat)
    requires ExtractFields(schema, components, "", None, BodyNaming(), depth).Some?
    ensures forall f | f in ExtractFields(schema, components, "", None, BodyNaming(), depth).value :: Named(f)
  {
    WalkNames(schema, components, "", None, BodyNaming(), depth);
  }

  // ---------------------------------------------------------------- the validation

  /** A catalog entry; fieldPaths is None when it is no list. */
  datatype Entry = Entry(
    semanticId: string, canonicalTerm: string, preferredName: string, fieldPaths: Option<seq<string>>, example: Json)

  datatype Error =
    | MissingSemanticId
    | DuplicateSemanticId(id: string)
    | TermMismatch(id: string)
    | NotSnakeCase(id: string)
    | LegacyTerm(id: string)
    | AmbiguousId(id: string, paths: seq<string>)
    | PlaceholderExample(id: string)
    | MetadataDuplicated(key: string, field: Dict)
    | FieldWithoutId(field: Dict)
    | FieldWithoutRef(field: Dict)

  const PLACEHOLDER_EXAMPLES := {"example", "sample", "string", "value", "test", "foo", "bar", "baz", "placeholder"}

  const FORBIDDEN_KEYS := ["description", "example", "canonicalTerm", "preferredName"]

  predicate IsPlaceholder(example: Json) {
    match example
    case Str(text) => Lower(Strip(text)) in PLACEHOLDER_EXAMPLES
    case List(items) => items != [] && items[0].Str? && Lower(Strip(items[0].text)) in PLACEHOLDER_EXAMPLES
    case _ => false
  }

  lemma StripNothing(text: string)
    requires text != "" && !IsSpace(text[0]) && !IsSpace(text[|text| - 1])
    ensures Strip(text) == text
  {
  }

  /** No placeholder has ten letters, or more than eleven. */
  lemma LongIsNoPlaceholder(text: string)
    requires |text| >= 10 && |text| != 11 && !IsSpace(text[0]) && !IsSpace(text[|text| - 1])
    ensures !IsPlaceholder(Str(text))
  {
    StripNothing(text);
    assert forall word | word in PLACEHOLDER_EXAMPLES :: |word| < 10 || |word| == 11;
  }

  lemma ValueIsPlaceholder()
    ensures IsPlaceholder(List([Str("VALUE")]))
  {
    StripNothing("VALUE");
    assert Lower("VALUE") == "value";
  }

  /** The fallback example is itself one of the refused placeholders exactly for a list that is
      told apart by neither an enumeration, nor a date format, nor its name; and for an
      enumeration that begins with a placeholder. */
  lemma FallbackPlaceholderExactly(name: string, schema: Schema)
    ensures IsPlaceholder(FallbackExample(name, schema))
       <==> if HasEnumeration(schema) then IsPlaceholder(schema.notes.enumeration.items[0])
            else && schema.typ == Some("array")
                 && schema.notes.format != Str("date") && schema.notes.format != Str("date-time")
                 && !EndsWith(CanonicalTerm(name), "_id") && !EndsWith(CanonicalTerm(name), "_date")
  {
    LongIsNoPlaceholder("2025-03-31");
    LongIsNoPlaceholder("2025-03-31T00:00:00Z");
    LongIsNoPlaceholder("ENTITY_001");
    TypePlaceholderExactly(schema.typ);
  }

  lemma TypePlaceholderExactly(typ: Option<string>)
    ensures IsPlaceholder(ExampleOfType(typ)) <==> typ == Some("array")
  {
    ValueIsPlaceholder();
    LongIsNoPlaceholder("STANDARD_VALUE");
  }

  predicate SpansPaths(e: Entry) {
    e.canonicalTerm in AMBIGUOUS_LEAF_TERMS && e.fieldPaths.Some? && |e.fieldPaths.value| > 1
  }

  function When(condition: bool, error: Error): seq<Error> {
    if condition then [error] else []
  }

  /** The errors of one entry, after the ids seen before it. */
  function EntryErrors(seen: set<string>, e: Entry): seq<Error> {
    var id := e.semanticId;
    if id == "" then [MissingSemanticId]
    else
      When(id in seen, DuplicateSemanticId(id))
      + When(e.canonicalTerm != e.preferredName, TermMismatch(id))
      + When(!IsSnakeCase(e.canonicalTerm), NotSnakeCase(id))
      + When(e.canonicalTerm in LEGACY_TERM_MAP, LegacyTerm(id))
      + (if SpansPaths(e) then [AmbiguousId(id, e.fieldPaths.value)] else [])
      + When(IsPlaceholder(e.example), PlaceholderExample(id))
  }

  function Ids(entries: seq<Entry>): set<string> {
    set i | 0 <= i < |entries| && entries[i].semanticId != "" :: entries[i].semanticId
  }

  type EntryCheck = (set<string>, Entry) -> seq<Error>

  type FieldCheck = Dict -> seq<Error>

  function EntryChecker(): EntryCheck {
    (seen, e) => EntryErrors(seen, e)
  }

  /** The errors of the entries one after the other. */
  function CatalogErrors(entries: seq<Entry>, check: EntryCheck): seq<Error> {
    if entries == [] then []
    else
      var init := entries[..|entries| - 1];
      CatalogErrors(init, check) + check(Ids(init), entries[|entries| - 1])
  }

  function KeyErrors(field: Dict, keys: seq<string>): seq<Error> {
    if keys == [] then []
    else
      var last := keys[|keys| - 1];
      KeyErrors(field, keys[..|keys| - 1]) + When(last in field, MetadataDuplicated(last, field))
  }

  function FieldErrors(field: Dict, forbidden: seq<string>): seq<Error> {
    KeyErrors(field, forbidden)
    + When(!Truthy(Get(field, "semanticId")), FieldWithoutId(field))
    + When(!Truthy(Get(field, "attributeRef")), FieldWithoutRef(field))
  }

  function FieldChecker(): FieldCheck {
    field => FieldErrors(field, FORBIDDEN_KEYS)
  }

  function EndpointErrors(fields: seq<Dict>, check: FieldCheck): seq<Error> {
    if fields == [] then []
    else EndpointErrors(fields[..|fields| - 1], check) + check(fields[|fields| - 1])
  }

  /** The errors of an inventory: its catalog's entries, then its endpoints' fields, request
      before response, endpoint by endpoint. */
  function InventoryErrors(entries: seq<Entry>, fields: seq<Dict>): seq<Error> {
    CatalogErrors(entries, EntryChecker()) + EndpointErrors(fields, FieldChecker())
  }

  method ValidateEntries(entries: seq<Entry>) returns (errors: seq<Error>)
    ensures errors == CatalogErrors(entries, EntryChecker())
  {
    ghost var check := EntryChecker();
    errors := [];
    var seen: set<string> := {};
    for i := 0 to |entries|
      invariant errors == CatalogErrors(entries[..i], check) && seen == Ids(entries[..i])
    {
      assert entries[..i + 1][..i] == entries[..i];
      errors := errors + EntryErrors(seen, entries[i]);
      IdsSnoc(entries, i);
      if entries[i].semanticId != "" {
        seen := seen + {entries[i].semanticId};
      }
    }
    assert entries[..|entries|] == entries;
  }

  method ValidateFields(fields: seq<Dict>) returns (errors: seq<Error>)
    ensures errors == EndpointErrors(fields, FieldChecker())
  {
    ghost var check := FieldChecker();
    errors := [];
    for i := 0 to |fields|
      invariant errors == EndpointErrors(fields[..i], check)
    {
      assert fields[..i + 1][..i] == fields[..i];
      var more := ValidateField(fields[i], FORBIDDEN_KEYS);
      errors := errors + more;
    }
    assert fields[..|fields|] == fields;
  }

  /** Exactly what an inventory must be for the validation to report nothing. */
  method ValidateInventory(entries: seq<Entry>, fields: seq<Dict>) returns (errors: seq<Error>)
    ensures errors == InventoryErrors(entries, fields)
    ensures errors == [] <==> CleanInventory(entries, fields)
  {
    var first := ValidateEntries(entries);
    var second := ValidateFields(fields);
    errors := first + second;
    CleanCatalogExactly(entries);
    CleanEndpointsExactly(fields);
  }

  /** An entry with an id, one modern snake-case term, no ambiguous spread and no placeholder. */
  predicate CleanEntry(e: Entry) {
    && e.semanticId != "" && e.canonicalTerm == e.preferredName
    && IsSnakeCase(e.canonicalTerm) && e.canonicalTerm !in LEGACY_TERM_MAP
    && !SpansPaths(e) && !IsPlaceholder(e.example)
  }

  /** An endpoint field that refers to its attribute and repeats none of its metadata. */
  predicate CleanField(field: Dict) {
    && (forall i | 0 <= i < |FORBIDDEN_KEYS| :: FORBIDDEN_KEYS[i] !in field)
    && Truthy(Get(field, "semanticId")) && Truthy(Get(field, "attributeRef"))
  }

  /** Distinct ids, clean entries and clean endpoint fields. */
  ghost predicate CleanInventory(entries: seq<Entry>, fields: seq<Dict>) {
    && DistinctIds(entries) && (forall i | 0 <= i < |entries| :: CleanEntry(entries[i]))
    && (forall i | 0 <= i < |fields| :: CleanField(fields[i]))
  }

  ghost predicate DistinctIds(entries: seq<Entry>) {
    forall i, j | 0 <= i < j < |entries| :: entries[i].semanticId != entries[j].semanticId
  }

  function Clean(): Entry -> bool {
    (e: Entry) => CleanEntry(e)
  }

  ghost predicate AllOf<T>(xs: seq<T>, p: T -> bool) {
    forall i | 0 <= i < |xs| :: p(xs[i])
  }

  /** A check that passes exactly the clean entries with a new id. */
  ghost predicate PassesClean(check: EntryCheck, clean: Entry -> bool) {
    && (forall seen: set<string>, e: Entry :: check(seen, e) == [] <==> e.semanticId !in seen && clean(e))
    && (forall e: Entry | clean(e) :: e.semanticId != "")
  }

  lemma EntryCheckerPassesClean()
    ensures PassesClean(EntryChecker(), Clean())
  {
    var check, clean := EntryChecker(), Clean();
    forall seen: set<string>, e: Entry ensures check(seen, e) == [] <==> e.semanticId !in seen && clean(e) {
      EntryCheckedExactly(seen, e);
    }
  }

  lemma EntryCheckedExactly(seen: set<string>, e: Entry)
    ensures EntryErrors(seen, e) == [] <==> e.semanticId !in seen && CleanEntry(e)
  {
  }

  /** Checking each entry against the ids before it finds nothing exactly when all entries are
      clean and no two share an id. */
  lemma {:induction false} CatalogCleanExactly(entries: seq<Entry>, check: EntryCheck, clean: Entry -> bool)
    requires PassesClean(check, clean)
    ensures CatalogErrors(entries, check) == [] <==> DistinctIds(entries) && AllOf(entries, clean)
  {
    if entries != [] {
      var init, last := entries[..|entries| - 1], entries[|entries| - 1];
      CatalogCleanExactly(init, check, clean);
      assert check(Ids(init), last) == [] <==> last.semanticId !in Ids(init) && clean(last);
      assert entries == init + [last];
      AllOfSnoc(init, last, clean);
      if AllOf(init, clean) && clean(last) {
        assert forall i | 0 <= i < |init| :: clean(init[i]);
        assert last.semanticId in Ids(init) <==> exists i :: 0 <= i < |init| && init[i].semanticId == last.semanticId;
      }
    }
  }

  lemma AllOfSnoc<T>(xs: seq<T>, x: T, p: T -> bool)
    ensures AllOf(xs + [x], p) <==> AllOf(xs, p) && p(x)
  {
    assert (xs + [x])[|xs|] == x;
    assert forall i | 0 <= i < |xs| :: (xs + [x])[i] == xs[i];
  }

  lemma CleanCatalogExactly(entries: seq<Entry>)
    ensures CatalogErrors(entries, EntryChecker()) == []
       <==> DistinctIds(entries) && forall i | 0 <= i < |entries| :: CleanEntry(entries[i])
  {
    var clean := Clean();
    EntryCheckerPassesClean();
    CatalogCleanExactly(entries, EntryChecker(), clean);
    assert forall i | 0 <= i < |entries| :: clean(entries[i]) == CleanEntry(entries[i]);
  }

  lemma {:induction false} KeyErrorsExactly(field: Dict, keys: seq<string>)
    ensures KeyErrors(field, keys) == [] <==> forall i | 0 <= i < |keys| :: keys[i] !in field
  {
    if keys != [] {
      KeyErrorsExactly(field, keys[..|keys| - 1]);
    }
  }

  lemma {:induction false} EndpointsExactly(fields: seq<Dict>, check: FieldCheck)
    ensures EndpointErrors(fields, check) == [] <==> forall i | 0 <= i < |fields| :: check(fields[i]) == []
  {
    if fields != [] {
      EndpointsExactly(fields[..|fields| - 1], check);
      assert fields == fields[..|fields| - 1] + [fields[|fields| - 1]];
    }
  }

  lemma FieldCheckedExactly(field: Dict)
    ensures FieldErrors(field, FORBIDDEN_KEYS) == [] <==> CleanField(field)
  {
    KeyErrorsExactly(field, FORBIDDEN_KEYS);
  }

  lemma CleanEndpointsExactly(fields: seq<Dict>)
    ensures EndpointErrors(fields, FieldChecker()) == [] <==> forall i | 0 <= i < |fields| :: CleanField(fields[i])
  {
    var check := FieldChecker();
    EndpointsExactly(fields, check);
    forall i | 0 <= i < |fields| ensures check(fields[i]) == [] <==> CleanField(fields[i]) {
      FieldCheckedExactly(fields[i]);
    }
  }

  method ValidateField(field: Dict, forbidden: seq<string>) returns (errors: seq<Error>)
    ensures errors == FieldErrors(field, forbidden)
  {
    errors := [];
    for i := 0 to |forbidden|
      invariant errors == KeyErrors(field, forbidden[..i])
    {
      assert forbidden[..i + 1][..i] == forbidden[..i];
      errors := errors + When(forbidden[i] in field, MetadataDuplicated(forbidden[i], field));
    }
    assert forbidden[..|forbidden|] == forbidden;
    errors := errors + When(!Truthy(Get(field, "semanticId")), FieldWithoutId(field))
              + When(!Truthy(Get(field, "attributeRef")), FieldWithoutRef(field));
  }

  lemma IdsSnoc(entries: seq<Entry>, n: nat)
    requires n < |entries|
    ensures Ids(entries[..n + 1])
         == Ids(entries[..n]) + if entries[n].semanticId == "" then {} else {entries[n].semanticId}
  {
    var more := entries[..n + 1];
    assert more[n] == entries[n];
    assert forall i | 0 <= i < n :: more[i] == entries[..n][i];
  }

  // ---------------------------------------------------------------- building against validating

  function EntryOf(a: Attribute): Entry {
    Entry(a.semanticId, TermOf(a.semanticId), TermOf(a.semanticId), Some(a.fieldPaths), a.example)
  }

  function EntriesOf(attributes: seq<Attribute>): seq<Entry> {
    seq(|attributes|, i requires 0 <= i < |attributes| => EntryOf(attributes[i]))
  }

  function EndpointField(f: Field): Dict {
    map["name" := Str(f.name), "location" := Str(f.location), "required" := Bool(f.required), "type" := Str(f.typ),
        "semanticId" := Str(f.semanticId), "attributeRef" := Str("#/attributeCatalog/" + f.semanticId)]
  }

  function EndpointFields(fields: seq<Field>): seq<Dict> {
    seq(|fields|, i requires 0 <= i < |fields| => EndpointField(fields[i]))
  }

  /** What validation asks of a field of a built inventory. */
  ghost predicate Passes(fields: seq<Field>, f: Field) {
    && IsSnakeCase(TermOf(f.semanticId))
    && (TermOf(f.semanticId) in AMBIGUOUS_LEAF_TERMS ==>
          forall g | g in fields && g.semanticId == f.semanticId :: g.name == f.name)
    && !IsPlaceholder(FirstExample(fields, f.semanticId))
  }

  /** The example of the first field with the id. */
  function FirstExample(fields: seq<Field>, id: string): Json {
    if WithId(fields, id) == [] then Null else WithId(fields, id)[0].example
  }

  /** The only errors a built inventory can have. */
  predicate Possible(e: Error) {
    e.NotSnakeCase? || e.AmbiguousId? || e.PlaceholderExample?
  }

  lemma EndpointFieldKeys(f: Field, key: string)
    requires |key| in {7, 11, 13}
    ensures key !in EndpointField(f)
  {
    assert |"name"| == 4 && |"location"| == 8 && |"required"| == 8 && |"type"| == 4;
    assert |"semanticId"| == 10 && |"attributeRef"| == 12;
  }

  lemma EndpointFieldClean(f: Field)
    requires f.semanticId != ""
    ensures CleanField(EndpointField(f))
  {
    forall i | 0 <= i < |FORBIDDEN_KEYS| ensures FORBIDDEN_KEYS[i] !in EndpointField(f) {
      EndpointFieldKeys(f, FORBIDDEN_KEYS[i]);
    }
    assert |"#/attributeCatalog/"| > 0;
  }

  /** The endpoints of a built inventory are always in order. */
  lemma EndpointsFine(fields: seq<Field>)
    requires forall f | f in fields :: f.semanticId != ""
    ensures EndpointErrors(EndpointFields(fields), FieldChecker()) == []
  {
    forall i | 0 <= i < |fields| ensures CleanField(EndpointField(fields[i])) {
      EndpointFieldClean(fields[i]);
    }
    CleanEndpointsExactly(EndpointFields(fields));
  }

  /** A built entry is in order when its term is, it keeps to one path where it must, and its
      example is none of the placeholders. */
  predicate EntryFine(e: Entry) {
    IsSnakeCase(e.canonicalTerm) && !SpansPaths(e) && !IsPlaceholder(e.example)
  }

  lemma EntryErrorsExactly(seen: set<string>, e: Entry)
    requires e.semanticId !in seen && EntryWellBuilt(e)
    ensures Tells(EntryErrors(seen, e), EntryFine(e))
  {
  }

  /** There are no errors exactly in the fine case, and none but the possible ones. */
  ghost predicate Tells(errors: seq<Error>, fine: bool) {
    (errors == [] <==> fine) && forall x | x in errors :: Possible(x)
  }

  predicate EntryWellBuilt(e: Entry) {
    e.semanticId != "" && e.canonicalTerm == e.preferredName && e.canonicalTerm !in LEGACY_TERM_MAP
  }

  /** What an entry check says of well-built entries with a new id. */
  ghost predicate Decides(check: EntryCheck, fine: Entry -> bool, good: Entry -> bool) {
    forall seen: set<string>, e: Entry | e.semanticId !in seen && good(e) ::
      Tells(check(seen, e), fine(e))
  }

  function WellBuilt(): Entry -> bool {
    (e: Entry) => EntryWellBuilt(e)
  }

  function Fine(): Entry -> bool {
    (e: Entry) => EntryFine(e)
  }

  lemma CheckerDecides()
    ensures Decides(EntryChecker(), Fine(), WellBuilt())
  {
    var check, fine, good := EntryChecker(), Fine(), WellBuilt();
    forall seen: set<string>, e: Entry | e.semanticId !in seen && good(e) ensures Tells(check(seen, e), fine(e)) {
      EntryErrorsExactly(seen, e);
    }
  }

  lemma {:induction false} CatalogErrorsExactly(
      entries: seq<Entry>, check: EntryCheck, fine: Entry -> bool, good: Entry -> bool)
    requires Decides(check, fine, good)
    requires DistinctIds(entries) && AllOf(entries, good)
    ensures Tells(CatalogErrors(entries, check), AllOf(entries, fine))
  {
    if entries != [] {
      var init, last := entries[..|entries| - 1], entries[|entries| - 1];
      CatalogErrorsExactly(init, check, fine, good);
      assert last.semanticId !in Ids(init);
      assert good(last);
    }
  }

  lemma {:induction false} WithIdMembers(fields: seq<Field>, id: string)
    ensures forall f :: f in WithId(fields, id) <==> f in fields && f.semanticId == id
  {
    if fields != [] {
      WithIdMembers(fields[..|fields| - 1], id);
      assert fields == fields[..|fields| - 1] + [fields[|fields| - 1]];
    }
  }

  lemma FewFirstOccurrences(xs: seq<string>, x: string)
    requires x in xs
    ensures |FirstOccurrences(xs)| <= 1 <==> forall y | y in xs :: y == x
  {
    var ds := FirstOccurrences(xs);
    FirstOccurrencesInOrder(xs);
    if |ds| > 1 {
      assert ds[0] in ds && ds[1] in ds && ds[0] != ds[1];
    }
  }

  lemma GroupNames(fields: seq<Field>, id: string, name: string)
    ensures name in ColumnValues(WithId(fields, id), NameColumn)
       <==> exists g :: g in fields && g.semanticId == id && g.name == name
  {
    var group := WithId(fields, id);
    var names := ColumnValues(group, NameColumn);
    WithIdMembers(fields, id);
    if name in names {
      var k :| 0 <= k < |names| && names[k] == name;
      assert group[k] in group;
    }
    if g :| g in fields && g.semanticId == id && g.name == name {
      var k :| 0 <= k < |group| && group[k] == g;
      assert names[k] == name;
    }
  }

  /** An id has one path exactly when all its fields have one name. */
  lemma OnePathExactly(fields: seq<Field>, f: Field, describe: string -> string)
    requires f in fields && WithId(fields, f.semanticId) != []
    ensures |Group(fields, f.semanticId, describe).fieldPaths| <= 1
       <==> forall g | g in fields && g.semanticId == f.semanticId :: g.name == f.name
  {
    var names := ColumnValues(WithId(fields, f.semanticId), NameColumn);
    forall name ensures name in names <==> exists g :: g in fields && g.semanticId == f.semanticId && g.name == name {
      GroupNames(fields, f.semanticId, name);
    }
    FewFirstOccurrences(names, f.name);
    if forall g | g in fields && g.semanticId == f.semanticId :: g.name == f.name {
      assert forall name | name in names :: name == f.name;
    } else {
      var g :| g in fields && g.semanticId == f.semanticId && g.name != f.name;
      assert g.name in names;
    }
  }

  /** The attributes of a group-by, each once. */
  ghost predicate Lists(attributes: seq<Attribute>, catalog: map<string, Attribute>) {
    && (forall i, j | 0 <= i < j < |attributes| :: attributes[i].semanticId != attributes[j].semanticId)
    && (forall a :: a in attributes <==> a.semanticId in catalog && catalog[a.semanticId] == a)
  }

  lemma EntryFineExactly(fields: seq<Field>, f: Field, describe: string -> string)
    requires f in fields && WithId(fields, f.semanticId) != []
    ensures EntryFine(EntryOf(Group(fields, f.semanticId, describe))) <==> Passes(fields, f)
  {
    WithIdMembers(fields, f.semanticId);
    assert WithId(fields, f.semanticId)[0] in WithId(fields, f.semanticId);
    OnePathExactly(fields, f, describe);
  }

  lemma AttributeHasField(fields: seq<Field>, catalog: map<string, Attribute>, a: Attribute, describe: string -> string)
    requires IsGroupBy(catalog, fields, describe) && a.semanticId in catalog && catalog[a.semanticId] == a
    ensures exists f :: f in fields && f.semanticId == a.semanticId
  {
    assert GroupedAt(catalog, fields, a.semanticId, describe);
    WithIdMembers(fields, a.semanticId);
    assert WithId(fields, a.semanticId)[0] in WithId(fields, a.semanticId);
  }

  lemma BuiltEntriesWellBuilt(
      fields: seq<Field>, catalog: map<string, Attribute>, attributes: seq<Attribute>, describe: string -> string)
    requires IsGroupBy(catalog, fields, describe) && Lists(attributes, catalog) && forall f | f in fields :: Named(f)
    ensures var entries := EntriesOf(attributes);
            DistinctIds(entries) && AllOf(entries, WellBuilt())
  {
    forall i | 0 <= i < |attributes| ensures EntryWellBuilt(EntryOf(attributes[i])) {
      assert attributes[i] in attributes;
      AttributeHasField(fields, catalog, attributes[i], describe);
      var f :| f in fields && f.semanticId == attributes[i].semanticId;
      NamedIsModern(f);
    }
  }

  lemma NamedIdsNotEmpty(fields: seq<Field>)
    requires forall f | f in fields :: Named(f)
    ensures forall f | f in fields :: f.semanticId != ""
  {
    forall f | f in fields ensures f.semanticId != "" {
      NamedIsModern(f);
    }
  }

  /** A built inventory passes exactly when every field does. */
  lemma BuiltInventoryPassesExactly(
      fields: seq<Field>, catalog: map<string, Attribute>, attributes: seq<Attribute>, describe: string -> string)
    requires IsGroupBy(catalog, fields, describe) && Lists(attributes, catalog) && forall f | f in fields :: Named(f)
    ensures var errors := InventoryErrors(EntriesOf(attributes), EndpointFields(fields));
            && (errors == [] <==> forall f | f in fields :: Passes(fields, f))
            && forall x | x in errors :: Possible(x)
  {
    BuiltEntriesWellBuilt(fields, catalog, attributes, describe);
    CheckerDecides();
    CatalogErrorsExactly(EntriesOf(attributes), EntryChecker(), Fine(), WellBuilt());
    EntriesFineExactly(fields, catalog, attributes, describe);
    NamedIdsNotEmpty(fields);
    EndpointsFine(fields);
  }

  lemma FieldFineExactly(fields: seq<Field>, catalog: map<string, Attribute>, f: Field, describe: string -> string)
    requires IsGroupBy(catalog, fields, describe) && f in fields
    ensures f.semanticId in catalog && (EntryFine(EntryOf(catalog[f.semanticId])) <==> Passes(fields, f))
  {
    assert GroupedAt(catalog, fields, f.semanticId, describe);
    FieldHasGroup(fields, f);
    EntryFineExactly(fields, f, describe);
  }

  lemma EntriesFineExactly(
      fields: seq<Field>, catalog: map<string, Attribute>, attributes: seq<Attribute>, describe: string -> string)
    requires IsGroupBy(catalog, fields, describe) && Lists(attributes, catalog)
    ensures AllOf(EntriesOf(attributes), Fine()) <==> forall f | f in fields :: Passes(fields, f)
  {
    var entries, fine := EntriesOf(attributes), Fine();
    if AllOf(entries, fine) {
      forall f | f in fields ensures Passes(fields, f) {
        FieldFineExactly(fields, catalog, f, describe);
        GroupIds(fields, catalog, describe);
        var i := AttributeListed(attributes, catalog, f.semanticId);
        assert fine(entries[i]);
      }
    }
    if forall f | f in fields :: Passes(fields, f) {
      forall i | 0 <= i < |attributes| ensures fine(entries[i]) {
        assert attributes[i] in attributes;
        AttributeHasField(fields, catalog, attributes[i], describe);
        var f :| f in fields && f.semanticId == attributes[i].semanticId;
        FieldFineExactly(fields, catalog, f, describe);
      }
    }
  }

  lemma AttributeListed(attributes: seq<Attribute>, catalog: map<string, Attribute>, id: string) returns (i: nat)
    requires Lists(attributes, catalog) && id in catalog && catalog[id].semanticId == id
    ensures i < |attributes| && attributes[i] == catalog[id]
  {
    assert catalog[id] in attributes;
    i :| 0 <= i < |attributes| && attributes[i] == catalog[id];
  }

  lemma GroupIds(fields: seq<Field>, catalog: map<string, Attribute>, describe: string -> string)
    requires IsGroupBy(catalog, fields, describe)
    ensures forall id | id in catalog :: catalog[id].semanticId == id
  {
    forall id | id in catalog ensures catalog[id].semanticId == id {
      assert GroupedAt(catalog, fields, id, describe);
      WithIdMembers(fields, id);
      assert WithId(fields, id)[0] in WithId(fields, id);
    }
  }

  lemma FieldHasGroup(fields: seq<Field>, f: Field)
    requires f in fields
    ensures WithId(fields, f.semanticId) != []
  {
    WithIdMembers(fields, f.semanticId);
  }

  /** Build the inventory and validate it: seven of the ten kinds of error cannot occur, and
      there are no errors exactly when every field passes. */
  method BuildAndValidate(operations: seq<Operation>) returns (errors: seq<Error>)
    requires forall f | f in AllFields(operations) :: Named(f)
    ensures errors == [] <==>
              forall f | f in AllFields(operations) :: Passes(AllFields(operations), f)
    ensures forall x | x in errors :: Possible(x)
  {
    var fields := AllFields(operations);
    ghost var describe := Describe();
    ghost var catalog;
    var attributes;
    attributes, catalog := BuildAttributes(operations);
    BuiltInventoryPassesExactly(fields, catalog, attributes, describe);
    errors := ValidateInventory(EntriesOf(attributes), EndpointFields(fields));
  }

  /** The attributes of the built catalog, as they are written. */
  method BuildAttributes(operations: seq<Operation>)
    returns (attributes: seq<Attribute>, ghost catalog: map<string, Attribute>)
    ensures IsGroupBy(catalog, AllFields(operations), Describe()) && Lists(attributes, catalog)
  {
    var built := BuildAttributeCatalog(operations, Describe());
    catalog := built;
    GroupIds(AllFields(operations), catalog, Describe());
    attributes := SortedAttributes(built);
    SortedIsListing(attributes, catalog);
  }

  lemma SortedIsListing(attributes: seq<Attribute>, catalog: map<string, Attribute>)
    requires forall i, j | 0 <= i < j < |attributes| ::
               Ordering.StringLess(attributes[i].semanticId, attributes[j].semanticId)
    requires forall a :: a in attributes <==> a.semanticId in catalog && catalog[a.semanticId] == a
    ensures Lists(attributes, catalog)
  {
    Ordering.StringLessStrictTotal();
  }
}
