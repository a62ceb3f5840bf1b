/** src/app/evidence/idea_opportunity_runtime.py and idea_opportunity_summary_contract.py: the
    builder and the validator of the runtime evidence, which must agree. */
module OpportunityEvidence {
  import opened Values

  // ---------------------------------------------------------------- constants

  const SCHEMA_VERSION := "lotus-risk.idea-opportunity-runtime-evidence.v1"
  const PROOF_FAMILY := "idea_opportunity_archetype_source_evidence"
  const RUNTIME_BOUNDARY := "lotus-risk:http-api"
  const CANONICAL_PORTFOLIO_REF := "canonical-front-office:global_balanced"
  const CANONICAL_PORTFOLIO_ID := "PB_SG_GLOBAL_BAL_001"
  const CANONICAL_AS_OF_DATE := "2026-04-10"

  const REF_KEY := "canonicalPortfolioRef"
  const DIGEST_KEY := "portfolioIdentityDigest"
  const RAW_KEY := "rawPortfolioIdIncluded"

  const OWNER_CLAIM := "officialRiskCalculationOwned"

  /** The claims that are made to be false. */
  const DISCLAIMED := {
    "ideaCandidatePersistenceObserved", "dataMeshRuntimeCertified", "gatewayWorkbenchRuntimeObserved",
    "clientPublicationApproved", "deploymentCertified", "productionCertified", "supportedFeaturePromoted"
  }

  /** The three proofs, in the order they are built. */
  datatype Proof = ConcentrationRisk | HighVolatility | DrawdownReview

  function ProofName(proof: Proof): string {
    match proof
    case ConcentrationRisk => "concentration_risk"
    case HighVolatility => "high_volatility"
    case DrawdownReview => "drawdown_review"
  }

  function ProductId(proof: Proof): string {
    match proof
    case ConcentrationRisk => "lotus-risk:ConcentrationRiskReport:v1"
    case HighVolatility => "lotus-risk:RiskMetricsReport:v1"
    case DrawdownReview => "lotus-risk:DrawdownAnalyticsReport:v1"
  }

  function RouteOf(proof: Proof): string {
    match proof
    case ConcentrationRisk => "/analytics/risk/concentration"
    case HighVolatility => "/analytics/risk/calculate"
    case DrawdownReview => "/analytics/risk/drawdown"
  }

  // ---------------------------------------------------------------- documents

  /** A JSON value checked for an exact set of keys: the fields, or anything else, which the
      validator always rejects. */
  datatype Mapping<+T> = Exact(fields: T) | Misshapen

  datatype Summary =
    | ConcentrationSummary(
        positionHhiCurrent: Json, positionHhiProposed: Json, issuerHhiCurrent: Json, issuerHhiProposed: Json,
        topIssuerWeightCurrent: Json, coverageStatus: Json, coverageRatioCurrent: Json)
    | RiskMetricsSummary(
        periodName: Json, volatilityPercent: Json, maxDrawdownPercent: Json, varPercent: Json,
        trackingErrorPercent: Json)
    | DrawdownSummary(
        period: Json, maxDrawdown: Json, timeUnderWaterDays: Json, ulcerIndex: Json, episodeCount: Json)
    | OtherSummary(value: Json)

  datatype Receipt = Receipt(
    productId: Json, route: Json, statusCode: Json, asOfDate: Json, portfolioIdentityDigest: Json,
    requestPayloadDigest: Json, normalizedResponseDigest: Json, supportabilityState: Json, freshnessBucket: Json,
    summary: Summary)

  datatype Execution = Execution(proofName: Json, receipt: Mapping<Receipt>, receiptDigest: Json)

  /** The claims and lists whose content is one constant: that constant, or anything else. */
  datatype Fixed = AsExpected | Different

  datatype Payload = Payload(
    schemaVersion: Json, repository: Json, evidenceClass: Json, proofFamily: Json, runtimeBoundary: Json,
    sourceAuthority: Json, generatedAtUtc: Json, portfolioBinding: Json, contractProvenance: Fixed,
    executions: Option<seq<Mapping<Execution>>>, consumerBlockersSatisfied: Fixed,
    remainingCertificationBlockers: Fixed, nonProofClaims: Json, evidenceDigest: Json)

  /** The fixed request of each proof. */
  datatype Request = Request(proof: Proof, asOfDate: string)

  type Hex = s: string | |s| == 64 witness seq(64, _ => '0')

  /** SHA-256 over the canonical JSON of each kind of document, and over identities. */
  datatype Hashes = Hashes(
    summary: Summary -> Hex, receipt: Receipt -> Hex, request: Request -> Hex, payload: Payload -> Hex,
    identity: string -> Hex)

  function Sha(hex: Hex): Json {
    Str("sha256:" + hex)
  }

  // ---------------------------------------------------------------- the summary contract

  predicate NumberInRange(value: Json, minimum: int, maximum: int) {
    match value
    case Int(n) => minimum <= n <= maximum
    case Float(x) => minimum as real <= x <= maximum as real
    case _ => false
  }

  predicate WholeNumberFrom(value: Json, minimum: int) {
    value.Int? && value.whole >= minimum
  }

  predicate SummaryIsValid(proof: Proof, summary: Summary) {
    match (proof, summary)
    case (ConcentrationRisk,
          ConcentrationSummary(position, positionProposed, issuer, issuerProposed, top, status, ratio)) =>
      && NumberInRange(position, 0, 10_000) && NumberInRange(positionProposed, 0, 10_000)
      && NumberInRange(issuer, 0, 10_000) && NumberInRange(issuerProposed, 0, 10_000)
      && NumberInRange(top, 0, 1)
      && status == Str("complete") && PyEq(ratio, Int(1))
    case (HighVolatility, RiskMetricsSummary(period, volatility, drawdown, valueAtRisk, trackingError)) =>
      && period == Str("YTD")
      && NumberInRange(volatility, 0, 100) && NumberInRange(drawdown, -100, 0)
      && NumberInRange(valueAtRisk, -100, 0) && NumberInRange(trackingError, 0, 100)
    case (DrawdownReview, DrawdownSummary(period, drawdown, days, ulcer, episodes)) =>
      && period == Str("YTD")
      && NumberInRange(drawdown, -1, 0) && WholeNumberFrom(days, 0)
      && NumberInRange(ulcer, 0, 1) && WholeNumberFrom(episodes, 1)
    case _ => false
  }

  // ---------------------------------------------------------------- the builder

  datatype Reply = Reply(status: int, response: Dict)

  type Execute = (string, Request) -> Reply

  datatype BuildError = WrongPortfolio | WrongDate | NaiveTimestamp | MalformedResponse

  datatype Built<+T> = Success(value: T) | Failure(error: BuildError)

  function Period(response: Dict, name: string): Dict {
    var value := FieldOf(GetOr(response, "results", Obj(map[])), name);
    if value.Obj? then value.fields else map[]
  }

  /** len(value), which raises for a value that has none. */
  function Len(value: Json): Option<int> {
    match value
    case List(items) => Some(|items|)
    case Str(text) => Some(|text|)
    case Obj(fields) => Some(|fields|)
    case _ => None
  }

  function BuildSummary(proof: Proof, response: Dict): Built<Summary> {
    match proof
    case ConcentrationRisk =>
      var risk := GetOr(response, "risk_proxy", Obj(map[]));
      var issuer := GetOr(response, "issuer_concentration", Obj(map[]));
      Success(ConcentrationSummary(
        FieldOf(risk, "hhi_current"), FieldOf(risk, "hhi_proposed"), FieldOf(issuer, "hhi_current"),
        FieldOf(issuer, "hhi_proposed"), FieldOf(issuer, "top_issuer_weight_current"),
        FieldOf(issuer, "coverage_status"), FieldOf(issuer, "coverage_ratio_current")))
    case HighVolatility =>
      var metrics := GetOr(Period(response, "YTD"), "metrics", Obj(map[]));
      if !metrics.Obj? then Failure(MalformedResponse)
      else Success(RiskMetricsSummary(
        Str("YTD"), FieldOf(Get(metrics.fields, "VOLATILITY"), "value"),
        FieldOf(Get(metrics.fields, "DRAWDOWN"), "value"),
        FieldOf(Get(metrics.fields, "VAR"), "value"), FieldOf(Get(metrics.fields, "TRACKING_ERROR"), "value")))
    case DrawdownReview =>
      var ytd := Period(response, "YTD");
      var summary := GetOr(ytd, "summary", Obj(map[]));
      var episodes := Len(GetOr(ytd, "episodes", List([])));
      if !summary.Obj? || episodes.None? then Failure(MalformedResponse)
      else Success(DrawdownSummary(
        Str("YTD"), Get(summary.fields, "max_drawdown"), Get(summary.fields, "time_under_water_days"),
        Get(summary.fields, "ulcer_index"), Int(episodes.value)))
  }

  function Supportability(response: Dict, key: string): Json {
    FieldOf(FieldOf(GetOr(response, "metadata", Obj(map[])), "calculation_supportability"), key)
  }

  function BuildReceipt(h: Hashes, proof: Proof, asOfDate: string, reply: Reply, summary: Summary): Receipt {
    Receipt(
      Str(ProductId(proof)), Str(RouteOf(proof)), Int(reply.status), Str(asOfDate),
      Sha(h.identity(CANONICAL_PORTFOLIO_ID)), Sha(h.request(Request(proof, asOfDate))), Sha(h.summary(summary)),
      Supportability(reply.response, "state"), Supportability(reply.response, "freshness_bucket"), summary)
  }

  /** The summary of a good reply; any other reply is summarized by nothing. */
  function SummaryFor(proof: Proof, reply: Reply): Built<Summary> {
    if reply.status == 200 then BuildSummary(proof, reply.response) else Success(OtherSummary(Obj(map[])))
  }

  function Labelled(h: Hashes, proof: Proof, receipt: Receipt): Mapping<Execution> {
    Exact(Execution(Str(ProofName(proof)), Exact(receipt), Sha(h.receipt(receipt))))
  }

  function BuildExecution(h: Hashes, execute: Execute, proof: Proof, asOfDate: string): Built<Mapping<Execution>> {
    var reply := execute(RouteOf(proof), Request(proof, asOfDate));
    match SummaryFor(proof, reply)
    case Failure(error) => Failure(error)
    case Success(s) =>
      var receipt := BuildReceipt(h, proof, asOfDate, reply, s);
      Success(Labelled(h, proof, receipt))
  }

  function WithoutDigest(payload: Payload): Payload {
    payload.(evidenceDigest := Null)
  }

  function ExpectedClaims(): Dict {
    (map claim | claim in DISCLAIMED :: Bool(false))[OWNER_CLAIM := Str("lotus-risk")]
  }

  function Binding(h: Hashes, portfolioId: string): Dict {
    map[REF_KEY := Str(CANONICAL_PORTFOLIO_REF), DIGEST_KEY := Sha(h.identity(portfolioId)), RAW_KEY := Bool(false)]
  }

  /** Everything but the executions and the digest. */
  function Header(h: Hashes, generatedAt: string, portfolioId: string): Payload {
    Payload(
      Str(SCHEMA_VERSION), Str("lotus-risk"), Str("runtime_execution"), Str(PROOF_FAMILY), Str(RUNTIME_BOUNDARY),
      Str("lotus-risk"), Str(generatedAt),
      Obj(Binding(h, portfolioId)),
      AsExpected, None, AsExpected, AsExpected, Obj(ExpectedClaims()), Null)
  }

  /** The three executions, in order; the first failure ends the build. */
  function Collect(build: Proof -> Built<Mapping<Execution>>): Built<seq<Mapping<Execution>>> {
    var first, second, third := build(ConcentrationRisk), build(HighVolatility), build(DrawdownReview);
    if first.Failure? then Failure(first.error)
    else if second.Failure? then Failure(second.error)
    else if third.Failure? then Failure(third.error)
    else Success([first.value, second.value, third.value])
  }

  function Builder(h: Hashes, execute: Execute, asOfDate: string): Proof -> Built<Mapping<Execution>> {
    proof => BuildExecution(h, execute, proof, asOfDate)
  }

  /** The evidence, from the formatted timestamp (None for a naive one). */
  function BuildEvidence(
      h: Hashes, execute: Execute, generatedAt: Option<string>, portfolioId: string, asOfDate: string): Built<Payload>
  {
    if portfolioId != CANONICAL_PORTFOLIO_ID then Failure(WrongPortfolio)
    else if asOfDate != CANONICAL_AS_OF_DATE then Failure(WrongDate)
    else if generatedAt.None? then Failure(NaiveTimestamp)
    else
      match Collect(Builder(h, execute, asOfDate))
      case Failure(error) => Failure(error)
      case Success(executions) =>
        var payload := Header(h, generatedAt.value, portfolioId).(executions := Some(executions));
        Success(payload.(evidenceDigest := Sha(h.payload(payload))))
  }

  // ---------------------------------------------------------------- the validator

  /** The proof a name stands for; the string of anything but a known name stands for none. */
  function ProofNamed(name: Json): Option<Proof> {
    if name == Str("concentration_risk") then Some(ConcentrationRisk)
    else if name == Str("high_volatility") then Some(HighVolatility)
    else if name == Str("drawdown_review") then Some(DrawdownReview)
    else None
  }

  predicate IsSha256(value: Json) {
    value.Str? && |value.text| == 71 && "sha256:" <= value.text
  }

  predicate ReceiptIsValid(h: Hashes, proof: Proof, receipt: Receipt) {
    && PyEq(receipt.statusCode, Int(200))
    && receipt.productId == Str(ProductId(proof)) && receipt.route == Str(RouteOf(proof))
    && receipt.supportabilityState == Str("ready")
    && receipt.freshnessBucket == Str("current")
    && receipt.asOfDate == Str(CANONICAL_AS_OF_DATE)
    && receipt.portfolioIdentityDigest == Sha(h.identity(CANONICAL_PORTFOLIO_ID))
    && receipt.requestPayloadDigest == Sha(h.request(Request(proof, CANONICAL_AS_OF_DATE)))
    && IsSha256(receipt.normalizedResponseDigest)
    && SummaryIsValid(proof, receipt.summary)
    && receipt.normalizedResponseDigest == Sha(h.summary(receipt.summary))
  }

  predicate ExecutionIsValid(h: Hashes, value: Mapping<Execution>) {
    && value.Exact? && value.fields.receipt.Exact?
    && ProofNamed(value.fields.proofName).Some?
    && ReceiptIsValid(h, ProofNamed(value.fields.proofName).value, value.fields.receipt.fields)
    && value.fields.receiptDigest == Sha(h.receipt(value.fields.receipt.fields))
  }

  /** Only three keys of the binding are looked at; it may have others. */
  predicate BindingIsValid(h: Hashes, value: Json) {
    && value.Obj?
    && Get(value.fields, REF_KEY) == Str(CANONICAL_PORTFOLIO_REF)
    && Get(value.fields, DIGEST_KEY) == Sha(h.identity(CANONICAL_PORTFOLIO_ID))
    && Get(value.fields, RAW_KEY) == Bool(false)
  }

  /** dict(value) == EXPECTED_NON_PROOF_CLAIMS */
  predicate ClaimsAreValid(value: Json) {
    value.Obj? && PyEq(value, Obj(ExpectedClaims()))
  }

  /** The proof a valid execution stands for, None for an invalid one. */
  function Checker(h: Hashes): Mapping<Execution> -> Option<Proof> {
    value => if ExecutionIsValid(h, value) then ProofNamed(value.fields.proofName) else None
  }

  predicate Covers(check: Mapping<Execution> -> Option<Proof>, executions: seq<Mapping<Execution>>, proof: Proof) {
    exists i | 0 <= i < |executions| :: check(executions[i]) == Some(proof)
  }

  /** Three valid executions whose names are exactly the expected ones: as valid executions have
      no other names, that is that each proof occurs. */
  predicate ExecutionsPass(check: Mapping<Execution> -> Option<Proof>, executions: seq<Mapping<Execution>>) {
    && |executions| == 3
    && (forall i | 0 <= i < 3 :: check(executions[i]).Some?)
    && Covers(check, executions, ConcentrationRisk)
    && Covers(check, executions, HighVolatility)
    && Covers(check, executions, DrawdownReview)
  }

  /** _parse_utc: `parses` says which texts the datetime library reads as aware timestamps. */
  predicate StampIsValid(parses: string -> bool, stamp: Json) {
    stamp.Str? && EndsWith(stamp.text, "Z") && parses(stamp.text)
  }

  /** The checks on everything but the executions and the digest. */
  predicate HeaderIsValid(h: Hashes, parses: string -> bool, p: Payload) {
    && p.schemaVersion == Str(SCHEMA_VERSION)
    && p.repository == Str("lotus-risk") && p.sourceAuthority == Str("lotus-risk")
    && p.evidenceClass == Str("runtime_execution") && p.proofFamily == Str(PROOF_FAMILY)
    && p.runtimeBoundary == Str(RUNTIME_BOUNDARY)
    && StampIsValid(parses, p.generatedAtUtc)
    && BindingIsValid(h, p.portfolioBinding)
    && p.contractProvenance == AsExpected
    && p.consumerBlockersSatisfied == AsExpected && p.remainingCertificationBlockers == AsExpected
    && ClaimsAreValid(p.nonProofClaims)
  }

  predicate EvidenceIsValid(h: Hashes, parses: string -> bool, value: Mapping<Payload>) {
    && value.Exact? && HeaderIsValid(h, parses, value.fields)
    && value.fields.executions.Some? && ExecutionsPass(Checker(h), value.fields.executions.value)
    && value.fields.evidenceDigest == Sha(h.payload(WithoutDigest(value.fields)))
  }

  // ---------------------------------------------------------------- builder against validator

  lemma NamesRoundTrip(proof: Proof)
    ensures ProofNamed(Str(ProofName(proof))) == Some(proof)
    ensures forall name :: ProofNamed(name) == Some(proof) ==> name == Str(ProofName(proof))
  {
    assert "concentration_risk"[0] != "high_volatility"[0] && "high_volatility"[0] != "drawdown_review"[0];
    assert "concentration_risk"[0] != "drawdown_review"[0];
  }

  lemma ShaIsSha256(hex: Hex)
    ensures IsSha256(Sha(hex))
  {
    assert |"sha256:"| == 7;
  }

  /** A reply that is good evidence for a proof. */
  predicate GoodReply(proof: Proof, reply: Reply) {
    && reply.status == 200
    && Supportability(reply.response, "state") == Str("ready")
    && Supportability(reply.response, "freshness_bucket") == Str("current")
    && BuildSummary(proof, reply.response).Success?
    && SummaryIsValid(proof, BuildSummary(proof, reply.response).value)
  }

  /** A built receipt passes exactly with status 200, a ready and current supportability, and a
      valid summary; everything else in it is as the validator expects. */
  lemma BuiltReceiptValidExactly(h: Hashes, proof: Proof, reply: Reply, summary: Summary)
    ensures ReceiptIsValid(h, proof, BuildReceipt(h, proof, CANONICAL_AS_OF_DATE, reply, summary))
       <==> && reply.status == 200
            && Supportability(reply.response, "state") == Str("ready")
            && Supportability(reply.response, "freshness_bucket") == Str("current")
            && SummaryIsValid(proof, summary)
  {
    ShaIsSha256(h.summary(summary));
    SpellingsOf200(Int(reply.status));
  }

  lemma LabelledValidExactly(h: Hashes, proof: Proof, receipt: Receipt)
    ensures Checker(h)(Labelled(h, proof, receipt)) == if ReceiptIsValid(h, proof, receipt) then Some(proof) else None
  {
    NamesRoundTrip(proof);
  }

  // ---------------------------------------------------------------- what is read from a reply

  /** What a value holds down the keys, null where they lead to nothing. */
  function At(value: Json, keys: seq<string>): Json
    decreases |keys|
  {
    if keys == [] then value else At(FieldOf(value, keys[0]), keys[1..])
  }

  lemma AtTwo(value: Json, a: string, b: string)
    ensures At(value, [a, b]) == FieldOf(FieldOf(value, a), b)
  {
    assert [a, b][1..] == [b] && [b][1..] == [];
    assert At(FieldOf(value, a), [b]) == At(FieldOf(FieldOf(value, a), b), []);
  }

  lemma AtThree(value: Json, a: string, b: string, c: string)
    ensures At(value, [a, b, c]) == FieldOf(FieldOf(FieldOf(value, a), b), c)
  {
    assert [a, b, c][1..] == [b, c];
    AtTwo(FieldOf(value, a), b, c);
  }

  lemma AtFive(value: Json, a: string, b: string, c: string, d: string, e: string)
    ensures At(value, [a, b, c, d, e]) == FieldOf(FieldOf(FieldOf(FieldOf(FieldOf(value, a), b), c), d), e)
  {
    assert [a, b, c, d, e][1..] == [b, c, d, e] && [b, c, d, e][1..] == [c, d, e];
    AtThree(FieldOf(FieldOf(value, a), b), c, d, e);
  }

  lemma AtFour(value: Json, a: string, b: string, c: string, d: string)
    ensures At(value, [a, b, c, d]) == FieldOf(FieldOf(FieldOf(FieldOf(value, a), b), c), d)
  {
    assert [a, b, c, d][1..] == [b, c, d];
    AtThree(FieldOf(value, a), b, c, d);
  }

  function Metric(response: Json, name: string): Json {
    At(response, ["results", "YTD", "metrics", name, "value"])
  }

  function DrawdownValue(response: Json, name: string): Json {
    At(response, ["results", "YTD", "summary", name])
  }

  function Episodes(response: Json): Json {
    At(response, ["results", "YTD", "episodes"])
  }

  /** Where each value of a summary comes from. */
  predicate ReadFrom(proof: Proof, response: Json, summary: Summary) {
    match (proof, summary)
    case (ConcentrationRisk,
          ConcentrationSummary(position, positionProposed, issuer, issuerProposed, top, status, ratio)) =>
      && position == At(response, ["risk_proxy", "hhi_current"])
      && positionProposed == At(response, ["risk_proxy", "hhi_proposed"])
      && issuer == At(response, ["issuer_concentration", "hhi_current"])
      && issuerProposed == At(response, ["issuer_concentration", "hhi_proposed"])
      && top == At(response, ["issuer_concentration", "top_issuer_weight_current"])
      && status == At(response, ["issuer_concentration", "coverage_status"])
      && ratio == At(response, ["issuer_concentration", "coverage_ratio_current"])
    case (HighVolatility, RiskMetricsSummary(period, volatility, drawdown, valueAtRisk, trackingError)) =>
      && period == Str("YTD")
      && volatility == Metric(response, "VOLATILITY") && drawdown == Metric(response, "DRAWDOWN")
      && valueAtRisk == Metric(response, "VAR") && trackingError == Metric(response, "TRACKING_ERROR")
    case (DrawdownReview, DrawdownSummary(period, drawdown, days, ulcer, episodes)) =>
      && period == Str("YTD")
      && drawdown == DrawdownValue(response, "max_drawdown")
      && days == DrawdownValue(response, "time_under_water_days")
      && ulcer == DrawdownValue(response, "ulcer_index")
      && episodes.Int? && EpisodeCount(Episodes(response), episodes.whole)
    case _ => false
  }

  /** The number of episodes, of a list or anything else that has a length; none when absent. */
  predicate EpisodeCount(episodes: Json, count: int) {
    match episodes
    case List(items) => count == |items|
    case Str(text) => count == |text|
    case Obj(fields) => count == |fields|
    case Null => count == 0
    case _ => false
  }

  lemma ConcentrationReads(response: Dict)
    ensures ReadFrom(ConcentrationRisk, Obj(response), BuildSummary(ConcentrationRisk, response).value)
  {
    var value := Obj(response);
    AtTwo(value, "risk_proxy", "hhi_current");
    AtTwo(value, "risk_proxy", "hhi_proposed");
    AtTwo(value, "issuer_concentration", "hhi_current");
    AtTwo(value, "issuer_concentration", "hhi_proposed");
    AtTwo(value, "issuer_concentration", "top_issuer_weight_current");
    AtTwo(value, "issuer_concentration", "coverage_status");
    AtTwo(value, "issuer_concentration", "coverage_ratio_current");
  }

  lemma PeriodReads(response: Dict, key: string)
    ensures FieldOf(FieldOf(FieldOf(Obj(response), "results"), "YTD"), key) == Get(Period(response, "YTD"), key)
  {
  }

  lemma MetricsRead(response: Dict, name: string)
    requires BuildSummary(HighVolatility, response).Success?
    ensures var metrics := GetOr(Period(response, "YTD"), "metrics", Obj(map[]));
            metrics.Obj? && FieldOf(Get(metrics.fields, name), "value") == Metric(Obj(response), name)
  {
    AtFive(Obj(response), "results", "YTD", "metrics", name, "value");
    PeriodReads(response, "metrics");
  }

  lemma VolatilityReads(response: Dict)
    requires BuildSummary(HighVolatility, response).Success?
    ensures ReadFrom(HighVolatility, Obj(response), BuildSummary(HighVolatility, response).value)
  {
    MetricsRead(response, "VOLATILITY");
    MetricsRead(response, "DRAWDOWN");
    MetricsRead(response, "VAR");
    MetricsRead(response, "TRACKING_ERROR");
  }

  lemma DrawdownReads(response: Dict)
    requires BuildSummary(DrawdownReview, response).Success?
    ensures ReadFrom(DrawdownReview, Obj(response), BuildSummary(DrawdownReview, response).value)
  {
    var value := Obj(response);
    AtFour(value, "results", "YTD", "summary", "max_drawdown");
    AtFour(value, "results", "YTD", "summary", "time_under_water_days");
    AtFour(value, "results", "YTD", "summary", "ulcer_index");
    AtThree(value, "results", "YTD", "episodes");
    PeriodReads(response, "summary");
    PeriodReads(response, "episodes");
  }

  /** Every built summary holds, under each of its names, the value at its documented place in the
      reply. */
  lemma SummaryReadsReply(proof: Proof, response: Dict)
    requires BuildSummary(proof, response).Success?
    ensures ReadFrom(proof, Obj(response), BuildSummary(proof, response).value)
  {
    match proof
    case ConcentrationRisk => ConcentrationReads(response);
    case HighVolatility => VolatilityReads(response);
    case DrawdownReview => DrawdownReads(response);
  }

  /** A reply is summarized only as what is read from it. */
  lemma SummaryDetermined(proof: Proof, response: Dict, summary: Summary)
    requires BuildSummary(proof, response).Success? && ReadFrom(proof, Obj(response), summary)
    ensures BuildSummary(proof, response).value == summary
  {
    SummaryReadsReply(proof, response);
  }

  function Holding(value: Json): Json {
    Obj(map["value" := value])
  }

  function Ytd(key: string, value: Json): Dict {
    map["results" := Obj(map["YTD" := Obj(map[key := value])])]
  }

  /** The reply that carries the values of a risk-metrics summary at their documented keys. */
  function CarryingMetrics(s: Summary): Dict
    requires s.RiskMetricsSummary?
  {
    Ytd("metrics", Obj(map[
      "VOLATILITY" := Holding(s.volatilityPercent), "DRAWDOWN" := Holding(s.maxDrawdownPercent),
      "VAR" := Holding(s.varPercent), "TRACKING_ERROR" := Holding(s.trackingErrorPercent)]))
  }

  lemma MetricNamesDiffer()
    ensures |"VOLATILITY"| == 10 && |"DRAWDOWN"| == 8 && |"VAR"| == 3 && |"TRACKING_ERROR"| == 14
  {
  }

  /** The round trip of the metrics. */
  lemma MetricsRoundTrip(s: Summary)
    requires s.RiskMetricsSummary? && s.periodName == Str("YTD")
    ensures BuildSummary(HighVolatility, CarryingMetrics(s)) == Success(s)
  {
    MetricNamesDiffer();
  }

  /** The reply that carries the values of a concentration summary. */
  function CarryingConcentration(s: Summary): Dict
    requires s.ConcentrationSummary?
  {
    map["risk_proxy" := Obj(map["hhi_current" := s.positionHhiCurrent, "hhi_proposed" := s.positionHhiProposed]),
        "issuer_concentration" := Obj(map[
          "hhi_current" := s.issuerHhiCurrent, "hhi_proposed" := s.issuerHhiProposed,
          "top_issuer_weight_current" := s.topIssuerWeightCurrent, "coverage_status" := s.coverageStatus,
          "coverage_ratio_current" := s.coverageRatioCurrent])]
  }

  lemma ConcentrationNamesDiffer()
    ensures |"hhi_current"| == 11 && |"hhi_proposed"| == 12 && |"top_issuer_weight_current"| == 25
    ensures |"coverage_status"| == 15 && |"coverage_ratio_current"| == 22
    ensures |"risk_proxy"| == 10 && |"issuer_concentration"| == 20
  {
  }

  lemma ConcentrationRoundTrip(s: Summary)
    requires s.ConcentrationSummary?
    ensures BuildSummary(ConcentrationRisk, CarryingConcentration(s)) == Success(s)
  {
    ConcentrationNamesDiffer();
  }

  /** The reply that carries the values of a drawdown summary, with as many episodes. */
  function CarryingDrawdown(s: Summary): Dict
    requires s.DrawdownSummary? && s.episodeCount.Int? && s.episodeCount.whole >= 0
  {
    map["results" := Obj(map["YTD" := Obj(map[
      "summary" := Obj(map[
        "max_drawdown" := s.maxDrawdown, "time_under_water_days" := s.timeUnderWaterDays,
        "ulcer_index" := s.ulcerIndex]),
      "episodes" := List(seq(s.episodeCount.whole, _ => Null))])])]
  }

  lemma DrawdownNamesDiffer()
    ensures |"max_drawdown"| == 12 && |"time_under_water_days"| == 21 && |"ulcer_index"| == 11
    ensures |"summary"| == 7 && |"episodes"| == 8
  {
  }

  lemma DrawdownRoundTrip(s: Summary)
    requires s.DrawdownSummary? && s.period == Str("YTD") && s.episodeCount.Int? && s.episodeCount.whole >= 0
    ensures BuildSummary(DrawdownReview, CarryingDrawdown(s)) == Success(s)
  {
    DrawdownNamesDiffer();
  }

  lemma SupportabilityReads(response: Dict, key: string)
    ensures Supportability(response, key) == At(Obj(response), ["metadata", "calculation_supportability", key])
  {
    AtThree(Obj(response), "metadata", "calculation_supportability", key);
  }

  /** A number, and no boolean, between two bounds. */
  predicate Between(value: Json, low: int, high: int) {
    !value.Bool? && Number(value).Some? && low as real <= Number(value).value <= high as real
  }

  lemma BetweenExactly(value: Json, low: int, high: int)
    ensures NumberInRange(value, low, high) <==> Between(value, low, high)
  {
  }

  /** The values a reply must hold to be evidence for the proof. */
  predicate ReplyInRange(proof: Proof, response: Json) {
    match proof
    case ConcentrationRisk =>
      && Between(At(response, ["risk_proxy", "hhi_current"]), 0, 10_000)
      && Between(At(response, ["risk_proxy", "hhi_proposed"]), 0, 10_000)
      && Between(At(response, ["issuer_concentration", "hhi_current"]), 0, 10_000)
      && Between(At(response, ["issuer_concentration", "hhi_proposed"]), 0, 10_000)
      && Between(At(response, ["issuer_concentration", "top_issuer_weight_current"]), 0, 1)
      && At(response, ["issuer_concentration", "coverage_status"]) == Str("complete")
      && Number(At(response, ["issuer_concentration", "coverage_ratio_current"])) == Some(1.0)
    case HighVolatility =>
      && Between(Metric(response, "VOLATILITY"), 0, 100) && Between(Metric(response, "DRAWDOWN"), -100, 0)
      && Between(Metric(response, "VAR"), -100, 0) && Between(Metric(response, "TRACKING_ERROR"), 0, 100)
    case DrawdownReview =>
      var days := DrawdownValue(response, "time_under_water_days");
      && Between(DrawdownValue(response, "max_drawdown"), -1, 0) && days.Int? && days.whole >= 0
      && Between(DrawdownValue(response, "ulcer_index"), 0, 1)
      && Len(Episodes(response)).Some? && Len(Episodes(response)).value >= 1
  }

  lemma ConcentrationInRange(response: Dict)
    ensures SummaryIsValid(ConcentrationRisk, BuildSummary(ConcentrationRisk, response).value)
       <==> ReplyInRange(ConcentrationRisk, Obj(response))
  {
    ConcentrationReads(response);
  }

  lemma MetricsUnread(response: Dict)
    requires BuildSummary(HighVolatility, response).Failure?
    ensures Metric(Obj(response), "VOLATILITY") == Null
  {
    AtFive(Obj(response), "results", "YTD", "metrics", "VOLATILITY", "value");
    PeriodReads(response, "metrics");
  }

  lemma VolatilityInRange(response: Dict)
    ensures BuildSummary(HighVolatility, response).Success?
            && SummaryIsValid(HighVolatility, BuildSummary(HighVolatility, response).value)
       <==> ReplyInRange(HighVolatility, Obj(response))
  {
    if BuildSummary(HighVolatility, response).Success? {
      VolatilityReads(response);
    } else {
      MetricsUnread(response);
    }
  }

  lemma DrawdownUnread(response: Dict)
    requires BuildSummary(DrawdownReview, response).Failure?
    ensures DrawdownValue(Obj(response), "max_drawdown") == Null || Len(Episodes(Obj(response))).None?
  {
    AtFour(Obj(response), "results", "YTD", "summary", "max_drawdown");
    AtThree(Obj(response), "results", "YTD", "episodes");
    PeriodReads(response, "summary");
    PeriodReads(response, "episodes");
  }

  lemma DrawdownInRange(response: Dict)
    ensures BuildSummary(DrawdownReview, response).Success?
            && SummaryIsValid(DrawdownReview, BuildSummary(DrawdownReview, response).value)
       <==> ReplyInRange(DrawdownReview, Obj(response))
  {
    if BuildSummary(DrawdownReview, response).Success? {
      DrawdownReads(response);
    } else {
      DrawdownUnread(response);
    }
  }

  /** Good evidence, in terms of the reply alone. */
  predicate ReplyIsEvidence(proof: Proof, reply: Reply) {
    && reply.status == 200
    && At(Obj(reply.response), ["metadata", "calculation_supportability", "state"]) == Str("ready")
    && At(Obj(reply.response), ["metadata", "calculation_supportability", "freshness_bucket"]) == Str("current")
    && ReplyInRange(proof, Obj(reply.response))
  }

  lemma GoodReplyExactly(proof: Proof, reply: Reply)
    ensures GoodReply(proof, reply) <==> ReplyIsEvidence(proof, reply)
  {
    SupportabilityReads(reply.response, "state");
    SupportabilityReads(reply.response, "freshness_bucket");
    match proof
    case ConcentrationRisk => ConcentrationInRange(reply.response);
    case HighVolatility => VolatilityInRange(reply.response);
    case DrawdownReview => DrawdownInRange(reply.response);
  }

  lemma BuiltExecutionValidExactly(h: Hashes, execute: Execute, proof: Proof)
    requires Builder(h, execute, CANONICAL_AS_OF_DATE)(proof).Success?
    ensures Checker(h)(Builder(h, execute, CANONICAL_AS_OF_DATE)(proof).value)
         == if Readiness(execute)(proof) then Some(proof) else None
  {
    var reply := execute(RouteOf(proof), Request(proof, CANONICAL_AS_OF_DATE));
    var summary := SummaryFor(proof, reply).value;
    var receipt := BuildReceipt(h, proof, CANONICAL_AS_OF_DATE, reply, summary);
    LabelledValidExactly(h, proof, receipt);
    BuiltReceiptValidExactly(h, proof, reply, summary);
    GoodReplyExactly(proof, reply);
  }

  /** Whether the reply to a proof's request is good evidence. */
  function Readiness(execute: Execute): Proof -> bool {
    proof => ReplyIsEvidence(proof, execute(RouteOf(proof), Request(proof, CANONICAL_AS_OF_DATE)))
  }

  lemma CollectedPassExactly(
      build: Proof -> Built<Mapping<Execution>>, check: Mapping<Execution> -> Option<Proof>, ready: Proof -> bool)
    requires Collect(build).Success?
    requires forall proof | build(proof).Success? ::
               check(build(proof).value) == if ready(proof) then Some(proof) else None
    ensures ExecutionsPass(check, Collect(build).value) <==> forall proof: Proof :: ready(proof)
  {
    var es := Collect(build).value;
    assert check(es[0]) == if ready(ConcentrationRisk) then Some(ConcentrationRisk) else None;
    assert check(es[1]) == if ready(HighVolatility) then Some(HighVolatility) else None;
    assert check(es[2]) == if ready(DrawdownReview) then Some(DrawdownReview) else None;
    if ExecutionsPass(check, es) {
      forall proof: Proof ensures ready(proof) {
        match proof {
          case ConcentrationRisk => assert check(es[0]).Some?;
          case HighVolatility => assert check(es[1]).Some?;
          case DrawdownReview => assert check(es[2]).Some?;
        }
      }
    }
  }

  /** The claims are accepted exactly when there are those that are built and no others, the owner
      is lotus-risk, and every disclaimed one is a false, a 0 or a 0.0. */
  lemma ClaimsForced(value: Json)
    ensures ClaimsAreValid(value)
       <==> && value.Obj? && value.fields.Keys == DISCLAIMED + {OWNER_CLAIM}
            && value.fields[OWNER_CLAIM] == Str("lotus-risk")
            && forall claim | claim in DISCLAIMED && claim != OWNER_CLAIM ::
                 value.fields[claim] in {Bool(false), Int(0), Float(0.0)}
  {
    var expected := ExpectedClaims();
    assert expected.Keys == DISCLAIMED + {OWNER_CLAIM};
    forall claim | value.Obj? && claim in expected && claim in value.fields
      ensures PyEq(value.fields[claim], expected[claim])
         <==> if claim == OWNER_CLAIM then value.fields[claim] == Str("lotus-risk")
              else value.fields[claim] in {Bool(false), Int(0), Float(0.0)}
    {
      SpellingsOfFalse(value.fields[claim]);
    }
  }

  lemma SpellingsOfFalse(claim: Json)
    ensures PyEq(claim, Bool(false)) <==> claim in {Bool(false), Int(0), Float(0.0)}
  {
    if claim.Int? {
      assert (claim.whole as real == 0.0) == (claim.whole == 0);
    }
  }

  lemma BindingKeysDiffer()
    ensures |REF_KEY| == 21 && |DIGEST_KEY| == 23 && |RAW_KEY| == 22
  {
  }

  /** The binding is accepted exactly when it extends the one that is built: its three values are
      forced, further keys are not. */
  lemma BindingForced(h: Hashes, value: Json)
    ensures BindingIsValid(h, value)
       <==> value.Obj? && exists more: Dict :: value.fields == more + Binding(h, CANONICAL_PORTFOLIO_ID)
  {
    var built := Binding(h, CANONICAL_PORTFOLIO_ID);
    BindingKeysDiffer();
    assert built.Keys == {REF_KEY, DIGEST_KEY, RAW_KEY};
    if BindingIsValid(h, value) {
      assert value.fields == value.fields + built;
    }
  }

  /** The same evidence with a further key in the binding, and its digest renewed. */
  function WithBindingKey(h: Hashes, payload: Payload, key: string, value: Json): Payload
    requires payload.portfolioBinding.Obj?
  {
    var other := payload.(portfolioBinding := Obj(payload.portfolioBinding.fields[key := value]));
    other.(evidenceDigest := Sha(h.payload(WithoutDigest(other))))
  }

  lemma BindingExtends(h: Hashes, fields: Dict, key: string, value: Json)
    requires BindingIsValid(h, Obj(fields)) && key !in [REF_KEY, DIGEST_KEY, RAW_KEY]
    ensures BindingIsValid(h, Obj(fields[key := value]))
  {
    assert [REF_KEY, DIGEST_KEY, RAW_KEY][0] == REF_KEY && [REF_KEY, DIGEST_KEY, RAW_KEY][1] == DIGEST_KEY;
    assert [REF_KEY, DIGEST_KEY, RAW_KEY][2] == RAW_KEY;
  }

  lemma HeaderTakesBinding(h: Hashes, parses: string -> bool, p: Payload, binding: Json, digest: Json)
    requires HeaderIsValid(h, parses, p) && BindingIsValid(h, binding)
    ensures HeaderIsValid(h, parses, p.(portfolioBinding := binding, evidenceDigest := digest))
  {
  }

  /** Accepted evidence stays accepted with any further key in its binding. */
  lemma BindingKeysNotForced(h: Hashes, parses: string -> bool, payload: Payload, key: string, value: Json)
    requires EvidenceIsValid(h, parses, Exact(payload)) && key !in [REF_KEY, DIGEST_KEY, RAW_KEY]
    ensures EvidenceIsValid(h, parses, Exact(WithBindingKey(h, payload, key, value)))
  {
    var other := WithBindingKey(h, payload, key, value);
    BindingExtends(h, payload.portfolioBinding.fields, key, value);
    HeaderTakesBinding(h, parses, payload, other.portfolioBinding, other.evidenceDigest);
  }

  lemma BuiltHeaderValidExactly(
      h: Hashes, parses: string -> bool, generatedAt: string, executions: Option<seq<Mapping<Execution>>>, digest: Json)
    ensures HeaderIsValid(h, parses,
              Header(h, generatedAt, CANONICAL_PORTFOLIO_ID).(executions := executions, evidenceDigest := digest))
       <==> StampIsValid(parses, Str(generatedAt))
  {
    ClaimsForced(Obj(ExpectedClaims()));
    BindingKeysDiffer();
  }

  /** Evidence that was built passes the validator exactly when its timestamp does and all
      three replies have status 200, state ready, freshness current and a valid summary. */
  lemma BuiltEvidenceValidExactly(
      h: Hashes, parses: string -> bool, execute: Execute, generatedAt: Option<string>, portfolioId: string,
      asOfDate: string)
    requires BuildEvidence(h, execute, generatedAt, portfolioId, asOfDate).Success?
    ensures EvidenceIsValid(h, parses, Exact(BuildEvidence(h, execute, generatedAt, portfolioId, asOfDate).value))
       <==> StampIsValid(parses, Str(generatedAt.value)) && forall proof: Proof :: Readiness(execute)(proof)
  {
    var build := Builder(h, execute, CANONICAL_AS_OF_DATE);
    forall proof | build(proof).Success?
      ensures Checker(h)(build(proof).value) == if Readiness(execute)(proof) then Some(proof) else None
    {
      BuiltExecutionValidExactly(h, execute, proof);
    }
    CollectedPassExactly(build, Checker(h), Readiness(execute));
    BuiltPartsValidExactly(h, parses, generatedAt.value, Collect(build).value);
  }

  lemma BuiltPartsValidExactly(
      h: Hashes, parses: string -> bool, generatedAt: string, executions: seq<Mapping<Execution>>)
    ensures var payload := Header(h, generatedAt, CANONICAL_PORTFOLIO_ID).(executions := Some(executions));
            EvidenceIsValid(h, parses, Exact(payload.(evidenceDigest := Sha(h.payload(payload)))))
            <==> StampIsValid(parses, Str(generatedAt)) && ExecutionsPass(Checker(h), executions)
  {
    var payload := Header(h, generatedAt, CANONICAL_PORTFOLIO_ID).(executions := Some(executions));
    BuiltHeaderValidExactly(h, parses, generatedAt, Some(executions), Sha(h.payload(payload)));
  }

  /** The three builds in order, or none of them. */
  ghost predicate BuiltInOrder(build: Proof -> Built<Mapping<Execution>>, executions: seq<Mapping<Execution>>) {
    && |executions| == 3
    && build(ConcentrationRisk) == Success(executions[0])
    && build(HighVolatility) == Success(executions[1])
    && build(DrawdownReview) == Success(executions[2])
  }

  lemma CollectOutcome(build: Proof -> Built<Mapping<Execution>>)
    ensures match Collect(build)
            case Success(executions) => BuiltInOrder(build, executions)
            case Failure(error) => exists proof: Proof :: build(proof) == Failure(error)
  {
  }

  /** Why a build fails, in the order of the checks; otherwise the three executions are there, each
      in its place. */
  lemma BuildOutcome(h: Hashes, execute: Execute, generatedAt: Option<string>, portfolioId: string, asOfDate: string)
    ensures var built := BuildEvidence(h, execute, generatedAt, portfolioId, asOfDate);
            var build := Builder(h, execute, asOfDate);
            if portfolioId != CANONICAL_PORTFOLIO_ID then built == Failure(WrongPortfolio)
            else if asOfDate != CANONICAL_AS_OF_DATE then built == Failure(WrongDate)
            else if generatedAt.None? then built == Failure(NaiveTimestamp)
            else if built.Failure? then exists proof: Proof :: build(proof) == Failure(built.error)
            else
              && built.value.generatedAtUtc == Str(generatedAt.value)
              && built.value.executions.Some? && BuiltInOrder(build, built.value.executions.value)
  {
    CollectOutcome(Builder(h, execute, asOfDate));
  }

  // ---------------------------------------------------------------- what acceptance forces

  /** The only execution with a given proof, summary and spelling of the status code. */
  function Canonical(h: Hashes, proof: Proof, summary: Summary, statusCode: Json): Execution {
    var receipt := Receipt(
      Str(ProductId(proof)), Str(RouteOf(proof)), statusCode, Str(CANONICAL_AS_OF_DATE),
      Sha(h.identity(CANONICAL_PORTFOLIO_ID)), Sha(h.request(Request(proof, CANONICAL_AS_OF_DATE))),
      Sha(h.summary(summary)), Str("ready"), Str("current"), summary);
    Execution(Str(ProofName(proof)), Exact(receipt), Sha(h.receipt(receipt)))
  }

  /** An accepted execution is determined by its proof, its summary and how 200 is spelled. */
  lemma AcceptedExecutionForced(h: Hashes, value: Mapping<Execution>)
    ensures ExecutionIsValid(h, value)
       <==> exists proof, summary, code :: value == Exact(Canonical(h, proof, summary, code))
                                          && SummaryIsValid(proof, summary) && code in {Int(200), Float(200.0)}
  {
    if ExecutionIsValid(h, value) {
      var proof := ProofNamed(value.fields.proofName).value;
      var receipt := value.fields.receipt.fields;
      NamesRoundTrip(proof);
      SpellingsOf200(receipt.statusCode);
      assert value == Exact(Canonical(h, proof, receipt.summary, receipt.statusCode));
    }
    if proof, summary, code :| value == Exact(Canonical(h, proof, summary, code))
                               && SummaryIsValid(proof, summary) && code in {Int(200), Float(200.0)} {
      NamesRoundTrip(proof);
      SpellingsOf200(code);
      ShaIsSha256(h.summary(summary));
    }
  }

  lemma AcceptedIsCanonical(h: Hashes, value: Mapping<Execution>)
    requires ExecutionIsValid(h, value)
    ensures value == Exact(Canonical(h, ProofNamed(value.fields.proofName).value, Open(value).0, Open(value).1))
  {
    NamesRoundTrip(ProofNamed(value.fields.proofName).value);
  }

  lemma SpellingsOf200(code: Json)
    ensures PyEq(code, Int(200)) <==> code in {Int(200), Float(200.0)}
  {
    if code.Int? {
      assert (code.whole as real == 200.0) == (code.whole == 200);
    }
  }

  /** In an accepted artifact each proof appears exactly once. */
  lemma EachProofOnce(check: Mapping<Execution> -> Option<Proof>, executions: seq<Mapping<Execution>>, proof: Proof)
    requires ExecutionsPass(check, executions)
    ensures exists i :: 0 <= i < 3 && check(executions[i]) == Some(proof)
                        && forall j | 0 <= j < 3 && check(executions[j]) == Some(proof) :: j == i
  {
    var a :| 0 <= a < 3 && check(executions[a]) == Some(ConcentrationRisk);
    var b :| 0 <= b < 3 && check(executions[b]) == Some(HighVolatility);
    var c :| 0 <= c < 3 && check(executions[c]) == Some(DrawdownReview);
    var i := match proof case ConcentrationRisk => a case HighVolatility => b case DrawdownReview => c;
    forall j | 0 <= j < 3 && check(executions[j]) == Some(proof) ensures j == i {
      assert j == a || j == b || j == c;
    }
  }

  /** What an accepted execution leaves open: its summary and how it spells its status code. */
  function Open(value: Mapping<Execution>): (Summary, Json) {
    if value.Exact? && value.fields.receipt.Exact? then
      (value.fields.receipt.fields.summary, value.fields.receipt.fields.statusCode)
    else (OtherSummary(Null), Null)
  }

  lemma CheckerForces(h: Hashes, x: Mapping<Execution>, y: Mapping<Execution>)
    requires Checker(h)(x).Some? && Checker(h)(x) == Checker(h)(y) && Open(x) == Open(y)
    ensures x == y
  {
    AcceptedIsCanonical(h, x);
    AcceptedIsCanonical(h, y);
  }

  /** Two accepted artifacts hold the same set of executions exactly when they agree, proof by
      proof, on the summary and on the spelling of the status code. */
  lemma AcceptedExecutionsAgree(h: Hashes, a: seq<Mapping<Execution>>, b: seq<Mapping<Execution>>)
    requires ExecutionsPass(Checker(h), a) && ExecutionsPass(Checker(h), b)
    ensures Held(a) == Held(b) <==> OpenPartsAgree(Checker(h), a, b)
  {
    forall x, y | Checker(h)(x).Some? && Checker(h)(x) == Checker(h)(y) && Open(x) == Open(y) ensures x == y {
      CheckerForces(h, x, y);
    }
    SetsAgree(Checker(h), a, b);
  }

  function Held(executions: seq<Mapping<Execution>>): set<Mapping<Execution>> {
    set i | 0 <= i < |executions| :: executions[i]
  }

  /** Proof by proof, the same summary and the same spelling. */
  ghost predicate OpenPartsAgree(
      check: Mapping<Execution> -> Option<Proof>, a: seq<Mapping<Execution>>, b: seq<Mapping<Execution>>)
  {
    forall x, y | x in Held(a) && y in Held(b) && check(x) == check(y) :: Open(x) == Open(y)
  }

  lemma OneExecutionPerProof(
      check: Mapping<Execution> -> Option<Proof>, executions: seq<Mapping<Execution>>, x: Mapping<Execution>,
      y: Mapping<Execution>)
    requires ExecutionsPass(check, executions) && x in Held(executions) && y in Held(executions) && check(x) == check(y)
    ensures x == y
  {
    var i :| 0 <= i < 3 && executions[i] == x;
    EachProofOnce(check, executions, check(x).value);
  }

  lemma SetsAgree(check: Mapping<Execution> -> Option<Proof>, a: seq<Mapping<Execution>>, b: seq<Mapping<Execution>>)
    requires ExecutionsPass(check, a) && ExecutionsPass(check, b)
    requires forall x, y | check(x).Some? && check(x) == check(y) && Open(x) == Open(y) :: x == y
    ensures Held(a) == Held(b) <==> OpenPartsAgree(check, a, b)
  {
    if Held(a) == Held(b) {
      forall x, y | x in Held(a) && y in Held(b) && check(x) == check(y) ensures Open(x) == Open(y) {
        OneExecutionPerProof(check, b, x, y);
      }
    }
    if OpenPartsAgree(check, a, b) {
      Included(check, a, b);
      Included(check, b, a);
    }
  }

  lemma Included(check: Mapping<Execution> -> Option<Proof>, a: seq<Mapping<Execution>>, b: seq<Mapping<Execution>>)
    requires ExecutionsPass(check, a) && ExecutionsPass(check, b)
    requires forall x, y | check(x).Some? && check(x) == check(y) && Open(x) == Open(y) :: x == y
    requires OpenPartsAgree(check, a, b) || OpenPartsAgree(check, b, a)
    ensures Held(a) <= Held(b)
  {
    forall x | x in Held(a) ensures x in Held(b) {
      var i :| 0 <= i < 3 && a[i] == x;
      EachProofOnce(check, b, check(x).value);
      var j :| 0 <= j < 3 && check(b[j]) == check(x);
      assert b[j] in Held(b);
    }
  }

  /** The validator accepts 200.0 for 200, and the two receipts have different digests in
      general: equal summaries alone do not force equal executions. */
  lemma StatusSpellingNotForced(h: Hashes, proof: Proof, summary: Summary)
    requires SummaryIsValid(proof, summary)
    ensures var x, y := Canonical(h, proof, summary, Int(200)), Canonical(h, proof, summary, Float(200.0));
            x != y && ExecutionIsValid(h, Exact(x)) && ExecutionIsValid(h, Exact(y))
  {
    AcceptedExecutionForced(h, Exact(Canonical(h, proof, summary, Int(200))));
    AcceptedExecutionForced(h, Exact(Canonical(h, proof, summary, Float(200.0))));
  }
}
