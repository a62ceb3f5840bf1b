/** src/app/contracts/scenario_inputs.py: reconciling exposure weights with their components
    under a tolerance, over exact reals. */
module ScenarioInputs {
  import opened Values

  const SCENARIO_ALLOCATION_TOLERANCE := 0.000001
  const SCENARIO_MAX_EXPOSURE_BUCKETS := 16
  const SCENARIO_MAX_EXPOSURE_COMPONENTS := 250

  /** An exposure, or a component: a bucket and a weight. */
  datatype Position = Position(bucket: string, weight: real)

  datatype Verdict =
    | Accepted
    | NoExposures
    | DuplicateBuckets(buckets: set<string>)
    | ExposuresNotFull(total: real)
    | UnknownComponentBuckets(buckets: set<string>)
    | MismatchedBuckets(buckets: set<string>)
    | ComponentsNotFull(total: real)

  function Bucket(p: Position): string {
    Upper(p.bucket)
  }

  function Buckets(ps: seq<Position>): set<string> {
    set i | 0 <= i < |ps| :: Bucket(ps[i])
  }

  function Total(ps: seq<Position>): real {
    if ps == [] then 0.0 else Total(ps[..|ps| - 1]) + ps[|ps| - 1].weight
  }

  function BucketTotal(ps: seq<Position>, bucket: string): real {
    if ps == [] then 0.0
    else BucketTotal(ps[..|ps| - 1], bucket) + if Bucket(ps[|ps| - 1]) == bucket then ps[|ps| - 1].weight else 0.0
  }

  predicate FullAllocation(ps: seq<Position>) {
    Abs(Total(ps) - 1.0) <= SCENARIO_ALLOCATION_TOLERANCE
  }

  predicate Distinct(ps: seq<Position>) {
    forall i, j | 0 <= i < j < |ps| :: Bucket(ps[i]) != Bucket(ps[j])
  }

  function Repeated(ps: seq<Position>): set<string> {
    set i, j | 0 <= i < j < |ps| && Bucket(ps[i]) == Bucket(ps[j]) :: Bucket(ps[i])
  }

  /** The buckets whose component total is too far from their exposure. */
  function Mismatched(exposures: seq<Position>, components: seq<Position>): set<string> {
    set i | 0 <= i < |exposures| && Bucket(exposures[i]) in Buckets(components)
            && Abs(BucketTotal(components, Bucket(exposures[i])) - exposures[i].weight) > SCENARIO_ALLOCATION_TOLERANCE
      :: Bucket(exposures[i])
  }

  predicate Reconciled(exposures: seq<Position>, components: seq<Position>) {
    forall i | 0 <= i < |exposures| && Bucket(exposures[i]) in Buckets(components) ::
      Abs(BucketTotal(components, Bucket(exposures[i])) - exposures[i].weight) <= SCENARIO_ALLOCATION_TOLERANCE
  }

  /** The accepted requests. */
  predicate Acceptable(exposures: seq<Position>, components: seq<Position>) {
    && exposures != [] && Distinct(exposures) && FullAllocation(exposures)
    && (components != [] ==>
          && Buckets(components) <= Buckets(exposures)
          && Reconciled(exposures, components)
          && FullAllocation(components))
  }

  /** What a verdict on the components says holds, and everything checked before it passed. */
  predicate ComponentsVerdictIsTrue(exposures: seq<Position>, components: seq<Position>, verdict: Verdict) {
    match verdict
    case Accepted =>
      Buckets(components) <= Buckets(exposures) && Reconciled(exposures, components) && FullAllocation(components)
    case UnknownComponentBuckets(buckets) =>
      buckets == Buckets(components) - Buckets(exposures) != {}
    case MismatchedBuckets(buckets) =>
      Buckets(components) <= Buckets(exposures) && buckets == Mismatched(exposures, components) != {}
    case ComponentsNotFull(total) =>
      && Buckets(components) <= Buckets(exposures) && Reconciled(exposures, components)
      && !FullAllocation(components) && total == Total(components)
    case _ => false
  }

  /** What a verdict says holds, and everything checked before it passed. */
  predicate VerdictIsTrue(exposures: seq<Position>, components: seq<Position>, verdict: Verdict) {
    match verdict
    case Accepted => Acceptable(exposures, components)
    case NoExposures => exposures == []
    case DuplicateBuckets(buckets) => exposures != [] && buckets == Repeated(exposures) != {}
    case ExposuresNotFull(total) =>
      exposures != [] && Distinct(exposures) && !FullAllocation(exposures) && total == Total(exposures)
    case _ =>
      && exposures != [] && Distinct(exposures) && FullAllocation(exposures) && components != []
      && ComponentsVerdictIsTrue(exposures, components, verdict)
  }

  /** The field constraints checked before the validator runs. */
  predicate FieldsValid(ps: seq<Position>, maximum: nat) {
    |ps| <= maximum && forall i | 0 <= i < |ps| :: 0.0 <= ps[i].weight <= 1.0
  }

  method SumWeights(ps: seq<Position>) returns (total: real)
    ensures total == Total(ps)
  {
    total := 0.0;
    for i := 0 to |ps|
      invariant total == Total(ps[..i])
    {
      total := total + ps[i].weight;
      assert ps[..i + 1][..i] == ps[..i];
    }
    assert ps[..|ps|] == ps;
  }

  method ComponentTotals(components: seq<Position>) returns (totals: map<string, real>)
    ensures totals.Keys == Buckets(components)
    ensures forall bucket | bucket in totals :: totals[bucket] == BucketTotal(components, bucket)
  {
    totals := map[];
    for i := 0 to |components|
      invariant totals.Keys == Buckets(components[..i])
      invariant forall bucket | bucket in totals :: totals[bucket] == BucketTotal(components[..i], bucket)
    {
      var bucket := Bucket(components[i]);
      var before := if bucket in totals then totals[bucket] else 0.0;
      BucketTotalAbsent(components[..i], bucket);
      totals := totals[bucket := before + components[i].weight];
      assert components[..i + 1] == components[..i] + [components[i]];
      BucketsSnoc(components[..i], components[i]);
    }
    assert components[..|components|] == components;
  }

  method ExposureByBucket(exposures: seq<Position>) returns (weights: map<string, real>)
    requires Distinct(exposures)
    ensures weights.Keys == Buckets(exposures)
    ensures forall i | 0 <= i < |exposures| :: weights[Bucket(exposures[i])] == exposures[i].weight
  {
    weights := map[];
    for i := 0 to |exposures|
      invariant weights.Keys == Buckets(exposures[..i])
      invariant forall k | 0 <= k < i ::
                  Bucket(exposures[k]) in weights && weights[Bucket(exposures[k])] == exposures[k].weight
    {
      weights := weights[Bucket(exposures[i]) := exposures[i].weight];
      assert exposures[..i + 1] == exposures[..i] + [exposures[i]];
      BucketsSnoc(exposures[..i], exposures[i]);
    }
    assert exposures[..|exposures|] == exposures;
  }

  function FarApart(totals: map<string, real>, weights: map<string, real>): set<string> {
    set bucket | bucket in totals.Keys && bucket in weights.Keys
                 && Abs(totals[bucket] - weights[bucket]) > SCENARIO_ALLOCATION_TOLERANCE
  }

  lemma FarApartIsMismatched(
      exposures: seq<Position>, components: seq<Position>, totals: map<string, real>, weights: map<string, real>)
    requires totals.Keys == Buckets(components) && weights.Keys == Buckets(exposures)
    requires forall bucket | bucket in totals :: totals[bucket] == BucketTotal(components, bucket)
    requires forall i | 0 <= i < |exposures| :: weights[Bucket(exposures[i])] == exposures[i].weight
    ensures FarApart(totals, weights) == Mismatched(exposures, components)
  {
  }

  /** The checks made when components are supplied. */
  method ValidateComponents(exposures: seq<Position>, components: seq<Position>) returns (verdict: Verdict)
    requires Distinct(exposures)
    ensures verdict.Accepted? <==>
              && Buckets(components) <= Buckets(exposures)
              && Reconciled(exposures, components)
              && FullAllocation(components)
    ensures ComponentsVerdictIsTrue(exposures, components, verdict)
  {
    var totals := ComponentTotals(components);
    var weights := ExposureByBucket(exposures);
    var unknown := totals.Keys - weights.Keys;
    if unknown != {} {
      return UnknownComponentBuckets(unknown);
    }
    assert forall bucket | bucket in totals.Keys :: bucket in weights.Keys || bucket in unknown;
    var mismatched := FarApart(totals, weights);
    FarApartIsMismatched(exposures, components, totals, weights);
    MismatchedEmpty(exposures, components);
    if mismatched != {} {
      return MismatchedBuckets(mismatched);
    }
    var total := SumWeights(components);
    if Abs(total - 1.0) > SCENARIO_ALLOCATION_TOLERANCE {
      return ComponentsNotFull(total);
    }
    return Accepted;
  }

  method ValidateExposures(exposures: seq<Position>, components: seq<Position>) returns (verdict: Verdict)
    ensures verdict.Accepted? <==> Acceptable(exposures, components)
    ensures VerdictIsTrue(exposures, components, verdict)
  {
    if exposures == [] {
      return NoExposures;
    }
    RepeatedEmpty(exposures);
    var duplicates := Repeated(exposures);
    if duplicates != {} {
      return DuplicateBuckets(duplicates);
    }
    var total := SumWeights(exposures);
    if Abs(total - 1.0) > SCENARIO_ALLOCATION_TOLERANCE {
      return ExposuresNotFull(total);
    }
    if components != [] {
      verdict := ValidateComponents(exposures, components);
      return verdict;
    }
    return Accepted;
  }

  /** A request has one true verdict: no refusal can hide another. */
  lemma VerdictDetermined(exposures: seq<Position>, components: seq<Position>, v: Verdict, w: Verdict)
    requires VerdictIsTrue(exposures, components, v) && VerdictIsTrue(exposures, components, w)
    ensures v == w
  {
    RepeatedEmpty(exposures);
    MismatchedEmpty(exposures, components);
  }

  lemma RepeatedEmpty(ps: seq<Position>)
    ensures Repeated(ps) == {} <==> Distinct(ps)
  {
    if !Distinct(ps) {
      var i, j :| 0 <= i < j < |ps| && Bucket(ps[i]) == Bucket(ps[j]);
      assert Bucket(ps[i]) in Repeated(ps);
    }
  }

  lemma BucketsSnoc(ps: seq<Position>, p: Position)
    ensures Buckets(ps + [p]) == Buckets(ps) + {Bucket(p)}
  {
    var qs := ps + [p];
    forall b | b in Buckets(ps) + {Bucket(p)} ensures b in Buckets(qs) {
      if b == Bucket(p) {
        assert qs[|ps|] == p;
      } else {
        var i :| 0 <= i < |ps| && Bucket(ps[i]) == b;
        assert qs[i] == ps[i];
      }
    }
  }

  lemma {:induction false} BucketTotalAbsent(ps: seq<Position>, bucket: string)
    ensures bucket !in Buckets(ps) ==> BucketTotal(ps, bucket) == 0.0
  {
    if ps != [] {
      BucketTotalAbsent(ps[..|ps| - 1], bucket);
      assert Bucket(ps[|ps| - 1]) in Buckets(ps);
      assert forall b | b in Buckets(ps[..|ps| - 1]) :: b in Buckets(ps);
    }
  }

  lemma MismatchedEmpty(exposures: seq<Position>, components: seq<Position>)
    ensures Mismatched(exposures, components) == {} <==> Reconciled(exposures, components)
  {
    if !Reconciled(exposures, components) {
      var i :| 0 <= i < |exposures| && Bucket(exposures[i]) in Buckets(components)
               && Abs(BucketTotal(components, Bucket(exposures[i])) - exposures[i].weight)
                  > SCENARIO_ALLOCATION_TOLERANCE;
      assert Bucket(exposures[i]) in Mismatched(exposures, components);
    }
  }

  // ---------------------------------------------------------------- sums

  function Sum(xs: seq<real>): real {
    if xs == [] then 0.0 else Sum(xs[..|xs| - 1]) + xs[|xs| - 1]
  }

  function Abs(x: real): real {
    if x < 0.0 then -x else x
  }

  lemma {:induction false} SumGap(xs: seq<real>, ys: seq<real>, bounds: seq<real>)
    requires |xs| == |ys| == |bounds|
    requires forall i | 0 <= i < |xs| :: Abs(xs[i] - ys[i]) <= bounds[i]
    ensures Abs(Sum(xs) - Sum(ys)) <= Sum(bounds)
  {
    if xs != [] {
      SumGap(xs[..|xs| - 1], ys[..|ys| - 1], bounds[..|bounds| - 1]);
    }
  }

  lemma {:induction false} SumFloor(xs: seq<real>, ys: seq<real>, us: seq<real>, bounds: seq<real>)
    requires |xs| == |ys| == |us| == |bounds|
    requires forall i | 0 <= i < |xs| :: us[i] + us[i] - bounds[i] <= xs[i] - ys[i]
    ensures Sum(us) + Sum(us) - Sum(bounds) <= Sum(xs) - Sum(ys)
  {
    if xs != [] {
      SumFloor(xs[..|xs| - 1], ys[..|ys| - 1], us[..|us| - 1], bounds[..|bounds| - 1]);
    }
  }

  lemma {:induction false} SumAdds(xs: seq<real>, ys: seq<real>, zs: seq<real>)
    requires |xs| == |ys| == |zs|
    requires forall i | 0 <= i < |xs| :: zs[i] == xs[i] + ys[i]
    ensures Sum(zs) == Sum(xs) + Sum(ys)
  {
    if xs != [] {
      SumAdds(xs[..|xs| - 1], ys[..|ys| - 1], zs[..|zs| - 1]);
    }
  }

  lemma {:induction false} SumZero(xs: seq<real>)
    requires forall i | 0 <= i < |xs| :: xs[i] == 0.0
    ensures Sum(xs) == 0.0
  {
    if xs != [] {
      SumZero(xs[..|xs| - 1]);
    }
  }

  // ---------------------------------------------------------------- what acceptance guarantees

  /** The weight of the exposures in buckets that have no component. */
  function Uncovered(exposures: seq<Position>, covered: set<string>): real {
    Sum(UncoveredParts(exposures, covered))
  }

  function UncoveredParts(exposures: seq<Position>, covered: set<string>): seq<real> {
    seq(|exposures|, i requires 0 <= i < |exposures| =>
      if Bucket(exposures[i]) in covered then 0.0 else exposures[i].weight)
  }

  /** What a weight in a bucket gains or loses. */
  type Move = (string, real) -> real

  ghost predicate AddsAt(move: Move, bucket: string, x: real, y: real) {
    move(bucket, x + y) == move(bucket, x) + move(bucket, y)
  }

  ghost predicate ShrinksAt(move: Move, bucket: string, x: real, y: real) {
    Abs(move(bucket, x) - move(bucket, y)) <= Abs(x - y)
  }

  /** Adding weights adds moves, and a move is never larger than the weight that makes it. */
  ghost predicate Bounded(move: Move) {
    && (forall b, x, y :: AddsAt(move, b, x, y))
    && (forall b, x, y :: ShrinksAt(move, b, x, y))
  }

  function Moves(ps: seq<Position>, move: Move): seq<real> {
    seq(|ps|, i requires 0 <= i < |ps| => move(Bucket(ps[i]), ps[i].weight))
  }

  /** The moves of the components, added up bucket by bucket along the exposures. */
  function GroupMoves(exposures: seq<Position>, components: seq<Position>, move: Move): seq<real> {
    seq(|exposures|, i requires 0 <= i < |exposures| =>
      move(Bucket(exposures[i]), BucketTotal(components, Bucket(exposures[i]))))
  }

  /** The tolerance allowed for k buckets. */
  function Slack(k: nat): real {
    k as real * 0.000001
  }

  /** How far each exposure may be from its components. */
  function Allowances(exposures: seq<Position>, covered: set<string>): seq<real> {
    seq(|exposures|, i requires 0 <= i < |exposures| =>
      if Bucket(exposures[i]) in covered then Slack(1) else exposures[i].weight)
  }

  lemma InitBuckets(ps: seq<Position>)
    requires ps != [] && Distinct(ps)
    ensures Distinct(ps[..|ps| - 1])
    ensures Buckets(ps) == Buckets(ps[..|ps| - 1]) + {Bucket(ps[|ps| - 1])}
    ensures Bucket(ps[|ps| - 1]) !in Buckets(ps[..|ps| - 1])
  {
    assert ps == ps[..|ps| - 1] + [ps[|ps| - 1]];
    BucketsSnoc(ps[..|ps| - 1], ps[|ps| - 1]);
  }

  /** A value credited to one bucket is counted once. */
  lemma {:induction false} SumCredit(exposures: seq<Position>, bucket: string, value: real, credits: seq<real>)
    requires Distinct(exposures) && |credits| == |exposures|
    requires forall i | 0 <= i < |exposures| :: credits[i] == if Bucket(exposures[i]) == bucket then value else 0.0
    ensures Sum(credits) == if bucket in Buckets(exposures) then value else 0.0
  {
    if exposures != [] {
      InitBuckets(exposures);
      SumCredit(exposures[..|exposures| - 1], bucket, value, credits[..|credits| - 1]);
    }
  }

  /** Adding up bucket by bucket is adding up component by component. */
  lemma {:induction false} GroupedMoves(exposures: seq<Position>, components: seq<Position>, move: Move)
    requires Bounded(move) && Distinct(exposures) && Buckets(components) <= Buckets(exposures)
    ensures Sum(GroupMoves(exposures, components, move)) == Sum(Moves(components, move))
  {
    var grouped := GroupMoves(exposures, components, move);
    if components == [] {
      NothingGrouped(exposures, move);
    } else {
      var init := components[..|components| - 1];
      var last := components[|components| - 1];
      assert components == init + [last];
      BucketsSnoc(init, last);
      GroupedMoves(exposures, init, move);
      var value := move(Bucket(last), last.weight);
      var credits := seq(|exposures|, i requires 0 <= i < |exposures| =>
        if Bucket(exposures[i]) == Bucket(last) then value else 0.0);
      SumCredit(exposures, Bucket(last), value, credits);
      forall i | 0 <= i < |exposures| ensures grouped[i] == GroupMoves(exposures, init, move)[i] + credits[i] {
        GroupMoveSnoc(Bucket(exposures[i]), init, last, move);
      }
      SumAdds(GroupMoves(exposures, init, move), credits, grouped);
      assert Moves(components, move)[..|init|] == Moves(init, move);
    }
  }

  lemma MoveNothing(bucket: string, move: Move)
    requires Bounded(move)
    ensures move(bucket, 0.0) == 0.0
  {
    assert AddsAt(move, bucket, 0.0, 0.0);
    assert 0.0 + 0.0 == 0.0;
  }

  lemma NothingGrouped(exposures: seq<Position>, move: Move)
    requires Bounded(move)
    ensures Sum(GroupMoves(exposures, [], move)) == 0.0
  {
    forall i | 0 <= i < |exposures| ensures GroupMoves(exposures, [], move)[i] == 0.0 {
      MoveNothing(Bucket(exposures[i]), move);
      assert BucketTotal([], Bucket(exposures[i])) == 0.0;
    }
    SumZero(GroupMoves(exposures, [], move));
  }

  lemma GroupMoveSnoc(bucket: string, init: seq<Position>, last: Position, move: Move)
    requires Bounded(move)
    ensures move(bucket, BucketTotal(init + [last], bucket))
         == move(bucket, BucketTotal(init, bucket)) + if bucket == Bucket(last) then move(bucket, last.weight) else 0.0
  {
    assert (init + [last])[..|init|] == init;
    var before := BucketTotal(init, bucket);
    if bucket == Bucket(last) {
      assert BucketTotal(init + [last], bucket) == before + last.weight;
      assert AddsAt(move, bucket, before, last.weight);
    } else {
      assert BucketTotal(init + [last], bucket) == before + 0.0;
    }
  }

  /** Along the exposures, the two moved totals drift apart by at most the allowances. */
  lemma MoveGap(exposures: seq<Position>, components: seq<Position>, move: Move)
    requires Bounded(move) && Reconciled(exposures, components)
    requires forall i | 0 <= i < |exposures| :: exposures[i].weight >= 0.0
    ensures Abs(Sum(Moves(exposures, move)) - Sum(GroupMoves(exposures, components, move)))
            <= Sum(Allowances(exposures, Buckets(components)))
  {
    var xs, ys := Moves(exposures, move), GroupMoves(exposures, components, move);
    var bounds := Allowances(exposures, Buckets(components));
    forall i | 0 <= i < |exposures| ensures Abs(xs[i] - ys[i]) <= bounds[i] {
      var bucket := Bucket(exposures[i]);
      BucketTotalAbsent(components, bucket);
      assert ShrinksAt(move, bucket, exposures[i].weight, BucketTotal(components, bucket));
    }
    SumGap(xs, ys, bounds);
  }

  /** The allowances: one tolerance per covered bucket, and the uncovered weight. */
  lemma {:induction false} AllowancesAddUp(exposures: seq<Position>, covered: set<string>)
    requires Distinct(exposures)
    ensures Sum(Allowances(exposures, covered)) == Slack(|Buckets(exposures) * covered|) + Uncovered(exposures, covered)
  {
    if exposures != [] {
      var init := exposures[..|exposures| - 1];
      AllowancesAddUp(init, covered);
      CountCovered(exposures, covered);
      assert Allowances(exposures, covered)[..|init|] == Allowances(init, covered);
      assert UncoveredParts(exposures, covered)[..|init|] == UncoveredParts(init, covered);
    }
  }

  lemma CountCovered(exposures: seq<Position>, covered: set<string>)
    requires exposures != [] && Distinct(exposures)
    ensures |Buckets(exposures) * covered|
         == |Buckets(exposures[..|exposures| - 1]) * covered|
            + if Bucket(exposures[|exposures| - 1]) in covered then 1 else 0
  {
    InitBuckets(exposures);
    var before := Buckets(exposures[..|exposures| - 1]) * covered;
    var b := Bucket(exposures[|exposures| - 1]);
    if b in covered {
      assert Buckets(exposures) * covered == before + {b};
    } else {
      assert Buckets(exposures) * covered == before;
    }
  }

  /** No shock: a weight counts as itself. */
  function Identity(): Move {
    (bucket, weight) => weight
  }

  lemma {:induction false} IdentityIsTotal(ps: seq<Position>)
    ensures Sum(Moves(ps, Identity())) == Total(ps)
  {
    if ps != [] {
      IdentityIsTotal(ps[..|ps| - 1]);
      assert Moves(ps, Identity())[..|ps| - 1] == Moves(ps[..|ps| - 1], Identity());
    }
  }

  /** What the exposures hold beyond their components covers the uncovered weight, up to one
      tolerance per covered bucket. */
  lemma UncoveredGap(exposures: seq<Position>, components: seq<Position>)
    requires Reconciled(exposures, components) && Distinct(exposures)
    ensures Uncovered(exposures, Buckets(components))
            <= Total(exposures) - Sum(GroupMoves(exposures, components, Identity()))
               + Slack(|Buckets(exposures) * Buckets(components)|)
  {
    var covered := Buckets(components);
    var xs, ys := Moves(exposures, Identity()), GroupMoves(exposures, components, Identity());
    var us, bounds := UncoveredParts(exposures, covered), Allowances(exposures, covered);
    forall i | 0 <= i < |exposures| ensures us[i] + us[i] - bounds[i] <= xs[i] - ys[i] {
      BucketTotalAbsent(components, Bucket(exposures[i]));
      assert xs[i] == exposures[i].weight && ys[i] == BucketTotal(components, Bucket(exposures[i]));
    }
    SumFloor(xs, ys, us, bounds);
    IdentityIsTotal(exposures);
    AllowancesAddUp(exposures, covered);
  }

  /** In an accepted request with components over k buckets, the exposure buckets without a
      component carry at most (k + 2) tolerances of weight. */
  lemma UncoveredWeightBound(exposures: seq<Position>, components: seq<Position>)
    requires Acceptable(exposures, components) && components != []
    ensures Uncovered(exposures, Buckets(components)) <= Slack(|Buckets(components)| + 2)
  {
    assert Buckets(exposures) * Buckets(components) == Buckets(components);
    UncoveredGap(exposures, components);
    GroupedMoves(exposures, components, Identity());
    IdentityIsTotal(components);
  }

  // ---------------------------------------------------------------- shocks

  /** Each bucket moves by its own shock. */
  function ByShock(shock: string -> real): Move {
    (bucket, weight) => shock(bucket) * weight
  }

  function Shocked(ps: seq<Position>, shock: string -> real): real {
    Sum(Moves(ps, ByShock(shock)))
  }

  lemma ProductSign(a: real, b: real)
    requires a >= 0.0 && b >= 0.0
    ensures a * b >= 0.0
  {
  }

  lemma ShockShrinks(s: real, x: real)
    requires -1.0 <= s <= 1.0
    ensures Abs(s * x) <= Abs(x)
  {
    ProductSign(1.0 - s, Abs(x));
    ProductSign(1.0 + s, Abs(x));
    assert (1.0 - s) * Abs(x) == Abs(x) - s * Abs(x);
    assert (1.0 + s) * Abs(x) == Abs(x) + s * Abs(x);
    assert s * -x == -(s * x);
  }

  lemma ShocksAreBounded(shock: string -> real)
    requires forall b :: -1.0 <= shock(b) <= 1.0
    ensures Bounded(ByShock(shock))
  {
    var move := ByShock(shock);
    forall b, x, y ensures AddsAt(move, b, x, y) && ShrinksAt(move, b, x, y) {
      ShockShrinks(shock(b), x - y);
      assert shock(b) * (x - y) == shock(b) * x - shock(b) * y;
      assert shock(b) * (x + y) == shock(b) * x + shock(b) * y;
    }
  }

  /** In an accepted request with components over k buckets, no shock of magnitude at most one
      per bucket separates the two views of the portfolio by more than (2k + 2) tolerances. */
  lemma ShockedTotalsAgree(exposures: seq<Position>, components: seq<Position>, shock: string -> real)
    requires Acceptable(exposures, components) && components != []
    requires FieldsValid(exposures, SCENARIO_MAX_EXPOSURE_BUCKETS)
    requires forall b :: -1.0 <= shock(b) <= 1.0
    ensures Abs(Shocked(exposures, shock) - Shocked(components, shock)) <= Slack(2 * |Buckets(components)| + 2)
  {
    assert Buckets(exposures) * Buckets(components) == Buckets(components);
    ShocksAreBounded(shock);
    UncoveredWeightBound(exposures, components);
    MoveGap(exposures, components, ByShock(shock));
    GroupedMoves(exposures, components, ByShock(shock));
    AllowancesAddUp(exposures, Buckets(components));
  }

  // ---------------------------------------------------------------- the bounds are attained

  /** The i-th of a family of distinct buckets. */
  function Name(i: nat): string {
    seq(i, _ => 'A')
  }

  lemma NameOf(i: nat, weight: real)
    ensures Bucket(Position(Name(i), weight)) == Name(i) && |Name(i)| == i
  {
  }

  /** Covered bucket i of the extreme request: all the weight in bucket 0. */
  function CoveredExposure(k: nat, i: nat): Position {
    Position(Name(i), if i == 0 then 1.0 - Slack(k + 1) else 0.0)
  }

  function CoveredExposures(k: nat, n: nat): seq<Position> {
    seq(n, i requires 0 <= i < n => CoveredExposure(k, i))
  }

  /** k covered buckets, and one bucket with no component. */
  function ExtremeExposures(k: nat): seq<Position> {
    CoveredExposures(k, k) + [Position(Name(k), Slack(k + 2))]
  }

  function ExtremeComponent(k: nat, i: nat): Position {
    Position(Name(i), CoveredExposure(k, i).weight + Slack(1))
  }

  /** Each component one tolerance above its exposure. */
  function ExtremeComponents(k: nat, n: nat): seq<Position> {
    seq(n, i requires 0 <= i < n => ExtremeComponent(k, i))
  }

  /** Everything falls except the bucket with no component, which rises. */
  function ExtremeShock(k: nat): string -> real {
    bucket => if bucket == Name(k) then 1.0 else -1.0
  }

  lemma NameCovered(ps: seq<Position>, n: nat)
    requires |ps| == n && forall i | 0 <= i < n :: Bucket(ps[i]) == Name(i)
    ensures Distinct(ps) && |Buckets(ps)| == n
    ensures forall b :: b in Buckets(ps) <==> |b| < n && b == Name(|b|)
  {
    forall i, j | 0 <= i < j < n ensures Bucket(ps[i]) != Bucket(ps[j]) {
      assert |Name(i)| == i && |Name(j)| == j;
    }
    DistinctBuckets(ps);
    forall b | |b| < n && b == Name(|b|) ensures b in Buckets(ps) {
      assert Bucket(ps[|b|]) == b;
    }
  }

  lemma {:induction false} DistinctBuckets(ps: seq<Position>)
    requires Distinct(ps)
    ensures |Buckets(ps)| == |ps|
  {
    if ps != [] {
      InitBuckets(ps);
      DistinctBuckets(ps[..|ps| - 1]);
    } else {
      assert Buckets(ps) == {};
    }
  }

  /** A bucket that occurs once has the weight of its position. */
  lemma {:induction false} BucketTotalOnce(ps: seq<Position>, i: nat)
    requires Distinct(ps) && i < |ps|
    ensures BucketTotal(ps, Bucket(ps[i])) == ps[i].weight
  {
    var init := ps[..|ps| - 1];
    InitBuckets(ps);
    if i < |ps| - 1 {
      BucketTotalOnce(init, i);
    } else {
      BucketTotalAbsent(init, Bucket(ps[i]));
    }
  }

  lemma SlackAdds(m: nat, n: nat)
    ensures Slack(m + n) == Slack(m) + Slack(n)
  {
  }

  lemma {:induction false} ExtremeTotals(k: nat, n: nat)
    requires 0 < n <= k
    ensures Total(CoveredExposures(k, n)) == 1.0 - Slack(k + 1)
    ensures Total(ExtremeComponents(k, n)) == 1.0 - Slack(k + 1) + Slack(n)
  {
    assert CoveredExposures(k, n)[..n - 1] == CoveredExposures(k, n - 1);
    assert ExtremeComponents(k, n)[..n - 1] == ExtremeComponents(k, n - 1);
    SlackAdds(n - 1, 1);
    if n > 1 {
      ExtremeTotals(k, n - 1);
    }
  }

  /** The same total weight, falling. */
  lemma {:induction false} ShockedDown(ps: seq<Position>, shock: string -> real)
    requires forall i | 0 <= i < |ps| :: shock(Bucket(ps[i])) == -1.0
    ensures Shocked(ps, shock) == -Total(ps)
  {
    if ps != [] {
      ShockedDown(ps[..|ps| - 1], shock);
      assert Moves(ps, ByShock(shock))[..|ps| - 1] == Moves(ps[..|ps| - 1], ByShock(shock));
    }
  }

  lemma ExtremeBuckets(k: nat)
    requires 0 < k
    ensures var exposures, components := ExtremeExposures(k), ExtremeComponents(k, k);
            && Distinct(exposures) && Distinct(components) && |Buckets(components)| == k
            && (forall i | 0 <= i <= k ::
                  Bucket(exposures[i]) == Name(i) && (i < k <==> Name(i) in Buckets(components)))
            && Buckets(components) <= Buckets(exposures)
  {
    var exposures, components := ExtremeExposures(k), ExtremeComponents(k, k);
    forall i | 0 <= i <= k
      ensures Bucket(exposures[i]) == Name(i) && (i < k ==> Bucket(components[i]) == Name(i)) && |Name(i)| == i
    {
      NameOf(i, exposures[i].weight);
      if i < k {
        NameOf(i, components[i].weight);
      }
    }
    NameCovered(exposures, k + 1);
    NameCovered(components, k);
  }

  lemma ExtremeReconciled(k: nat)
    requires 0 < k
    ensures Reconciled(ExtremeExposures(k), ExtremeComponents(k, k))
  {
    var exposures, components := ExtremeExposures(k), ExtremeComponents(k, k);
    ExtremeBuckets(k);
    forall i | 0 <= i < |exposures| && Bucket(exposures[i]) in Buckets(components)
      ensures Abs(BucketTotal(components, Bucket(exposures[i])) - exposures[i].weight) <= SCENARIO_ALLOCATION_TOLERANCE
    {
      NameOf(i, components[i].weight);
      BucketTotalOnce(components, i);
    }
  }

  lemma ExtremeFull(k: nat)
    requires 0 < k
    ensures FullAllocation(ExtremeExposures(k)) && FullAllocation(ExtremeComponents(k, k))
  {
    ExtremeTotals(k, k);
    SlackAdds(k + 1, 1);
    SlackAdds(k, 1);
    assert ExtremeExposures(k)[..k] == CoveredExposures(k, k);
  }

  lemma ExtremeAcceptable(k: nat)
    requires 0 < k
    ensures Acceptable(ExtremeExposures(k), ExtremeComponents(k, k))
  {
    ExtremeBuckets(k);
    ExtremeReconciled(k);
    ExtremeFull(k);
  }

  lemma {:induction false} UncoveredNothing(exposures: seq<Position>, covered: set<string>)
    requires forall i | 0 <= i < |exposures| :: Bucket(exposures[i]) in covered
    ensures Uncovered(exposures, covered) == 0.0
  {
    SumZero(UncoveredParts(exposures, covered));
  }

  lemma ExtremeUncovered(k: nat)
    requires 0 < k
    ensures Uncovered(ExtremeExposures(k), Buckets(ExtremeComponents(k, k))) == Slack(k + 2)
  {
    var exposures, covered := ExtremeExposures(k), Buckets(ExtremeComponents(k, k));
    ExtremeBuckets(k);
    UncoveredNothing(exposures[..k], covered);
    assert UncoveredParts(exposures, covered)[..k] == UncoveredParts(exposures[..k], covered);
  }

  lemma ExtremeFalls(k: nat, ps: seq<Position>)
    requires |ps| <= k && forall i | 0 <= i < |ps| :: Bucket(ps[i]) == Name(i)
    ensures Shocked(ps, ExtremeShock(k)) == -Total(ps)
  {
    assert |Name(k)| == k && forall i | 0 <= i < |ps| :: |Name(i)| == i;
    ShockedDown(ps, ExtremeShock(k));
  }

  lemma ExtremeShocked(k: nat)
    requires 0 < k
    ensures Shocked(ExtremeExposures(k), ExtremeShock(k)) == Slack(k + 2) - (1.0 - Slack(k + 1))
    ensures Shocked(ExtremeComponents(k, k), ExtremeShock(k)) == -(1.0 - Slack(1))
  {
    var exposures, components, shock := ExtremeExposures(k), ExtremeComponents(k, k), ExtremeShock(k);
    var init := exposures[..k];
    assert init == CoveredExposures(k, k);
    forall i | 0 <= i < k ensures Bucket(init[i]) == Name(i) && Bucket(components[i]) == Name(i) {
      NameOf(i, init[i].weight);
      NameOf(i, components[i].weight);
    }
    ExtremeTotals(k, k);
    SlackAdds(k, 1);
    ExtremeFalls(k, init);
    ExtremeFalls(k, components);
    NameOf(k, Slack(k + 2));
    assert Moves(exposures, ByShock(shock))[..k] == Moves(init, ByShock(shock));
  }

  /** Both bounds are attained, for every number of component buckets a request can have beside
      one that has no component. */
  lemma BoundsAttained(k: nat)
    requires 0 < k < SCENARIO_MAX_EXPOSURE_BUCKETS
    ensures var exposures, components, shock := ExtremeExposures(k), ExtremeComponents(k, k), ExtremeShock(k);
            && FieldsValid(exposures, SCENARIO_MAX_EXPOSURE_BUCKETS)
            && FieldsValid(components, SCENARIO_MAX_EXPOSURE_COMPONENTS)
            && Acceptable(exposures, components)
            && |Buckets(components)| == k
            && Uncovered(exposures, Buckets(components)) == Slack(k + 2)
            && Shocked(exposures, shock) - Shocked(components, shock) == Slack(2 * k + 2)
  {
    ExtremeBuckets(k);
    ExtremeAcceptable(k);
    ExtremeUncovered(k);
    ExtremeShocked(k);
  }
}
