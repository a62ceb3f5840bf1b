/** src/app/contracts/stateful_returns_source_evidence.py: the coverage ratio against the
    coverage counts, over exact reals. */
module CoverageEvidence {

  /** The counts and the ratio, with the field constraints already checked. */
  datatype Evidence = Evidence(requested: nat, returned: nat, missing: nat, ratio: real)

  datatype Verdict = Accepted | CountsDoNotReconcile | RatioDoesNotReconcile

  const GRID := 100_000_000

  /** Python's round to the nearest integer, ties to even. */
  function RoundHalfEven(y: real): int {
    var below := y.Floor;
    var rest := y - below as real;
    if rest < 0.5 || (rest == 0.5 && below % 2 == 0) then below else below + 1
  }

  /** round(x, 8) */
  function Round8(x: real): real {
    RoundHalfEven(x * GRID as real) as real / GRID as real
  }

  function Abs(x: real): real {
    if x < 0.0 then -x else x
  }

  function ExpectedRatio(requested: nat, returned: nat): real {
    if requested == 0 then 1.0 else returned as real / requested as real
  }

  function ValidateCoverage(e: Evidence): Verdict {
    if e.requested != e.returned + e.missing then CountsDoNotReconcile
    else
      var expected := ExpectedRatio(e.requested, e.returned);
      if Abs(e.ratio - expected) > 0.000000000001 && e.ratio != Round8(expected) then RatioDoesNotReconcile
      else Accepted
  }

  /** An accepted evidence with these counts and this ratio. */
  predicate Accepts(requested: nat, returned: nat, ratio: real) {
    && returned <= requested && 0.0 <= ratio <= 1.0
    && ValidateCoverage(Evidence(requested, returned, requested - returned, ratio)) == Accepted
  }

  // ---------------------------------------------------------------- exactly what is accepted

  /** A nearest integer, the even one of two. */
  predicate NearestEven(g: int, y: real) {
    -0.5 < y - g as real < 0.5 || (Abs(y - g as real) == 0.5 && g % 2 == 0)
  }

  lemma RoundsExactly(y: real, g: int)
    ensures RoundHalfEven(y) == g <==> NearestEven(g, y)
  {
    var below := y.Floor;
    if NearestEven(g, y) {
      assert g == below || g == below + 1;
    }
  }

  function Eighths(g: int): real {
    g as real / 100_000_000.0
  }

  /** The ratio is a whole number of eighth decimals, the nearest to the exact one. */
  ghost predicate OnGrid(ratio: real, exact: real) {
    exists g: int :: ratio == Eighths(g) && NearestEven(g, exact * 100_000_000.0)
  }

  lemma RoundedIsGridPoint(exact: real)
    ensures Round8(exact) == Eighths(RoundHalfEven(exact * 100_000_000.0))
  {
  }

  lemma OnGridExactly(ratio: real, exact: real)
    ensures OnGrid(ratio, exact) <==> ratio == Round8(exact)
  {
    var nearest := RoundHalfEven(exact * 100_000_000.0);
    RoundedIsGridPoint(exact);
    RoundsExactly(exact * 100_000_000.0, nearest);
    if OnGrid(ratio, exact) {
      var g: int :| ratio == Eighths(g) && NearestEven(g, exact * 100_000_000.0);
      RoundsExactly(exact * 100_000_000.0, g);
    }
  }

  /** Evidence is accepted exactly when its counts add up and its ratio is the exact one within
      1e-12 or that one rounded to eight decimals; with no requests, when its ratio is 1 within
      1e-12. */
  lemma AcceptedExactly(e: Evidence)
    ensures ValidateCoverage(e) == Accepted
       <==> && e.requested == e.returned + e.missing
            && if e.requested == 0 then -0.000000000001 <= e.ratio - 1.0 <= 0.000000000001
               else
                 var exact := e.returned as real / e.requested as real;
                 -0.000000000001 <= e.ratio - exact <= 0.000000000001 || OnGrid(e.ratio, exact)
  {
    OnGridExactly(e.ratio, ExpectedRatio(e.requested, e.returned));
    assert Round8(1.0) == 1.0;
  }

  // ---------------------------------------------------------------- rounding

  lemma RoundNear(y: real)
    ensures Abs(RoundHalfEven(y) as real - y) <= 0.5
  {
  }

  lemma RoundMonotone(a: real, b: real)
    requires a <= b
    ensures RoundHalfEven(a) <= RoundHalfEven(b)
  {
  }

  lemma Round8Near(x: real)
    ensures Abs(Round8(x) - x) <= 0.000000005
  {
    RoundNear(x * GRID as real);
  }

  /** The grid point a count is rounded to. */
  function GridPoint(requested: nat, returned: nat): int
    requires requested > 0
  {
    RoundHalfEven(ExpectedRatio(requested, returned) * GRID as real)
  }

  lemma RatioTimes(requested: nat, returned: nat)
    requires requested > 0
    ensures ExpectedRatio(requested, returned) * requested as real == returned as real
  {
  }

  lemma Scaled(a: real, b: real, n: real)
    requires a > b && n > 0.0
    ensures a * n > b * n
  {
    assert (a - b) * n > 0.0;
  }

  lemma RatioOrder(requested: nat, a: nat, b: nat)
    requires requested > 0 && a <= b
    ensures ExpectedRatio(requested, a) <= ExpectedRatio(requested, b)
    ensures ExpectedRatio(requested, 0) == 0.0 && ExpectedRatio(requested, requested) == 1.0
  {
    var n := requested as real;
    var x, y := ExpectedRatio(requested, a), ExpectedRatio(requested, b);
    RatioTimes(requested, a);
    RatioTimes(requested, b);
    if x > y {
      Scaled(x, y, n);
    }
  }

  /** The ratio gap between two counts, times the number of requests, is the count gap. */
  lemma RatioGap(requested: nat, a: nat, b: nat, gap: real)
    requires requested > 0 && gap >= 0.0
    requires Abs(ExpectedRatio(requested, a) - ExpectedRatio(requested, b)) <= gap
    ensures Abs(a as real - b as real) <= gap * requested as real
  {
    var n := requested as real;
    var d := ExpectedRatio(requested, a) - ExpectedRatio(requested, b);
    RatioTimes(requested, a);
    RatioTimes(requested, b);
    assert d * n == a as real - b as real;
    assert (gap - d) * n >= 0.0 && (gap + d) * n >= 0.0;
  }

  // ---------------------------------------------------------------- what acceptance guarantees

  lemma AcceptedRatioIsClose(requested: nat, returned: nat, ratio: real)
    requires Accepts(requested, returned, ratio)
    ensures Abs(ratio - ExpectedRatio(requested, returned)) <= 0.000000005
  {
    Round8Near(ExpectedRatio(requested, returned));
  }

  /** The ratio tells the counts apart: no ratio is accepted with two different counts. */
  ghost predicate RatioDeterminesCount(requested: nat) {
    forall a: nat, b: nat, ratio | Accepts(requested, a, ratio) && Accepts(requested, b, ratio) :: a == b
  }

  /** At most one of two counts sharing a ratio can come from the exact form. */
  lemma ExactFormSeparates(requested: nat, a: nat, b: nat, ratio: real)
    requires 0 < requested <= GRID && Accepts(requested, a, ratio) && Accepts(requested, b, ratio)
    requires Abs(ratio - ExpectedRatio(requested, a)) <= 0.000000000001
    ensures a == b
  {
    AcceptedRatioIsClose(requested, b, ratio);
    RatioGap(requested, a, b, 0.000000005001);
    assert 0.000000005001 * requested as real <= 0.000000005001 * 100000000.0;
  }

  lemma RoundedFormSeparates(requested: nat, a: nat, b: nat)
    requires 0 < requested <= GRID && GridPoint(requested, a) == GridPoint(requested, b)
    ensures a == b
  {
    var x, y := ExpectedRatio(requested, a) * GRID as real, ExpectedRatio(requested, b) * GRID as real;
    if requested == GRID {
      RatioTimes(requested, a);
      RatioTimes(requested, b);
      assert x == a as real && y == b as real;
    } else {
      RoundNear(x);
      RoundNear(y);
      assert Abs(x - y) <= 1.0;
      RatioGap(requested, a, b, 0.00000001);
      assert 0.00000001 * requested as real < 1.0;
    }
  }

  lemma SameGridPoint(x: real, y: real)
    requires Round8(x) == Round8(y)
    ensures RoundHalfEven(x * GRID as real) == RoundHalfEven(y * GRID as real)
  {
  }

  lemma SmallRequestsDetermined(requested: nat)
    requires requested <= GRID
    ensures RatioDeterminesCount(requested)
  {
    forall a: nat, b: nat, ratio | Accepts(requested, a, ratio) && Accepts(requested, b, ratio) ensures a == b {
      if requested > 0 {
        if Abs(ratio - ExpectedRatio(requested, a)) <= 0.000000000001 {
          ExactFormSeparates(requested, a, b, ratio);
        } else if Abs(ratio - ExpectedRatio(requested, b)) <= 0.000000000001 {
          ExactFormSeparates(requested, b, a, ratio);
        } else {
          SameGridPoint(ExpectedRatio(requested, a), ExpectedRatio(requested, b));
          RoundedFormSeparates(requested, a, b);
        }
      }
    }
  }

  /** If every count up to n had a grid point of its own, the n-th would be at least n. */
  lemma {:induction false} GridPointsClimb(requested: nat, n: nat)
    requires 0 < requested && n <= requested
    requires forall r: nat | r < n :: GridPoint(requested, r) != GridPoint(requested, r + 1)
    ensures GridPoint(requested, n) >= n
  {
    RatioOrder(requested, 0, n);
    if n > 0 {
      GridPointsClimb(requested, n - 1);
      RatioOrder(requested, n - 1, n);
      RoundMonotone(ExpectedRatio(requested, n - 1) * GRID as real, ExpectedRatio(requested, n) * GRID as real);
    }
  }

  lemma RoundedAccepted(requested: nat, returned: nat)
    requires 0 < requested && returned <= requested
    ensures Accepts(requested, returned, GridPoint(requested, returned) as real / GRID as real)
  {
    RatioOrder(requested, 0, returned);
    RatioOrder(requested, returned, requested);
    RoundMonotone(0.0, ExpectedRatio(requested, returned) * GRID as real);
    RoundMonotone(ExpectedRatio(requested, returned) * GRID as real, GRID as real);
  }

  /** More requests than grid steps: two neighbouring counts share a rounded ratio. */
  lemma LargeRequestsNotDetermined(requested: nat)
    requires requested > GRID
    ensures !RatioDeterminesCount(requested)
  {
    if forall r: nat | r < requested :: GridPoint(requested, r) != GridPoint(requested, r + 1) {
      GridPointsClimb(requested, requested);
      RatioOrder(requested, 0, requested);
    } else {
      var r: nat :| r < requested && GridPoint(requested, r) == GridPoint(requested, r + 1);
      RoundedAccepted(requested, r);
      RoundedAccepted(requested, r + 1);
    }
  }

  /** An accepted ratio determines the returned count exactly up to 10^8 requests. */
  lemma RatioDeterminesCountExactly(requested: nat)
    ensures RatioDeterminesCount(requested) <==> requested <= GRID
  {
    if requested <= GRID {
      SmallRequestsDetermined(requested);
    } else {
      LargeRequestsNotDetermined(requested);
    }
  }

  /** A ratio of 1 leaves no missing points. */
  ghost predicate FullRatioMeansComplete(requested: nat) {
    forall returned: nat | Accepts(requested, returned, 1.0) :: returned == requested
  }

  /** A ratio of 1 means full coverage exactly below 2 * 10^8 requests. */
  lemma FullRatioMeansCompleteExactly(requested: nat)
    ensures FullRatioMeansComplete(requested) <==> requested < 2 * GRID
  {
    if 0 < requested < 2 * GRID {
      forall returned: nat | Accepts(requested, returned, 1.0) ensures returned == requested {
        RatioOrder(requested, returned, requested);
        AcceptedRatioIsClose(requested, returned, 1.0);
        RatioGap(requested, returned, requested, 0.000000005);
        assert 0.000000005 * requested as real < 1.0;
      }
    } else if requested >= 2 * GRID {
      OneMissingRoundsToOne(requested);
    }
  }

  lemma OneMissingRoundsToOne(requested: nat)
    requires requested >= 2 * GRID
    ensures Accepts(requested, requested - 1, 1.0)
  {
    var x := ExpectedRatio(requested, requested - 1);
    var n := requested as real;
    RatioTimes(requested, requested - 1);
    RatioOrder(requested, requested - 1, requested);
    assert (1.0 - x) * n == 1.0;
    if 1.0 - x > 0.000000005 {
      Scaled(1.0 - x, 0.000000005, n);
    }
    var y := x * GRID as real;
    assert GRID as real - 0.5 <= y <= GRID as real;
    assert RoundHalfEven(y) == GRID;
  }
}
