/** scripts/audit_main_gate_coverage.py: the window probe, the classification loop and the exit
    code of the releasability audit. */
module GateCoverageAudit {
  import opened Values

  datatype Commit = Commit(sha: string, short: string, subject: string)

  /** One gate run; a missing conclusion or status reads as empty. */
  datatype Run = Run(conclusion: string, status: string)

  /** The runs listed for a commit, or None when the listing could not be fetched or parsed. */
  type Listing = string -> Option<seq<Run>>

  const VERDICT_CONCLUSIONS := {"success", "failure"}

  function Conclusion(run: Run): string {
    if run.conclusion != "" then run.conclusion else run.status
  }

  function RunConclusions(listing: Listing, sha: string): Option<seq<string>> {
    match listing(sha)
    case None => None
    case Some(runs) => Some(seq(|runs|, i requires 0 <= i < |runs| => Conclusion(runs[i])))
  }

  function Verdicts(conclusions: seq<string>): seq<string> {
    if conclusions == [] then []
    else if conclusions[0] in VERDICT_CONCLUSIONS then [conclusions[0]] + Verdicts(conclusions[1..])
    else Verdicts(conclusions[1..])
  }

  datatype Class = Passing | Failing | Unknown | Ungated

  /** The class a commit belongs to, by what its runs concluded. */
  function ClassOf(listing: Listing, commit: Commit): Class {
    match RunConclusions(listing, commit.sha)
    case None => Unknown
    case Some(conclusions) =>
      if "success" in conclusions then Passing
      else if "failure" in conclusions then Failing
      else if conclusions == [] then Ungated
      else Unknown
  }

  function Select(listing: Listing, commits: seq<Commit>, class': Class): seq<Commit> {
    if commits == [] then []
    else
      var last := commits[|commits| - 1];
      Select(listing, commits[..|commits| - 1], class') + if ClassOf(listing, last) == class' then [last] else []
  }

  datatype Report = Report(
    passing: nat, failing: seq<Commit>, unknown: seq<Commit>, ungated: seq<Commit>, examined: nat, truncated: bool)

  /** The process ends with an exit code, or git rejects the count it is given. */
  datatype Ending = Exit(code: int) | GitFailed

  /** git log with -count: the first commits of the window; a negative count is no option of git. */
  function GitLog(window: seq<Commit>, count: int): Option<seq<Commit>> {
    if count < 0 then None
    else Some(if count <= |window| then window[..count] else window)
  }

  /** The Python slice commits[:limit] of a list of at most limit + 1 commits. */
  function Capped(probed: seq<Commit>, limit: int): seq<Commit> {
    if 0 <= limit <= |probed| then probed[..limit] else probed
  }

  /** What a run came to: its conclusion, or its status while it has none. */
  predicate Ended(run: Run, result: string) {
    run.conclusion == result || (run.conclusion == "" && run.status == result)
  }

  /** Some listed run came to the result. */
  ghost predicate SomeRunEnded(listing: Listing, commit: Commit, result: string) {
    listing(commit.sha).Some? && exists run :: run in listing(commit.sha).value && Ended(run, result)
  }

  /** A commit some run of which reached a verdict. */
  ghost predicate Evaluated(listing: Listing, commit: Commit) {
    SomeRunEnded(listing, commit, "success") || SomeRunEnded(listing, commit, "failure")
  }

  lemma ConclusionsExactly(listing: Listing, commit: Commit, result: string)
    requires listing(commit.sha).Some? && result != ""
    ensures result in RunConclusions(listing, commit.sha).value <==> SomeRunEnded(listing, commit, result)
  {
    var runs := listing(commit.sha).value;
    var conclusions := RunConclusions(listing, commit.sha).value;
    if run :| run in runs && Ended(run, result) {
      var i :| 0 <= i < |runs| && runs[i] == run;
      assert conclusions[i] == result;
    }
    if result in conclusions {
      var i :| 0 <= i < |conclusions| && conclusions[i] == result;
      assert Ended(runs[i], result);
    }
  }

  /** The four classes, in terms of the runs: passing with a success, failing with a failure and no
      success, ungated with no run at all, and unknown otherwise. */
  lemma ClassesExactly(listing: Listing, commit: Commit)
    ensures match ClassOf(listing, commit)
            case Passing => SomeRunEnded(listing, commit, "success")
            case Failing => SomeRunEnded(listing, commit, "failure") && !SomeRunEnded(listing, commit, "success")
            case Ungated => listing(commit.sha) == Some([])
            case Unknown => listing(commit.sha) != Some([]) && !Evaluated(listing, commit)
  {
    if listing(commit.sha).Some? {
      ConclusionsExactly(listing, commit, "success");
      ConclusionsExactly(listing, commit, "failure");
    }
  }

  lemma {:induction false} VerdictsContents(conclusions: seq<string>)
    ensures forall c :: c in Verdicts(conclusions) <==> c in conclusions && c in VERDICT_CONCLUSIONS
  {
    if conclusions != [] {
      VerdictsContents(conclusions[1..]);
      assert conclusions == [conclusions[0]] + conclusions[1..];
    }
  }

  method Classify(listing: Listing, commits: seq<Commit>, truncated: bool) returns (report: Report)
    ensures report == Report(|Select(listing, commits, Passing)|, Select(listing, commits, Failing),
                             Select(listing, commits, Unknown), Select(listing, commits, Ungated), |commits|, truncated)
  {
    var ungated: seq<Commit> := [];
    var unknown: seq<Commit> := [];
    var failing: seq<Commit> := [];
    var passing := 0;
    for i := 0 to |commits|
      invariant passing == |Select(listing, commits[..i], Passing)|
      invariant failing == Select(listing, commits[..i], Failing)
      invariant unknown == Select(listing, commits[..i], Unknown)
      invariant ungated == Select(listing, commits[..i], Ungated)
    {
      var commit := commits[i];
      assert commits[..i + 1][..i] == commits[..i];
      var conclusions := RunConclusions(listing, commit.sha);
      if conclusions.None? {
        unknown := unknown + [commit];
        continue;
      }
      var verdicts := Verdicts(conclusions.value);
      VerdictsContents(conclusions.value);
      if verdicts != [] {
        assert verdicts[0] in verdicts;
        if "success" in verdicts {
          passing := passing + 1;
        } else {
          failing := failing + [commit];
        }
        continue;
      }
      assert "success" !in verdicts && "failure" !in verdicts;
      if conclusions.value != [] {
        unknown := unknown + [commit];
        continue;
      }
      ungated := ungated + [commit];
    }
    assert commits[..|commits|] == commits;
    report := Report(passing, failing, unknown, ungated, |commits|, truncated);
  }

  method Audit(ghAvailable: bool, window: seq<Commit>, limit: int, failOnGap: bool, listing: Listing)
    returns (ending: Ending, report: Option<Report>)
    ensures ending == AuditEnding(ghAvailable, window, limit, failOnGap, listing)
    ensures ghAvailable && limit >= 0 ==> report.Some? && Accounts(listing, window, limit, report.value)
  {
    if !ghAvailable {
      return Exit(if failOnGap then 1 else 0), None;
    }
    var log := GitLog(window, limit + 1);
    if log.None? {
      return GitFailed, None;
    }
    var truncated := |log.value| > limit;
    var commits := Capped(log.value, limit);
    var found := Classify(listing, commits, truncated);
    report := Some(found);
    ending := Exit(if failOnGap && (found.ungated != [] || found.unknown != [] || truncated) then 1 else 0);
    ClassesSum(listing, commits);
    CappedIsPrefix(window, limit);
    EndingIsAuditEnding(window, limit, failOnGap, listing);
  }

  // ---------------------------------------------------------------- the specification

  /** What the audit promises: success under --fail-on-gap means that the whole window, not
      only the probed prefix, fits the limit and every commit in it has a verdict. */
  ghost function AuditEnding(
      ghAvailable: bool, window: seq<Commit>, limit: int, failOnGap: bool, listing: Listing)
    : Ending
  {
    if !ghAvailable then Exit(if failOnGap then 1 else 0)
    else if limit < -1 then GitFailed
    else if !failOnGap then Exit(0)
    else if |window| <= limit && forall i | 0 <= i < |window| :: Evaluated(listing, window[i]) then Exit(0)
    else Exit(1)
  }

  /** The report accounts for each examined commit once, in one of the four classes. */
  ghost predicate Accounts(listing: Listing, window: seq<Commit>, limit: nat, report: Report) {
    var examined := if |window| <= limit then window else window[..limit];
    && report.examined == |examined|
    && report.passing + |report.failing| + |report.unknown| + |report.ungated| == report.examined
    && report.passing == |Select(listing, examined, Passing)|
    && report.failing == Select(listing, examined, Failing)
    && report.unknown == Select(listing, examined, Unknown)
    && report.ungated == Select(listing, examined, Ungated)
    && report.truncated == (|window| > limit)
  }

  /** Probing one commit past the cap and cutting it off again examines the capped window. */
  lemma CappedIsPrefix(window: seq<Commit>, limit: int)
    requires limit >= -1
    ensures limit >= 0 ==>
              Capped(GitLog(window, limit + 1).value, limit) == if |window| <= limit then window else window[..limit]
    ensures |GitLog(window, limit + 1).value| > limit <==> |window| > limit
  {
  }

  lemma {:induction false} ClassesSum(listing: Listing, commits: seq<Commit>)
    ensures |Select(listing, commits, Passing)| + |Select(listing, commits, Failing)|
            + |Select(listing, commits, Unknown)| + |Select(listing, commits, Ungated)| == |commits|
  {
    if commits != [] {
      ClassesSum(listing, commits[..|commits| - 1]);
    }
  }

  /** A commit is in neither gap class exactly when one of its runs reached a verdict. */
  lemma EvaluatedIsNoGap(listing: Listing, commit: Commit)
    ensures Evaluated(listing, commit) <==> ClassOf(listing, commit) in {Passing, Failing}
  {
    ClassesExactly(listing, commit);
  }

  lemma {:induction false} NoGapsExactly(listing: Listing, commits: seq<Commit>)
    ensures Select(listing, commits, Unknown) == [] && Select(listing, commits, Ungated) == []
       <==> forall i | 0 <= i < |commits| :: Evaluated(listing, commits[i])
  {
    if commits != [] {
      NoGapsExactly(listing, commits[..|commits| - 1]);
      EvaluatedIsNoGap(listing, commits[|commits| - 1]);
    }
  }

  lemma EndingIsAuditEnding(window: seq<Commit>, limit: int, failOnGap: bool, listing: Listing)
    requires limit >= -1
    ensures var probed := GitLog(window, limit + 1).value;
            var commits := Capped(probed, limit);
            var gap :=
              || Select(listing, commits, Ungated) != [] || Select(listing, commits, Unknown) != []
              || |probed| > limit;
            AuditEnding(true, window, limit, failOnGap, listing) == Exit(if failOnGap && gap then 1 else 0)
  {
    var probed := GitLog(window, limit + 1).value;
    var commits := Capped(probed, limit);
    NoGapsExactly(listing, commits);
    if |window| <= limit {
      assert commits == window;
    }
  }
}
