/** scripts/clean_generated_artifacts.py: four deletion phases over a changing tree. */
module ArtifactCleaner {
  import opened Values
  import opened Ordering

  /** A path below the workspace root, as its parts. */
  type Path = seq<string>

  datatype Entry = Entry(path: Path, dir: bool)

  const PROTECTED_NAMES := {".git", ".venv", "node_modules"}

  /** ROOT_ARTIFACTS in sorted order. */
  const ROOT_ARTIFACTS := [
    ".benchmarks", ".coverage", ".coverage.e2e", ".coverage.integration", ".coverage.unit",
    ".import_linter_cache", ".mypy_cache", ".pytest_cache", ".ruff_cache",
    "build", "dist", "htmlcov", "output"
  ]

  predicate PathLess(a: Path, b: Path) {
    SeqLess(StringLess, a, b)
  }

  predicate Protected(path: Path) {
    exists i | 0 <= i < |path| :: path[i] in PROTECTED_NAMES
  }

  predicate Exists(tree: seq<Entry>, path: Path) {
    exists i | 0 <= i < |tree| :: tree[i].path == path
  }

  ghost predicate Ordered(tree: seq<Entry>) {
    forall i, j | 0 <= i < j < |tree| :: tree[i].path != tree[j].path && PathLess(tree[i].path, tree[j].path)
  }

  /** A symlink-free tree: distinct paths in path order, and every parent is a directory. */
  ghost predicate WellFormed(tree: seq<Entry>) {
    && (forall i | 0 <= i < |tree| :: tree[i].path != [])
    && Ordered(tree)
    && (forall i | 0 <= i < |tree| && |tree[i].path| > 1 :: Entry(tree[i].path[..|tree[i].path| - 1], true) in tree)
  }

  /** The tree without a path and everything below it. */
  function Without(tree: seq<Entry>, path: Path): seq<Entry> {
    if tree == [] then []
    else if path <= tree[0].path then Without(tree[1..], path)
    else [tree[0]] + Without(tree[1..], path)
  }

  function WithoutEntry(tree: seq<Entry>, path: Path): seq<Entry> {
    if tree == [] then []
    else if path == tree[0].path then WithoutEntry(tree[1..], path)
    else [tree[0]] + WithoutEntry(tree[1..], path)
  }

  // ---------------------------------------------------------------- globs

  datatype Glob = EggInfo | CoverageData | PyCache

  /** rglob("*.egg-info"), glob(".coverage.*") and rglob("__pycache__"). */
  predicate Matches(glob: Glob, path: Path) {
    path != [] &&
    match glob
    case EggInfo => EndsWith(path[|path| - 1], ".egg-info")
    case CoverageData => |path| == 1 && ".coverage." <= path[0]
    case PyCache => path[|path| - 1] == "__pycache__"
  }

  /** sorted(root.rglob(...)): the matching paths, in the order the tree keeps them. */
  function Found(tree: seq<Entry>, glob: Glob): seq<Path> {
    if tree == [] then []
    else if Matches(glob, tree[0].path) then [tree[0].path] + Found(tree[1..], glob)
    else Found(tree[1..], glob)
  }

  function RootPaths(names: seq<string>): seq<Path> {
    seq(|names|, i requires 0 <= i < |names| => [names[i]])
  }

  // ---------------------------------------------------------------- the specification

  datatype Run = Run(tree: seq<Entry>, removed: seq<Path>)

  /** One phase: try the candidates in order. */
  function Phase(run: Run, candidates: seq<Path>, dryRun: bool): Run
    decreases |candidates|
  {
    if candidates == [] then run
    else
      var c := candidates[0];
      var next :=
        if !Exists(run.tree, c) || Protected(c) then run
        else Run(if dryRun then run.tree else Without(run.tree, c), run.removed + [c]);
      Phase(next, candidates[1..], dryRun)
  }

  function Clean(tree: seq<Entry>, dryRun: bool): Run {
    var r1 := Phase(Run(tree, []), RootPaths(ROOT_ARTIFACTS), dryRun);
    var r2 := Phase(r1, Found(r1.tree, EggInfo), dryRun);
    var r3 := Phase(r2, Found(r2.tree, CoverageData), dryRun);
    Phase(r3, Found(r3.tree, PyCache), dryRun)
  }

  /** What the dry run lists. */
  function Listed(tree: seq<Entry>): seq<Path> {
    Clean(tree, true).removed
  }

  // ---------------------------------------------------------------- the program

  class Workspace {
    var tree: seq<Entry>

    method RemovePath(path: Path, dryRun: bool) returns (removed: bool)
      requires WellFormed(tree)
      modifies this
      ensures removed <==> Exists(old(tree), path) && !Protected(path)
      ensures tree == if removed && !dryRun then Without(old(tree), path) else old(tree)
      ensures WellFormed(tree)
    {
      if !Exists(tree, path) || Protected(path) {
        return false;
      }
      if dryRun {
        return true;
      }
      WithoutWellFormed(tree, path);
      if Entry(path, true) in tree {
        tree := Without(tree, path);
      } else {
        FileHasNoChildren(tree, path);
        tree := WithoutEntry(tree, path);
      }
      return true;
    }

    method RemoveEach(candidates: seq<Path>, dryRun: bool, before: seq<Path>) returns (removed: seq<Path>)
      requires WellFormed(tree)
      modifies this
      ensures WellFormed(tree)
      ensures Run(tree, removed) == Phase(Run(old(tree), before), candidates, dryRun)
    {
      removed := before;
      for i := 0 to |candidates|
        invariant WellFormed(tree)
        invariant Phase(Run(tree, removed), candidates[i..], dryRun)
                    == Phase(Run(old(tree), before), candidates, dryRun)
      {
        var done := RemovePath(candidates[i], dryRun);
        if done {
          removed := removed + [candidates[i]];
        }
        assert candidates[i..][1..] == candidates[i + 1..];
      }
    }

    method CleanGeneratedArtifacts(dryRun: bool) returns (removed: seq<Path>)
      requires WellFormed(tree)
      modifies this
      ensures WellFormed(tree)
      ensures Run(tree, removed) == Clean(old(tree), dryRun)
    {
      removed := RemoveEach(RootPaths(ROOT_ARTIFACTS), dryRun, []);
      removed := RemoveEach(Found(tree, EggInfo), dryRun, removed);
      removed := RemoveEach(Found(tree, CoverageData), dryRun, removed);
      removed := RemoveEach(Found(tree, PyCache), dryRun, removed);
    }
  }

  lemma {:induction false} WithoutContents(tree: seq<Entry>, path: Path)
    ensures forall e :: e in Without(tree, path) <==> e in tree && !(path <= e.path)
  {
    if tree != [] {
      WithoutContents(tree[1..], path);
      assert tree == [tree[0]] + tree[1..];
    }
  }

  /** Removing a subtree keeps the order: it is a subsequence. */
  lemma {:induction false} WithoutOrdered(tree: seq<Entry>, path: Path)
    requires Ordered(tree)
    ensures Ordered(Without(tree, path))
  {
    if tree != [] {
      var tail := tree[1..];
      assert forall i | 0 <= i < |tail| :: tail[i] == tree[i + 1];
      WithoutOrdered(tail, path);
      WithoutContents(tail, path);
      var rest := Without(tail, path);
      forall j | 0 <= j < |rest| ensures tree[0].path != rest[j].path && PathLess(tree[0].path, rest[j].path) {
        assert rest[j] in tail;
      }
      assert Ordered([tree[0]] + rest);
    }
  }

  /** What stays has its parent stay with it. */
  lemma ParentStays(tree: seq<Entry>, path: Path, e: Entry)
    requires WellFormed(tree) && e in Without(tree, path)
    ensures e.path != [] && (|e.path| > 1 ==> Entry(e.path[..|e.path| - 1], true) in Without(tree, path))
  {
    WithoutContents(tree, path);
    assert e in tree;
    if |e.path| > 1 {
      var parent := Entry(e.path[..|e.path| - 1], true);
      assert parent in tree && parent.path <= e.path;
    }
  }

  lemma WithoutWellFormed(tree: seq<Entry>, path: Path)
    requires WellFormed(tree)
    ensures WellFormed(Without(tree, path))
  {
    var t := Without(tree, path);
    WithoutOrdered(tree, path);
    forall i | 0 <= i < |t|
      ensures t[i].path != [] && (|t[i].path| > 1 ==> Entry(t[i].path[..|t[i].path| - 1], true) in t)
    {
      ParentStays(tree, path, t[i]);
    }
  }

  lemma {:induction false} AncestorIsDir(tree: seq<Entry>, e: Entry, n: nat)
    requires WellFormed(tree) && e in tree && 0 < n < |e.path|
    ensures Entry(e.path[..n], true) in tree
    decreases |e.path|
  {
    var parent := Entry(e.path[..|e.path| - 1], true);
    assert parent in tree;
    if n < |parent.path| {
      AncestorIsDir(tree, parent, n);
      assert parent.path[..n] == e.path[..n];
    }
  }

  lemma {:induction false} SameWithout(tree: seq<Entry>, path: Path)
    requires forall i | 0 <= i < |tree| :: path <= tree[i].path ==> path == tree[i].path
    ensures WithoutEntry(tree, path) == Without(tree, path)
  {
    if tree != [] {
      SameWithout(tree[1..], path);
    }
  }

  /** Unlinking a file removes what removing its subtree would. */
  lemma FileHasNoChildren(tree: seq<Entry>, path: Path)
    requires WellFormed(tree) && Exists(tree, path) && Entry(path, true) !in tree
    ensures WithoutEntry(tree, path) == Without(tree, path)
  {
    forall i | 0 <= i < |tree| && path <= tree[i].path ensures path == tree[i].path {
      if path != tree[i].path {
        assert tree[i].path[..|path|] == path;
        AncestorIsDir(tree, tree[i], |path|);
      }
    }
    SameWithout(tree, path);
  }

  // ---------------------------------------------------------------- the real run against the dry run

  predicate Covered(path: Path, done: seq<Path>) {
    exists i | 0 <= i < |done| :: done[i] <= path
  }

  /** The tree minus everything at or below one of the paths. */
  function Prune(tree: seq<Entry>, done: seq<Path>): seq<Entry> {
    if tree == [] then []
    else if Covered(tree[0].path, done) then Prune(tree[1..], done)
    else [tree[0]] + Prune(tree[1..], done)
  }

  /** The paths that no earlier one (nor one of `done`) lies at or above. */
  function Fresh(paths: seq<Path>, done: seq<Path>): seq<Path>
    decreases |paths|
  {
    if paths == [] then []
    else if Covered(paths[0], done) then Fresh(paths[1..], done + [paths[0]])
    else [paths[0]] + Fresh(paths[1..], done + [paths[0]])
  }

  /** The candidates that exist and are not protected. */
  function Live(tree: seq<Entry>, candidates: seq<Path>): seq<Path> {
    if candidates == [] then []
    else if Exists(tree, candidates[0]) && !Protected(candidates[0]) then
      [candidates[0]] + Live(tree, candidates[1..])
    else
      Live(tree, candidates[1..])
  }

  lemma {:induction false} PruneContents(tree: seq<Entry>, done: seq<Path>)
    ensures forall e :: e in Prune(tree, done) <==> e in tree && !Covered(e.path, done)
  {
    if tree != [] {
      PruneContents(tree[1..], done);
      assert tree == [tree[0]] + tree[1..];
    }
  }

  lemma PruneExists(tree: seq<Entry>, done: seq<Path>, path: Path)
    ensures Exists(Prune(tree, done), path) <==> Exists(tree, path) && !Covered(path, done)
  {
    PruneContents(tree, done);
    if Exists(Prune(tree, done), path) {
      var i :| 0 <= i < |Prune(tree, done)| && Prune(tree, done)[i].path == path;
      assert Prune(tree, done)[i] in tree;
    }
    if Exists(tree, path) && !Covered(path, done) {
      var i :| 0 <= i < |tree| && tree[i].path == path;
      assert tree[i] in Prune(tree, done);
    }
  }

  lemma CoveredSnoc(path: Path, done: seq<Path>, c: Path)
    ensures Covered(path, done + [c]) <==> Covered(path, done) || c <= path
  {
    if Covered(path, done) {
      var i :| 0 <= i < |done| && done[i] <= path;
      assert (done + [c])[i] <= path;
    }
    if c <= path {
      assert (done + [c])[|done|] <= path;
    }
  }

  lemma {:induction false} PruneOne(tree: seq<Entry>, done: seq<Path>, c: Path)
    ensures Prune(tree, done + [c]) == Without(Prune(tree, done), c)
  {
    if tree != [] {
      var rest := Prune(tree[1..], done);
      PruneOne(tree[1..], done, c);
      CoveredSnoc(tree[0].path, done, c);
      assert ([tree[0]] + rest)[1..] == rest;
    }
  }

  lemma {:induction false} PruneNone(tree: seq<Entry>)
    ensures Prune(tree, []) == tree
  {
    if tree != [] {
      PruneNone(tree[1..]);
    }
  }

  lemma {:induction false} PruneAgain(tree: seq<Entry>, done: seq<Path>, c: Path)
    requires Covered(c, done)
    ensures Prune(tree, done + [c]) == Prune(tree, done)
  {
    if tree != [] {
      PruneAgain(tree[1..], done, c);
      CoveredSnoc(tree[0].path, done, c);
    }
  }

  lemma {:induction false} PhaseDry(run: Run, candidates: seq<Path>)
    ensures Phase(run, candidates, true) == Run(run.tree, run.removed + Live(run.tree, candidates))
    decreases |candidates|
  {
    if candidates != [] {
      var c := candidates[0];
      var next := if Exists(run.tree, c) && !Protected(c) then Run(run.tree, run.removed + [c]) else run;
      PhaseDry(next, candidates[1..]);
    }
  }

  /** On a pruned tree, a phase over candidates that exist in the whole tree. */
  lemma {:induction false} PhaseReal(tree: seq<Entry>, done: seq<Path>, removed: seq<Path>, candidates: seq<Path>)
    requires forall i | 0 <= i < |candidates| :: Exists(tree, candidates[i]) && !Protected(candidates[i])
    ensures Phase(Run(Prune(tree, done), removed), candidates, false)
         == Run(Prune(tree, done + candidates), removed + Fresh(candidates, done))
    decreases |candidates|
  {
    if candidates == [] {
      assert done + candidates == done;
    } else {
      var c := candidates[0];
      PruneExists(tree, done, c);
      assert done + candidates == (done + [c]) + candidates[1..];
      if Covered(c, done) {
        PruneAgain(tree, done, c);
        PhaseReal(tree, done + [c], removed, candidates[1..]);
      } else {
        PruneOne(tree, done, c);
        PhaseReal(tree, done + [c], removed + [c], candidates[1..]);
      }
    }
  }

  /** Candidates that do not exist in a larger tree can be left out of a phase. */
  lemma {:induction false} PhaseSkips(run: Run, larger: seq<Entry>, candidates: seq<Path>)
    requires forall p :: Exists(run.tree, p) ==> Exists(larger, p)
    ensures Phase(run, candidates, false) == Phase(run, Live(larger, candidates), false)
    decreases |candidates|
  {
    if candidates != [] {
      var c := candidates[0];
      var next := if !Exists(run.tree, c) || Protected(c) then run else Run(Without(run.tree, c), run.removed + [c]);
      forall p | Exists(next.tree, p) ensures Exists(larger, p) {
        WithoutContents(run.tree, c);
        var i :| 0 <= i < |next.tree| && next.tree[i].path == p;
        assert next.tree[i] in run.tree;
      }
      PhaseSkips(next, larger, candidates[1..]);
      var rest := Live(larger, candidates[1..]);
      assert ([c] + rest)[1..] == rest;
    }
  }

  lemma LiveCons(tree: seq<Entry>, c: Path, rest: seq<Path>)
    ensures Live(tree, [c] + rest)
         == if Exists(tree, c) && !Protected(c) then [c] + Live(tree, rest) else Live(tree, rest)
  {
    assert ([c] + rest)[1..] == rest;
  }

  lemma FoundCons(e: Entry, rest: seq<Entry>, glob: Glob)
    ensures Found([e] + rest, glob)
         == if Matches(glob, e.path) then [e.path] + Found(rest, glob) else Found(rest, glob)
  {
    assert ([e] + rest)[1..] == rest;
  }

  /** Globbing the pruned tree finds, of what globbing the whole tree finds, what is not covered. */
  lemma {:induction false} FoundInPruned(tree: seq<Entry>, done: seq<Path>, live: seq<Entry>, glob: Glob)
    requires forall p :: Exists(live, p) ==> !Covered(p, done)
    ensures Live(live, Found(Prune(tree, done), glob)) == Live(live, Found(tree, glob))
  {
    if tree != [] {
      var h := tree[0].path;
      FoundInPruned(tree[1..], done, live, glob);
      LiveCons(live, h, Found(tree[1..], glob));
      LiveCons(live, h, Found(Prune(tree[1..], done), glob));
      FoundCons(tree[0], Prune(tree[1..], done), glob);
    }
  }

  lemma {:induction false} LiveTwice(tree: seq<Entry>, larger: seq<Entry>, candidates: seq<Path>)
    requires forall p :: Exists(tree, p) ==> Exists(larger, p)
    ensures Live(tree, Live(larger, candidates)) == Live(tree, candidates)
  {
    if candidates != [] {
      LiveTwice(tree, larger, candidates[1..]);
      var rest := Live(larger, candidates[1..]);
      assert ([candidates[0]] + rest)[1..] == rest;
    }
  }

  lemma {:induction false} LiveContents(tree: seq<Entry>, candidates: seq<Path>)
    ensures forall p :: p in Live(tree, candidates) <==> p in candidates && Exists(tree, p) && !Protected(p)
  {
    if candidates != [] {
      LiveContents(tree, candidates[1..]);
      assert candidates == [candidates[0]] + candidates[1..];
    }
  }

  lemma {:induction false} FreshAppends(a: seq<Path>, b: seq<Path>, done: seq<Path>)
    ensures Fresh(a + b, done) == Fresh(a, done) + Fresh(b, done + a)
    decreases |a|
  {
    if a == [] {
      assert a + b == b && done + a == done;
    } else {
      FreshAppends(a[1..], b, done + [a[0]]);
      assert (a + b)[1..] == a[1..] + b;
      assert done + a == (done + [a[0]]) + a[1..];
    }
  }

  /** One globbing phase of the real run, given what the earlier phases did. */
  lemma RealPhase(tree: seq<Entry>, done: seq<Path>, candidates: seq<Path>, listed: seq<Path>)
    requires Live(Prune(tree, done), candidates) == Live(Prune(tree, done), listed)
    requires listed == Live(tree, listed)
    ensures Phase(Run(Prune(tree, done), Fresh(done, [])), candidates, false)
         == Run(Prune(tree, done + listed), Fresh(done + listed, []))
  {
    var run := Run(Prune(tree, done), Fresh(done, []));
    PhaseSkips(run, run.tree, candidates);
    PhaseSkips(run, run.tree, listed);
    LiveContents(tree, listed);
    assert forall i | 0 <= i < |listed| :: listed[i] in Live(tree, listed);
    PhaseReal(tree, done, Fresh(done, []), listed);
    FreshAppends(done, listed, []);
    assert [] + done == done;
  }

  lemma GlobPhase(tree: seq<Entry>, done: seq<Path>, glob: Glob)
    ensures var t := Prune(tree, done);
            Phase(Run(t, Fresh(done, [])), Found(t, glob), false)
            == var all := done + Live(tree, Found(tree, glob)); Run(Prune(tree, all), Fresh(all, []))
  {
    var t := Prune(tree, done);
    forall p ensures Exists(t, p) ==> Exists(tree, p) && !Covered(p, done) {
      PruneExists(tree, done, p);
    }
    FoundInPruned(tree, done, t, glob);
    LiveTwice(t, tree, Found(tree, glob));
    LiveTwice(tree, tree, Found(tree, glob));
    RealPhase(tree, done, Found(t, glob), Live(tree, Found(tree, glob)));
  }

  /** What the dry run lists, phase by phase, all on the untouched tree. */
  lemma ListedByPhase(tree: seq<Entry>)
    ensures Listed(tree) == Live(tree, RootPaths(ROOT_ARTIFACTS)) + Live(tree, Found(tree, EggInfo))
                            + Live(tree, Found(tree, CoverageData)) + Live(tree, Found(tree, PyCache))
    ensures Clean(tree, true).tree == tree
  {
    var d1 := Live(tree, RootPaths(ROOT_ARTIFACTS));
    var d2 := Live(tree, Found(tree, EggInfo));
    var d3 := Live(tree, Found(tree, CoverageData));
    PhaseDry(Run(tree, []), RootPaths(ROOT_ARTIFACTS));
    assert [] + d1 == d1;
    PhaseDry(Run(tree, d1), Found(tree, EggInfo));
    PhaseDry(Run(tree, d1 + d2), Found(tree, CoverageData));
    PhaseDry(Run(tree, d1 + d2 + d3), Found(tree, PyCache));
  }

  /** The real run against the dry run: afterwards the tree is the old one minus everything at
      or below a path the dry run lists, and the run reports, in the dry run's order, the
      listed paths that no earlier listed path lies at or above. */
  lemma RealRunRefinesDryRun(tree: seq<Entry>)
    ensures Clean(tree, false) == Run(Prune(tree, Listed(tree)), Fresh(Listed(tree), []))
  {
    var d1 := Live(tree, RootPaths(ROOT_ARTIFACTS));
    var d2 := Live(tree, Found(tree, EggInfo));
    var d3 := Live(tree, Found(tree, CoverageData));
    PruneNone(tree);
    LiveTwice(tree, tree, RootPaths(ROOT_ARTIFACTS));
    RealPhase(tree, [], RootPaths(ROOT_ARTIFACTS), d1);
    assert [] + d1 == d1;
    GlobPhase(tree, d1, EggInfo);
    GlobPhase(tree, d1 + d2, CoverageData);
    GlobPhase(tree, d1 + d2 + d3, PyCache);
    ListedByPhase(tree);
  }

  // ---------------------------------------------------------------- what a clean removes

  /** The names the four phases look for: the root artifacts and ".coverage." with anything after
      it at the root only, "__pycache__" and anything before ".egg-info" at any depth. */
  ghost predicate ArtifactName(path: Path) {
    && path != []
    && var last := path[|path| - 1];
       || (|path| == 1 && last in ROOT_ARTIFACTS)
       || (|path| == 1 && exists rest :: last == ".coverage." + rest)
       || last == "__pycache__"
       || (exists stem :: last == stem + ".egg-info")
  }

  lemma StartsExactly(name: string, start: string)
    ensures start <= name <==> exists rest :: name == start + rest
  {
    if start <= name {
      assert name == start + name[|start|..];
    }
  }

  lemma EndsExactly(name: string, end: string)
    ensures EndsWith(name, end) <==> exists stem :: name == stem + end
  {
    if EndsWith(name, end) {
      assert name == name[..|name| - |end|] + end;
    }
  }

  /** A root artifact or a match of one of the three patterns. */
  lemma ArtifactNameExactly(path: Path)
    ensures ArtifactName(path)
       <==> (|path| == 1 && path[0] in ROOT_ARTIFACTS) || exists glob :: Matches(glob, path)
  {
    if path != [] {
      StartsExactly(path[0], ".coverage.");
      EndsExactly(path[|path| - 1], ".egg-info");
      assert Matches(EggInfo, path) <==> EndsWith(path[|path| - 1], ".egg-info");
      assert Matches(CoverageData, path) <==> |path| == 1 && ".coverage." <= path[0];
      assert Matches(PyCache, path) <==> path[|path| - 1] == "__pycache__";
    }
  }

  lemma {:induction false} FoundContents(tree: seq<Entry>, glob: Glob)
    ensures forall p :: p in Found(tree, glob) <==> Exists(tree, p) && Matches(glob, p)
  {
    if tree != [] {
      FoundContents(tree[1..], glob);
      forall p ensures Exists(tree, p) <==> p == tree[0].path || Exists(tree[1..], p) {
        if Exists(tree, p) && p != tree[0].path {
          var i :| 0 <= i < |tree| && tree[i].path == p;
          assert tree[1..][i - 1].path == p;
        }
        if Exists(tree[1..], p) {
          var i :| 0 <= i < |tree[1..]| && tree[1..][i].path == p;
          assert tree[i + 1].path == p;
        }
      }
    }
  }

  /** What a glob finds comes in path order, each path once. */
  lemma {:induction false} FoundSorted(tree: seq<Entry>, glob: Glob)
    requires Ordered(tree)
    ensures StrictlySorted(PathLess, Found(tree, glob))
  {
    if tree != [] {
      var tail := tree[1..];
      assert forall i | 0 <= i < |tail| :: tail[i] == tree[i + 1];
      FoundSorted(tail, glob);
      FoundContents(tail, glob);
      var rest := Found(tail, glob);
      forall i | 0 <= i < |rest| ensures PathLess(tree[0].path, rest[i]) {
        assert rest[i] in rest;
        var k :| 0 <= k < |tail| && tail[k].path == rest[i];
      }
    }
  }

  lemma ListedContents(tree: seq<Entry>, p: Path)
    ensures p in Listed(tree) <==> Exists(tree, p) && ArtifactName(p) && !Protected(p)
  {
    ListedByPhase(tree);
    LiveContents(tree, RootPaths(ROOT_ARTIFACTS));
    forall glob: Glob
      ensures p in Live(tree, Found(tree, glob)) <==> Exists(tree, p) && Matches(glob, p) && !Protected(p)
    {
      LiveContents(tree, Found(tree, glob));
      FoundContents(tree, glob);
    }
    if |p| == 1 && p[0] in ROOT_ARTIFACTS {
      var i :| 0 <= i < |ROOT_ARTIFACTS| && ROOT_ARTIFACTS[i] == p[0];
      assert RootPaths(ROOT_ARTIFACTS)[i] == p;
    }
    ArtifactNameExactly(p);
    assert forall glob: Glob :: Matches(glob, p) ==> glob.EggInfo? || glob.CoverageData? || glob.PyCache?;
  }

  ghost predicate UnprotectedArtifact(path: Path) {
    ArtifactName(path) && !Protected(path)
  }

  lemma ListedCovers(tree: seq<Entry>, path: Path, n: nat)
    requires 0 < n <= |path| && Exists(tree, path[..n]) && UnprotectedArtifact(path[..n])
    ensures Covered(path, Listed(tree))
  {
    ListedContents(tree, path[..n]);
    var k :| 0 <= k < |Listed(tree)| && Listed(tree)[k] == path[..n];
    assert Listed(tree)[k] <= path;
  }

  lemma AncestorExists(tree: seq<Entry>, e: Entry, n: nat)
    requires WellFormed(tree) && e in tree && 0 < n <= |e.path|
    ensures Exists(tree, e.path[..n])
  {
    if n < |e.path| {
      AncestorIsDir(tree, e, n);
    } else {
      assert e.path[..n] == e.path;
    }
    var x: Entry :| x in tree && x.path == e.path[..n];
    var i :| 0 <= i < |tree| && tree[i] == x;
  }

  /** A path of the tree is removed exactly when it or a directory above it is an unprotected
      artifact. */
  lemma RemovedExactly(tree: seq<Entry>, e: Entry)
    requires WellFormed(tree) && e in tree
    ensures e !in Clean(tree, false).tree <==> exists n :: 0 < n <= |e.path| && UnprotectedArtifact(e.path[..n])
  {
    var listed := Listed(tree);
    RealRunRefinesDryRun(tree);
    PruneContents(tree, listed);
    if Covered(e.path, listed) {
      var i :| 0 <= i < |listed| && listed[i] <= e.path;
      ListedContents(tree, listed[i]);
      assert e.path[..|listed[i]|] == listed[i];
    }
    forall n | 0 < n <= |e.path| && UnprotectedArtifact(e.path[..n]) ensures Covered(e.path, listed) {
      AncestorExists(tree, e, n);
      ListedCovers(tree, e.path, n);
    }
  }

  /** A nested cache goes, wherever it is, unless a protected part is above it. */
  lemma NestedCacheRemoved(tree: seq<Entry>, e: Entry, n: nat)
    requires WellFormed(tree) && e in tree && n < |e.path| && e.path[n] == "__pycache__"
    requires forall i | 0 <= i <= n :: e.path[i] !in PROTECTED_NAMES
    ensures e !in Clean(tree, false).tree
  {
    assert e.path[..n + 1][n] == "__pycache__";
    assert UnprotectedArtifact(e.path[..n + 1]);
    RemovedExactly(tree, e);
  }

  /** And so does nested package metadata. */
  lemma NestedEggInfoRemoved(tree: seq<Entry>, e: Entry, n: nat, stem: string)
    requires WellFormed(tree) && e in tree && n < |e.path| && e.path[n] == stem + ".egg-info"
    requires forall i | 0 <= i <= n :: e.path[i] !in PROTECTED_NAMES
    ensures e !in Clean(tree, false).tree
  {
    assert e.path[..n + 1][n] == stem + ".egg-info";
    assert UnprotectedArtifact(e.path[..n + 1]);
    RemovedExactly(tree, e);
  }

  lemma SecondCleanFindsNothing(tree: seq<Entry>)
    ensures Listed(Clean(tree, false).tree) == []
    ensures Clean(Clean(tree, false).tree, false) == Run(Clean(tree, false).tree, [])
  {
    var listed := Listed(tree);
    var after := Prune(tree, listed);
    RealRunRefinesDryRun(tree);
    if Listed(after) != [] {
      var p := Listed(after)[0];
      ListedContents(after, p);
      PruneExists(tree, listed, p);
      assert p[..|p|] == p;
      ListedCovers(tree, p, |p|);
    }
    RealRunRefinesDryRun(after);
    PruneNone(after);
  }

  /** The real report is contained in the dry report, and still accounts for all of it. */
  lemma {:induction false} FreshAccounts(paths: seq<Path>, done: seq<Path>)
    ensures forall p | p in Fresh(paths, done) :: p in paths
    ensures forall p | p in paths :: Covered(p, done + Fresh(paths, done))
    decreases |paths|
  {
    if paths != [] {
      var h := paths[0];
      FreshAccounts(paths[1..], done + [h]);
      var rest := Fresh(paths[1..], done + [h]);
      assert paths == [h] + paths[1..];
      forall p | p in paths ensures Covered(p, done + Fresh(paths, done)) {
        CoveredAppend(p, done, Fresh(paths, done));
        CoveredAppend(p, done + [h], rest);
        CoveredSnoc(p, done, h);
        if Covered(h, done) {
          var i :| 0 <= i < |done| && done[i] <= h;
          assert h <= p ==> done[i] <= p;
        } else {
          CoveredAppend(p, [h], rest);
          assert [h][0] == h;
        }
      }
    }
  }

  lemma CoveredAppend(p: Path, a: seq<Path>, b: seq<Path>)
    ensures Covered(p, a + b) <==> Covered(p, a) || Covered(p, b)
  {
    if Covered(p, a) {
      var i :| 0 <= i < |a| && a[i] <= p;
      assert (a + b)[i] <= p;
    }
    if Covered(p, b) {
      var i :| 0 <= i < |b| && b[i] <= p;
      assert (a + b)[|a| + i] <= p;
    }
  }

  // ---------------------------------------------------------------- protected paths

  function FirstProtected(path: Path): (i: nat)
    requires Protected(path)
    ensures i < |path| && path[i] in PROTECTED_NAMES
    ensures forall j | 0 <= j < i :: path[j] !in PROTECTED_NAMES
  {
    if path[0] in PROTECTED_NAMES then 0
    else
      assert Protected(path[1..]) by {
        var i :| 0 <= i < |path| && path[i] in PROTECTED_NAMES;
        assert path[1..][i - 1] in PROTECTED_NAMES;
      }
      1 + FirstProtected(path[1..])
  }

  /** A protected path survives exactly when no directory above its first protected part has
      an artifact name: the protection does not reach inside a removed directory. */
  lemma ProtectedSurvivesExactly(tree: seq<Entry>, e: Entry)
    requires WellFormed(tree) && e in tree && Protected(e.path)
    ensures e in Clean(tree, false).tree
       <==> forall n | 0 < n <= FirstProtected(e.path) :: !ArtifactName(e.path[..n])
  {
    RemovedExactly(tree, e);
    var first := FirstProtected(e.path);
    forall n | 0 < n <= |e.path| ensures Protected(e.path[..n]) <==> n > first {
      if n > first {
        assert e.path[..n][first] in PROTECTED_NAMES;
      }
    }
  }

  lemma RootArtifactsUnprotected(name: string)
    requires name in ROOT_ARTIFACTS
    ensures name !in PROTECTED_NAMES
  {
  }

  /** Everything under a root artifact goes with it, protected or not: build/.git too. */
  lemma RootArtifactRemovedWhole(tree: seq<Entry>, e: Entry)
    requires WellFormed(tree) && e in tree && e.path != [] && e.path[0] in ROOT_ARTIFACTS
    ensures e !in Clean(tree, false).tree
  {
    assert e.path[..1] == [e.path[0]];
    RootArtifactsUnprotected(e.path[0]);
    RemovedExactly(tree, e);
  }
}
