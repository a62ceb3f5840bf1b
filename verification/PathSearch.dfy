/** The search of scripts/domain_data_product_contract_check.py over an abstract schema graph:
    from a node, try every member of its unions with the same tokens, then use up one token.
    SchemaPaths instantiates the graph with an OpenAPI document. */
module PathSearch {
  import opened Values
  import opened Graphs

  datatype SchemaGraph<!N> = SchemaGraph(members: N -> seq<N>, child: (N, string) -> Option<N>)

  /** What a recursive Python call gives back when its recursion limit is finite. */
  datatype Reply = Answer(found: bool) | RecursionError

  // ---------------------------------------------------------------- the search

  /** The recursive search, with `depth` calls left before Python raises RecursionError. */
  function HasPath<N>(g: SchemaGraph<N>, n: N, tokens: seq<string>, depth: nat): Reply
    decreases depth, 0
  {
    if depth == 0 then RecursionError
    else
      match AnyHasPath(g, g.members(n), tokens, depth - 1)
      case RecursionError => RecursionError
      case Answer(true) => Answer(true)
      case Answer(false) =>
        if tokens == [] then Answer(true)
        else
          match g.child(n, tokens[0])
          case None => Answer(false)
          case Some(child) => HasPath(g, child, tokens[1..], depth - 1)
  }

  /** any(...) over the union members: left to right, stopping at the first hit. */
  function AnyHasPath<N>(g: SchemaGraph<N>, members: seq<N>, tokens: seq<string>, depth: nat): Reply
    decreases depth, 1 + |members|
  {
    if members == [] then Answer(false)
    else
      match HasPath(g, members[0], tokens, depth)
      case Answer(false) => AnyHasPath(g, members[1..], tokens, depth)
      case other => other
  }

  // ---------------------------------------------------------------- the reference definition

  datatype Position<N> = Position(node: N, tokens: seq<string>)

  /** One step through the schema graph: into a union member, or down one token. */
  ghost predicate Step<N>(g: SchemaGraph<N>, a: Position<N>, b: Position<N>) {
    || (a.tokens == b.tokens && b.node in g.members(a.node))
    || (a.tokens != [] && b.tokens == a.tokens[1..] && g.child(a.node, a.tokens[0]) == Some(b.node))
  }

  ghost predicate Trail<N>(g: SchemaGraph<N>, w: seq<Position<N>>) {
    && w != []
    && (forall i, j | 0 <= i && j == i + 1 < |w| :: Step(g, w[i], w[j]))
    && w[|w| - 1].tokens == []
  }

  /** The path exists when some finite trail of steps uses up every token. */
  ghost predicate PathExists<N(!new)>(g: SchemaGraph<N>, n: N, tokens: seq<string>) {
    exists w :: Trail(g, w) && w[0] == Position(n, tokens)
  }

  lemma PathExistsStep<N(!new)>(g: SchemaGraph<N>, a: Position<N>, b: Position<N>)
    requires Step(g, a, b) && PathExists(g, b.node, b.tokens)
    ensures PathExists(g, a.node, a.tokens)
  {
    var w :| Trail(g, w) && w[0] == b;
    assert Trail(g, [a] + w) && ([a] + w)[0] == Position(a.node, a.tokens);
  }

  /** A trail either ends here or goes on with one of the two kinds of step. */
  lemma PathExistsUnfolds<N(!new)>(g: SchemaGraph<N>, n: N, tokens: seq<string>)
    ensures PathExists(g, n, tokens)
       <==> || tokens == []
            || (exists m :: m in g.members(n) && PathExists(g, m, tokens))
            || (tokens != [] && g.child(n, tokens[0]).Some?
                && PathExists(g, g.child(n, tokens[0]).value, tokens[1..]))
  {
    var here := Position(n, tokens);
    if tokens == [] {
      assert Trail(g, [here]);
    } else if PathExists(g, n, tokens) {
      var w: seq<Position<N>> :| Trail(g, w) && w[0] == here;
      assert Step(g, w[0], w[1]);
      assert Trail(g, w[1..]) && w[1..][0] == Position(w[1].node, w[1].tokens);
    } else {
      forall m | m in g.members(n) && PathExists(g, m, tokens) ensures false {
        PathExistsStep(g, here, Position(m, tokens));
      }
      if g.child(n, tokens[0]).Some? && PathExists(g, g.child(n, tokens[0]).value, tokens[1..]) {
        PathExistsStep(g, here, Position(g.child(n, tokens[0]).value, tokens[1..]));
      }
    }
  }

  // ---------------------------------------------------------------- the search is exact

  /** Whatever the search answers, it answers exactly whether the path exists. */
  lemma {:induction false} HasPathExact<N(!new)>(g: SchemaGraph<N>, n: N, tokens: seq<string>, depth: nat)
    requires HasPath(g, n, tokens, depth).Answer?
    ensures HasPath(g, n, tokens, depth).found <==> PathExists(g, n, tokens)
    decreases depth, 0
  {
    PathExistsUnfolds(g, n, tokens);
    AnyHasPathExact(g, g.members(n), tokens, depth - 1);
    if !AnyHasPath(g, g.members(n), tokens, depth - 1).found && tokens != [] {
      match g.child(n, tokens[0])
      case None =>
      case Some(child) => HasPathExact(g, child, tokens[1..], depth - 1);
    }
  }

  lemma {:induction false} AnyHasPathExact<N(!new)>(
      g: SchemaGraph<N>, members: seq<N>, tokens: seq<string>, depth: nat)
    requires AnyHasPath(g, members, tokens, depth).Answer?
    ensures AnyHasPath(g, members, tokens, depth).found
       <==> exists m :: m in members && PathExists(g, m, tokens)
    decreases depth, 1 + |members|
  {
    if members != [] {
      HasPathExact(g, members[0], tokens, depth);
      if !HasPath(g, members[0], tokens, depth).found {
        AnyHasPathExact(g, members[1..], tokens, depth);
      }
    }
  }

  // ---------------------------------------------------------------- when the search ends

  ghost function UnionEdges<N(!new)>(g: SchemaGraph<N>): (N, N) -> bool {
    (a, b) => b in g.members(a)
  }

  /** No step leaves the set of nodes. */
  ghost predicate Closed<N(!new)>(g: SchemaGraph<N>, nodes: set<N>) {
    forall a: Position<N>, b: Position<N> | a.node in nodes && Step(g, a, b) :: b.node in nodes
  }

  /** rounds * size: one full walk through the graph for each round. */
  function Budget(rounds: nat, size: nat): nat {
    if rounds == 0 then 0 else Budget(rounds - 1, size) + size
  }

  /** Termination: when no chain of unions alone comes back to where it started, every query
      is answered given this many nested calls, whatever cycles the tokens can go round. */
  lemma HasPathTerminates<N(!new)>(g: SchemaGraph<N>, nodes: set<N>, n: N, tokens: seq<string>, depth: nat)
    requires n in nodes && Closed(g, nodes) && Acyclic(UnionEdges(g), nodes)
    requires depth >= Budget(|tokens| + 1, |nodes|)
    ensures HasPath(g, n, tokens, depth).Answer?
  {
    AnsweredAlongWalk(g, nodes, [n], tokens, depth);
  }

  lemma {:induction false} AnsweredAlongWalk<N(!new)>(
      g: SchemaGraph<N>, nodes: set<N>, w: seq<N>, tokens: seq<string>, depth: nat)
    requires Closed(g, nodes) && Acyclic(UnionEdges(g), nodes)
    requires w != [] && Walk(UnionEdges(g), nodes, w)
    requires depth > Budget(|tokens| + 1, |nodes|) - |w|
    ensures HasPath(g, w[|w| - 1], tokens, depth).Answer?
    decreases depth, 0
  {
    var n := w[|w| - 1];
    AcyclicWalkFits(UnionEdges(g), nodes, w);
    MembersAnswered(g, nodes, w, g.members(n), tokens, depth - 1);
    if tokens != [] && g.child(n, tokens[0]).Some? {
      var child := g.child(n, tokens[0]).value;
      assert Step(g, Position(n, tokens), Position(child, tokens[1..]));
      AnsweredAlongWalk(g, nodes, [child], tokens[1..], depth - 1);
    }
  }

  lemma {:induction false} MembersAnswered<N(!new)>(
      g: SchemaGraph<N>, nodes: set<N>, w: seq<N>, members: seq<N>, tokens: seq<string>, depth: nat)
    requires Closed(g, nodes) && Acyclic(UnionEdges(g), nodes)
    requires w != [] && Walk(UnionEdges(g), nodes, w)
    requires forall i | 0 <= i < |members| :: members[i] in g.members(w[|w| - 1])
    requires depth > Budget(|tokens| + 1, |nodes|) - |w| - 1
    ensures AnyHasPath(g, members, tokens, depth).Answer?
    decreases depth, 1 + |members|
  {
    if members != [] {
      assert Step(g, Position(w[|w| - 1], tokens), Position(members[0], tokens));
      WalkExtends(UnionEdges(g), nodes, w, members[0]);
      AnsweredAlongWalk(g, nodes, w + [members[0]], tokens, depth);
      MembersAnswered(g, nodes, w, members[1..], tokens, depth);
    }
  }

  /** On such a graph the search is a decision procedure for path existence. */
  lemma HasPathDecides<N(!new)>(g: SchemaGraph<N>, nodes: set<N>, n: N, tokens: seq<string>, depth: nat)
    requires n in nodes && Closed(g, nodes) && Acyclic(UnionEdges(g), nodes)
    requires depth >= Budget(|tokens| + 1, |nodes|)
    ensures HasPath(g, n, tokens, depth) == Answer(PathExists(g, n, tokens))
  {
    HasPathTerminates(g, nodes, n, tokens, depth);
    HasPathExact(g, n, tokens, depth);
  }

  /** No schema has anything under the token. */
  ghost predicate Dead<N(!new)>(g: SchemaGraph<N>, nodes: set<N>, token: string) {
    forall n | n in nodes :: g.child(n, token).None?
  }

  /** A trail cannot use up a dead token. */
  lemma {:induction false} DeadTokenStays<N(!new)>(g: SchemaGraph<N>, nodes: set<N>, token: string, w: seq<Position<N>>)
    requires Closed(g, nodes) && Dead(g, nodes, token)
    requires w != [] && w[0].node in nodes && w[0].tokens == [token]
    requires forall i, j | 0 <= i && j == i + 1 < |w| :: Step(g, w[i], w[j])
    ensures w[|w| - 1].tokens == [token]
  {
    if |w| > 1 {
      assert Step(g, w[0], w[1]);
      DeadTokenStays(g, nodes, token, w[1..]);
    }
  }

  lemma DeadPathMissing<N(!new)>(g: SchemaGraph<N>, nodes: set<N>, token: string, n: N)
    requires Closed(g, nodes) && Dead(g, nodes, token) && n in nodes
    ensures !PathExists(g, n, [token])
  {
    if w :| Trail(g, w) && w[0] == Position(n, [token]) {
      DeadTokenStays(g, nodes, token, w);
    }
  }

  /** Where no path exists, a member that exhausts the recursion limit exhausts it for all. */
  lemma {:induction false} MembersExhausted<N(!new)>(
      g: SchemaGraph<N>, members: seq<N>, m: N, tokens: seq<string>, depth: nat)
    requires m in members && HasPath(g, m, tokens, depth) == RecursionError
    requires forall n | n in members :: !PathExists(g, n, tokens)
    ensures AnyHasPath(g, members, tokens, depth) == RecursionError
  {
    if HasPath(g, members[0], tokens, depth).Answer? {
      HasPathExact(g, members[0], tokens, depth);
      MembersExhausted(g, members[1..], m, tokens, depth);
    }
  }

  /** Around a union cycle, wherever it lies among the members, a dead token is looked for
      without end. */
  lemma {:induction false} CycleNeverAnswers<N(!new)>(
      g: SchemaGraph<N>, nodes: set<N>, w: seq<N>, i: nat, token: string, depth: nat)
    requires Closed(g, nodes) && Dead(g, nodes, token)
    requires Walk(UnionEdges(g), nodes, w) && i < |w| && |w| >= 2 && w[0] == w[|w| - 1]
    ensures HasPath(g, w[i], [token], depth) == RecursionError
    decreases depth
  {
    if depth > 0 {
      var from := if i < |w| - 1 then i else 0;
      assert UnionEdges(g)(w[from], w[from + 1]);
      CycleNeverAnswers(g, nodes, w, from + 1, token, depth - 1);
      forall m | m in g.members(w[i]) ensures !PathExists(g, m, [token]) {
        assert Step(g, Position(w[i], [token]), Position(m, [token]));
        DeadPathMissing(g, nodes, token, m);
      }
      MembersExhausted(g, g.members(w[i]), w[from + 1], [token], depth - 1);
    }
  }

  /** Some recursion limit is deep enough for the query. */
  ghost predicate Answered<N(!new)>(g: SchemaGraph<N>, n: N, tokens: seq<string>) {
    exists depth: nat :: HasPath(g, n, tokens, depth).Answer?
  }

  ghost predicate AnswersAll<N(!new)>(g: SchemaGraph<N>, nodes: set<N>) {
    forall n, tokens {:trigger Answered(g, n, tokens)} | n in nodes :: Answered(g, n, tokens)
  }

  /** Exactly when the search is total: with some token no schema has anything under, every
      query has a deep enough recursion limit if and only if no chain of unions comes back to
      where it started. */
  lemma AnswersAllExactly<N(!new)>(g: SchemaGraph<N>, nodes: set<N>, dead: string)
    requires Closed(g, nodes) && Dead(g, nodes, dead)
    ensures AnswersAll(g, nodes) <==> Acyclic(UnionEdges(g), nodes)
  {
    if Acyclic(UnionEdges(g), nodes) {
      forall n, tokens: seq<string> | n in nodes ensures Answered(g, n, tokens) {
        HasPathTerminates(g, nodes, n, tokens, Budget(|tokens| + 1, |nodes|));
      }
    } else {
      var w :| Walk(UnionEdges(g), nodes, w) && |w| >= 2 && w[0] == w[|w| - 1];
      forall depth: nat ensures HasPath(g, w[0], [dead], depth) == RecursionError {
        CycleNeverAnswers(g, nodes, w, 0, dead, depth);
      }
      assert w[0] in nodes && !Answered(g, w[0], [dead]);
    }
  }

  /** When the first members already form a cycle, even paths that do exist are never found. */
  lemma {:induction false} FirstMemberCycleNeverAnswers<N(!new)>(
      g: SchemaGraph<N>, cycle: set<N>, n: N, tokens: seq<string>, depth: nat)
    requires n in cycle
    requires forall m | m in cycle :: g.members(m) != [] && g.members(m)[0] in cycle
    ensures HasPath(g, n, tokens, depth) == RecursionError
    decreases depth
  {
    if depth > 0 {
      FirstMemberCycleNeverAnswers(g, cycle, g.members(n)[0], tokens, depth - 1);
    }
  }
}
