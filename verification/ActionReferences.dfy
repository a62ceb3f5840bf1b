/** scripts/resolve_github_action_references.py: resolving pinned action references against
    the GitHub API, as a client that logs every request to a deterministic server. */
module ActionReferences {
  import opened Values
  import opened Ordering

  datatype Reference = Reference(slug: string, ref: string, path: string, line: nat)

  datatype Location = Location(path: string, line: nat)

  datatype Key = Key(slug: string, ref: string)

  /** The request paths; URL quoting is injective, so a path is what it is built from. */
  datatype ApiPath =
    | RepositoryPath(slug: string)
    | CommitPath(slug: string, sha: string)
    | TagRefPath(slug: string, ref: string)
    | TagPath(slug: string, sha: string)

  datatype ApiResponse = ApiResponse(status: int, payload: Json, detail: string)

  type Server = ApiPath -> ApiResponse

  class ApiClient {
    const server: Server
    var calls: seq<ApiPath>

    constructor (server: Server)
      ensures this.server == server && calls == []
    {
      this.server := server;
      calls := [];
    }

    method Get(path: ApiPath) returns (response: ApiResponse)
      modifies this`calls
      ensures response == server(path)
      ensures calls == old(calls) + [path]
    {
      calls := calls + [path];
      response := server(path);
    }
  }

  // ---------------------------------------------------------------- peeling a tag

  datatype Detail =
    | Reported(text: string)
    | RepositoryAbsent(text: string)
    | NoObjectTarget
    | IncompleteTarget
    | UnsupportedType(typ: string)
    | PeelFailed(status: int)
    | NestedTooDeep

  datatype Found = Found(sha: Option<string>, detail: Detail)

  /** What a git reference or an annotated tag points at. */
  datatype Target = Target(typ: string, sha: string)

  datatype TargetReply = HasTarget(target: Target) | NoTarget(reason: Detail)

  function ReadTarget(payload: Json): TargetReply {
    var node := if payload.Obj? then Get(payload.fields, "object") else Null;
    if !node.Obj? then NoTarget(NoObjectTarget)
    else if Get(node.fields, "type").Str? && Get(node.fields, "sha").Str? then
      HasTarget(Target(Get(node.fields, "type").text, Get(node.fields, "sha").text))
    else NoTarget(IncompleteTarget)
  }

  predicate IsCommitSha(ref: string) {
    |ref| == 40 && forall i | 0 <= i < |ref| :: '0' <= ref[i] <= '9' || 'a' <= ref[i] <= 'f'
  }

  const PEEL_LIMIT: nat := 10

  /** What peeling the tag object with a given sha leads to. */
  type Tags = string -> TargetReply

  function Peeled(response: ApiResponse): TargetReply {
    if response.status == 200 then ReadTarget(response.payload)
    else NoTarget(if response.detail != "" then Reported(response.detail) else PeelFailed(response.status))
  }

  function TagsOf(server: Server, slug: string): Tags {
    sha => Peeled(server(TagPath(slug, sha)))
  }

  /** The tag objects the peel loop asks for, given how many rounds are left. */
  function PeelRequests(tags: Tags, target: Target, rounds: nat): seq<string>
    decreases rounds
  {
    if rounds == 0 || target.typ != "tag" then []
    else
      match tags(target.sha)
      case NoTarget(_) => [target.sha]
      case HasTarget(next) => [target.sha] + PeelRequests(tags, next, rounds - 1)
  }

  function Peel(tags: Tags, target: Target, detail: string, rounds: nat): Found
    decreases rounds
  {
    if rounds == 0 then Found(None, NestedTooDeep)
    else if target.typ == "commit" then Found(Some(target.sha), Reported(detail))
    else if target.typ != "tag" then Found(None, UnsupportedType(target.typ))
    else
      match tags(target.sha)
      case NoTarget(reason) => Found(None, reason)
      case HasTarget(next) => Peel(tags, next, detail, rounds - 1)
  }

  function ResolvedSha(server: Server, slug: string, ref: string, response: ApiResponse): Found {
    if IsCommitSha(ref) then
      var sha := if response.payload.Obj? then Get(response.payload.fields, "sha") else Null;
      Found(Some(if sha.Str? then sha.text else ref), Reported(response.detail))
    else
      match ReadTarget(response.payload)
      case NoTarget(reason) => Found(None, reason)
      case HasTarget(target) => Peel(TagsOf(server, slug), target, response.detail, PEEL_LIMIT)
  }

  /** The requests made by resolving one reference: only tag objects of its own repository. */
  ghost predicate TagRequests(before: seq<ApiPath>, after: seq<ApiPath>, slug: string, shas: seq<string>) {
    && |after| == |before| + |shas| && before <= after
    && forall i | 0 <= i < |shas| :: after[|before| + i] == TagPath(slug, shas[i])
  }

  method ResolveSha(slug: string, ref: string, response: ApiResponse, client: ApiClient) returns (found: Found)
    modifies client`calls
    ensures found == ResolvedSha(client.server, slug, ref, response)
    ensures TagRequests(old(client.calls), client.calls, slug,
              if IsCommitSha(ref) || ReadTarget(response.payload).NoTarget? then []
              else PeelRequests(TagsOf(client.server, slug), ReadTarget(response.payload).target, PEEL_LIMIT))
  {
    if IsCommitSha(ref) {
      return ResolvedSha(client.server, slug, ref, response);
    }
    var first := ReadTarget(response.payload);
    if first.NoTarget? {
      return Found(None, first.reason);
    }
    found := PeelLoop(slug, first.target, response.detail, PEEL_LIMIT, client);
  }

  /** for _ in range(limit): follow annotated tags until a commit. */
  method PeelLoop(slug: string, start: Target, detail: string, limit: nat, client: ApiClient) returns (found: Found)
    modifies client`calls
    ensures found == Peel(TagsOf(client.server, slug), start, detail, limit)
    ensures TagRequests(old(client.calls), client.calls, slug, PeelRequests(TagsOf(client.server, slug), start, limit))
  {
    ghost var tags := TagsOf(client.server, slug);
    ghost var asked: seq<string> := [];
    var target := start;
    for i := 0 to limit
      invariant PeelAt(tags, start, detail, limit, target, i, asked)
      invariant TagRequests(old(client.calls), client.calls, slug, asked)
    {
      if target.typ == "commit" {
        return Found(Some(target.sha), Reported(detail));
      }
      if target.typ != "tag" {
        return Found(None, UnsupportedType(target.typ));
      }
      var response := client.Get(TagPath(slug, target.sha));
      var next := Peeled(response);
      PeelNext(tags, start, detail, limit, target, i, asked, next);
      asked := asked + [target.sha];
      if next.NoTarget? {
        return Found(None, next.reason);
      }
      target := next.target;
    }
    return Found(None, NestedTooDeep);
  }

  /** Where the loop stands after i rounds: what is left to do completes the whole. */
  ghost predicate PeelAt(
      tags: Tags, start: Target, detail: string, limit: nat, target: Target, i: nat, asked: seq<string>)
  {
    && i <= limit && |asked| == i
    && Peel(tags, target, detail, limit - i) == Peel(tags, start, detail, limit)
    && asked + PeelRequests(tags, target, limit - i) == PeelRequests(tags, start, limit)
  }

  lemma PeelNext(
      tags: Tags, start: Target, detail: string, limit: nat, target: Target, i: nat, asked: seq<string>,
      next: TargetReply)
    requires PeelAt(tags, start, detail, limit, target, i, asked) && i < limit
    requires target.typ == "tag" && next == tags(target.sha)
    ensures match next
            case HasTarget(target') => PeelAt(tags, start, detail, limit, target', i + 1, asked + [target.sha])
            case NoTarget(reason) =>
              && Found(None, reason) == Peel(tags, start, detail, limit)
              && asked + [target.sha] == PeelRequests(tags, start, limit)
  {
    if next.HasTarget? {
      var rest := PeelRequests(tags, next.target, limit - i - 1);
      assert asked + ([target.sha] + rest) == asked + [target.sha] + rest;
    }
  }

  /** One annotated tag points at the next target. */
  ghost predicate PointsAt(tags: Tags, a: Target, b: Target) {
    a.typ == "tag" && tags(a.sha) == HasTarget(b)
  }

  /** A chain of targets from the first one to a commit. */
  ghost predicate CommitChain(tags: Tags, chain: seq<Target>, sha: string) {
    && chain != [] && chain[|chain| - 1] == Target("commit", sha)
    && forall i, j | 0 <= i && j == i + 1 < |chain| :: PointsAt(tags, chain[i], chain[j])
  }

  /** The chain from the target reaches this commit with at most n targets in all. */
  ghost predicate ReachesCommit(tags: Tags, target: Target, n: nat, sha: string) {
    exists chain :: CommitChain(tags, chain, sha) && chain[0] == target && |chain| <= n
  }

  lemma ReachesFromNext(tags: Tags, target: Target, next: Target, n: nat, sha: string)
    requires PointsAt(tags, target, next) && ReachesCommit(tags, next, n, sha)
    ensures ReachesCommit(tags, target, n + 1, sha)
  {
    var chain :| CommitChain(tags, chain, sha) && chain[0] == next && |chain| <= n;
    assert CommitChain(tags, [target] + chain, sha);
  }

  lemma ReachesUnfolds(tags: Tags, target: Target, n: nat, sha: string)
    requires ReachesCommit(tags, target, n, sha)
    ensures n > 0
    ensures target != Target("commit", sha) ==>
              && target.typ == "tag" && tags(target.sha).HasTarget?
              && ReachesCommit(tags, tags(target.sha).target, n - 1, sha)
  {
    var chain :| CommitChain(tags, chain, sha) && chain[0] == target && |chain| <= n;
    if |chain| > 1 {
      assert PointsAt(tags, chain[0], chain[1]);
      assert CommitChain(tags, chain[1..], sha);
    }
  }

  /** Peeling yields a commit exactly when the chain of tags reaches one within the rounds: with
      ten rounds, after at most nine tag objects. */
  lemma {:induction false} PeelExactly(tags: Tags, target: Target, detail: string, rounds: nat, sha: string)
    ensures Peel(tags, target, detail, rounds).sha == Some(sha) <==> ReachesCommit(tags, target, rounds, sha)
    decreases rounds
  {
    if ReachesCommit(tags, target, rounds, sha) {
      ReachesUnfolds(tags, target, rounds, sha);
    }
    if rounds > 0 {
      if target == Target("commit", sha) {
        assert CommitChain(tags, [target], sha);
      } else if target.typ == "tag" && tags(target.sha).HasTarget? {
        PeelExactly(tags, tags(target.sha).target, detail, rounds - 1, sha);
        if ReachesCommit(tags, tags(target.sha).target, rounds - 1, sha) {
          ReachesFromNext(tags, target, tags(target.sha).target, rounds - 1, sha);
        }
      }
    }
  }

  /** At most one request per round on any chain, cyclic ones included. */
  lemma {:induction false} PeelRequestsBounded(tags: Tags, target: Target, rounds: nat)
    ensures |PeelRequests(tags, target, rounds)| <= rounds
    decreases rounds
  {
    if rounds > 0 && target.typ == "tag" && tags(target.sha).HasTarget? {
      PeelRequestsBounded(tags, tags(target.sha).target, rounds - 1);
    }
  }

  // ---------------------------------------------------------------- resolving all references

  datatype Status = Resolved | MissingRef | Inconclusive

  datatype Resolution = Resolution(
    key: Key, status: Status, resolvedSha: Option<string>, detail: Detail, occurrences: seq<Location>)

  predicate KeyLess(a: Key, b: Key) {
    StringLess(a.slug, b.slug) || (a.slug == b.slug && StringLess(a.ref, b.ref))
  }

  lemma KeyLessStrictTotal()
    ensures StrictTotal(KeyLess)
  {
    StringLessStrictTotal();
  }

  function KeyOf(r: Reference): Key {
    Key(r.slug, r.ref)
  }

  /** The references with a key, in order. */
  function Occurrences(references: seq<Reference>, key: Key): seq<Reference> {
    if references == [] then []
    else
      var last := references[|references| - 1];
      var init := Occurrences(references[..|references| - 1], key);
      if KeyOf(last) == key then init + [last] else init
  }

  function Locations(references: seq<Reference>): seq<Location> {
    seq(|references|, i requires 0 <= i < |references| => Location(references[i].path, references[i].line))
  }

  function ReferencePath(key: Key): ApiPath {
    if IsCommitSha(key.ref) then CommitPath(key.slug, key.ref) else TagRefPath(key.slug, key.ref)
  }

  /** What one key resolves to, asking the server for everything. */
  function Resolve(server: Server, key: Key): Resolution {
    var repository := server(RepositoryPath(key.slug));
    if repository.status == 404 then Resolution(key, Inconclusive, None, RepositoryAbsent(repository.detail), [])
    else if repository.status != 200 then Resolution(key, Inconclusive, None, Reported(repository.detail), [])
    else ResolveIn(server, key, server(ReferencePath(key)))
  }

  function ResolveIn(server: Server, key: Key, response: ApiResponse): Resolution {
    if response.status == 200 then
      var found := ResolvedSha(server, key.slug, key.ref, response);
      Resolution(key, if found.sha.Some? then Resolved else Inconclusive, found.sha, found.detail, [])
    else
      Resolution(key, if response.status == 404 then MissingRef else Inconclusive, None, Reported(response.detail), [])
  }

  method GroupReferences(references: seq<Reference>) returns (grouped: map<Key, seq<Reference>>)
    ensures forall key :: key in grouped <==> Occurrences(references, key) != []
    ensures forall key | key in grouped :: grouped[key] == Occurrences(references, key)
  {
    grouped := map[];
    for i := 0 to |references|
      invariant forall key :: key in grouped <==> Occurrences(references[..i], key) != []
      invariant forall key | key in grouped :: grouped[key] == Occurrences(references[..i], key)
    {
      var key := KeyOf(references[i]);
      assert references[..i + 1][..i] == references[..i];
      var before := if key in grouped then grouped[key] else [];
      grouped := grouped[key := before + [references[i]]];
    }
    assert references[..|references|] == references;
  }

  /** How often the repository itself was asked for. */
  function RepositoryCalls(calls: seq<ApiPath>, slug: string): nat {
    if calls == [] then 0
    else
      RepositoryCalls(calls[..|calls| - 1], slug)
      + if calls[|calls| - 1] == RepositoryPath(slug) then 1 else 0
  }

  lemma {:induction false} RepositoryCallsAppend(a: seq<ApiPath>, b: seq<ApiPath>, slug: string)
    ensures RepositoryCalls(a + b, slug) == RepositoryCalls(a, slug) + RepositoryCalls(b, slug)
  {
    if b == [] {
      assert a + b == a;
    } else {
      assert (a + b)[..|a + b| - 1] == a + b[..|b| - 1];
      RepositoryCallsAppend(a, b[..|b| - 1], slug);
    }
  }

  lemma {:induction false} NoRepositoryCalls(calls: seq<ApiPath>, slug: string)
    requires forall i | 0 <= i < |calls| :: !calls[i].RepositoryPath?
    ensures RepositoryCalls(calls, slug) == 0
  {
    if calls != [] {
      NoRepositoryCalls(calls[..|calls| - 1], slug);
    }
  }

  /** The calls went on without asking for a repository. */
  ghost predicate NoRepositoryAsked(before: seq<ApiPath>, after: seq<ApiPath>) {
    before <= after && forall i | |before| <= i < |after| :: !after[i].RepositoryPath?
  }

  lemma NoRepositoryAskedCounts(before: seq<ApiPath>, after: seq<ApiPath>, slug: string)
    requires NoRepositoryAsked(before, after)
    ensures RepositoryCalls(after, slug) == RepositoryCalls(before, slug)
  {
    var more := after[|before|..];
    assert after == before + more;
    NoRepositoryCalls(more, slug);
    RepositoryCallsAppend(before, more, slug);
  }

  /** The part of the loop body that follows the repository check. */
  method ResolveReference(key: Key, client: ApiClient) returns (resolution: Resolution)
    modifies client`calls
    ensures resolution == ResolveIn(client.server, key, client.server(ReferencePath(key)))
    ensures NoRepositoryAsked(old(client.calls), client.calls)
  {
    var response := client.Get(ReferencePath(key));
    if response.status == 200 {
      ghost var before := client.calls;
      var found := ResolveSha(key.slug, key.ref, response, client);
      TagRequestsAskNoRepository(before, client.calls, key.slug);
      resolution := Resolution(key, if found.sha.Some? then Resolved else Inconclusive, found.sha, found.detail, []);
    } else {
      var status := if response.status == 404 then MissingRef else Inconclusive;
      resolution := Resolution(key, status, None, Reported(response.detail), []);
    }
  }

  lemma TagRequestsAskNoRepository(before: seq<ApiPath>, after: seq<ApiPath>, slug: string)
    requires exists shas :: TagRequests(before, after, slug, shas)
    ensures NoRepositoryAsked(before, after)
  {
    var shas :| TagRequests(before, after, slug, shas);
    forall i | |before| <= i < |after| ensures !after[i].RepositoryPath? {
      assert after[|before| + (i - |before|)] == TagPath(slug, shas[i - |before|]);
    }
  }

  /** One turn of the loop, with the repository status remembered per slug. */
  method ResolveKey(key: Key, memo: map<string, ApiResponse>, client: ApiClient)
    returns (resolution: Resolution, memo': map<string, ApiResponse>)
    requires forall slug | slug in memo :: memo[slug] == client.server(RepositoryPath(slug))
    modifies client`calls
    ensures resolution == Resolve(client.server, key)
    ensures memo' == memo[key.slug := client.server(RepositoryPath(key.slug))]
    ensures forall slug :: RepositoryCalls(client.calls, slug) ==
              RepositoryCalls(old(client.calls), slug) + if slug == key.slug && slug !in memo then 1 else 0
  {
    memo' := memo;
    if key.slug !in memo {
      var response := client.Get(RepositoryPath(key.slug));
      memo' := memo[key.slug := response];
    }
    ghost var asked := client.calls;
    var repository := memo'[key.slug];
    if repository.status == 404 {
      resolution := Resolution(key, Inconclusive, None, RepositoryAbsent(repository.detail), []);
    } else if repository.status != 200 {
      resolution := Resolution(key, Inconclusive, None, Reported(repository.detail), []);
    } else {
      resolution := ResolveReference(key, client);
      forall slug ensures RepositoryCalls(client.calls, slug) == RepositoryCalls(asked, slug) {
        NoRepositoryAskedCounts(asked, client.calls, slug);
      }
    }
  }

  /** The resolutions are those of the keys, each resolved without a memo, with its own
      occurrences. */
  ghost predicate Resolves(server: Server, references: seq<Reference>, keys: seq<Key>, resolutions: seq<Resolution>) {
    && |resolutions| == |keys|
    && forall i | 0 <= i < |keys| ::
         resolutions[i] == Resolve(server, keys[i]).(occurrences := Locations(Occurrences(references, keys[i])))
  }

  ghost predicate SlugAmong(keys: seq<Key>, slug: string) {
    exists i :: 0 <= i < |keys| && keys[i].slug == slug
  }

  /** Exactly the keys of the references, strictly sorted. */
  ghost predicate SortedKeys(references: seq<Reference>, keys: seq<Key>) {
    StrictlySorted(KeyLess, keys) && forall key :: key in keys <==> Occurrences(references, key) != []
  }

  lemma ResolvesSnoc(server: Server, references: seq<Reference>, keys: seq<Key>, n: nat, resolutions: seq<Resolution>)
    requires n < |keys| && Resolves(server, references, keys[..n], resolutions)
    ensures Resolves(server, references, keys[..n + 1],
              resolutions + [Resolve(server, keys[n]).(occurrences := Locations(Occurrences(references, keys[n])))])
  {
  }

  /** The slugs met so far, and only they, have their repository reply remembered. */
  ghost predicate Remembers(server: Server, keys: seq<Key>, memo: map<string, ApiResponse>) {
    && (forall slug :: slug in memo <==> SlugAmong(keys, slug))
    && (forall slug | slug in memo :: memo[slug] == server(RepositoryPath(slug)))
  }

  lemma RemembersSnoc(server: Server, keys: seq<Key>, n: nat, memo: map<string, ApiResponse>)
    requires n < |keys| && Remembers(server, keys[..n], memo)
    ensures Remembers(server, keys[..n + 1], memo[keys[n].slug := server(RepositoryPath(keys[n].slug))])
  {
    SlugAmongSnoc(keys, n);
  }

  /** Each of the slugs had its repository asked for once between the two logs. */
  ghost predicate AskedOnce(before: seq<ApiPath>, after: seq<ApiPath>, slugs: set<string>) {
    forall slug :: RepositoryCalls(after, slug) == RepositoryCalls(before, slug) + if slug in slugs then 1 else 0
  }

  lemma AskedOnceSnoc(start: seq<ApiPath>, before: seq<ApiPath>, after: seq<ApiPath>, slugs: set<string>, slug: string)
    requires AskedOnce(start, before, slugs)
    requires forall other :: RepositoryCalls(after, other) ==
               RepositoryCalls(before, other) + if other == slug && other !in slugs then 1 else 0
    ensures AskedOnce(start, after, slugs + {slug})
  {
  }

  lemma RememberedSlugs(server: Server, keys: seq<Key>, memo: map<string, ApiResponse>)
    requires Remembers(server, keys, memo)
    ensures memo.Keys == set i | 0 <= i < |keys| :: keys[i].slug
  {
  }

  method ResolveReferences(references: seq<Reference>, client: ApiClient)
    returns (resolutions: seq<Resolution>, ghost keys: seq<Key>)
    modifies client`calls
    ensures SortedKeys(references, keys)
    ensures Resolves(client.server, references, keys, resolutions)
    ensures AskedOnce(old(client.calls), client.calls, set i | 0 <= i < |keys| :: keys[i].slug)
  {
    var grouped := GroupReferences(references);
    KeyLessStrictTotal();
    var sorted := SortSet(KeyLess, grouped.Keys);
    keys := sorted;
    var memo: map<string, ApiResponse> := map[];
    resolutions := [];
    for i := 0 to |sorted|
      invariant Resolves(client.server, references, sorted[..i], resolutions)
      invariant Remembers(client.server, sorted[..i], memo)
      invariant AskedOnce(old(client.calls), client.calls, memo.Keys)
    {
      ghost var slugs, asked := memo.Keys, client.calls;
      ResolvesSnoc(client.server, references, sorted, i, resolutions);
      RemembersSnoc(client.server, sorted, i, memo);
      assert sorted[i] in sorted;
      var resolution;
      resolution, memo := ResolveKey(sorted[i], memo, client);
      AskedOnceSnoc(old(client.calls), asked, client.calls, slugs, sorted[i].slug);
      assert memo.Keys == slugs + {sorted[i].slug};
      resolutions := resolutions + [resolution.(occurrences := Locations(grouped[sorted[i]]))];
    }
    assert sorted[..|sorted|] == sorted;
    RememberedSlugs(client.server, keys, memo);
  }

  lemma SlugAmongSnoc(keys: seq<Key>, n: nat)
    requires n < |keys|
    ensures forall slug :: SlugAmong(keys[..n + 1], slug) <==> SlugAmong(keys[..n], slug) || slug == keys[n].slug
  {
    forall slug ensures SlugAmong(keys[..n + 1], slug) <==> SlugAmong(keys[..n], slug) || slug == keys[n].slug {
      if SlugAmong(keys[..n], slug) {
        var i :| 0 <= i < n && keys[..n][i].slug == slug;
        assert keys[..n + 1][i].slug == slug;
      }
      if slug == keys[n].slug {
        assert keys[..n + 1][n].slug == slug;
      }
      if SlugAmong(keys[..n + 1], slug) && slug != keys[n].slug {
        var i :| 0 <= i < n + 1 && keys[..n + 1][i].slug == slug;
        assert keys[..n][i].slug == slug;
      }
    }
  }

  // ---------------------------------------------------------------- the resolutions partition the references

  function OccurrencesOfAll(references: seq<Reference>, keys: seq<Key>): seq<Reference> {
    if keys == [] then []
    else OccurrencesOfAll(references, keys[..|keys| - 1]) + Occurrences(references, keys[|keys| - 1])
  }

  lemma {:induction false} OneMoreReference(references: seq<Reference>, r: Reference, keys: seq<Key>)
    requires Distinct(keys)
    ensures multiset(OccurrencesOfAll(references + [r], keys))
         == multiset(OccurrencesOfAll(references, keys)) + if KeyOf(r) in keys then multiset{r} else multiset{}
  {
    if keys != [] {
      var init, last := keys[..|keys| - 1], keys[|keys| - 1];
      OneMoreReference(references, r, init);
      assert (references + [r])[..|references|] == references;
      assert KeyOf(r) in keys <==> KeyOf(r) in init || KeyOf(r) == last;
      assert last !in init;
    }
  }

  lemma {:induction false} NoReferences(keys: seq<Key>)
    ensures OccurrencesOfAll([], keys) == []
  {
    if keys != [] {
      NoReferences(keys[..|keys| - 1]);
    }
  }

  lemma {:induction false} KeyHasOccurrences(references: seq<Reference>, r: Reference)
    requires r in references
    ensures Occurrences(references, KeyOf(r)) != []
  {
    var init := references[..|references| - 1];
    if r in init {
      KeyHasOccurrences(init, r);
    }
  }

  /** Conservation: over all resolutions together, every reference occurs exactly as often as
      in the input. */
  lemma {:induction false} ResolutionsPartition(references: seq<Reference>, keys: seq<Key>)
    requires Distinct(keys) && forall r | r in references :: KeyOf(r) in keys
    ensures multiset(OccurrencesOfAll(references, keys)) == multiset(references)
  {
    if references == [] {
      NoReferences(keys);
    } else {
      var init, last := references[..|references| - 1], references[|references| - 1];
      assert references == init + [last];
      ResolutionsPartition(init, keys);
      OneMoreReference(init, last, keys);
    }
  }

  lemma SortedKeysPartition(references: seq<Reference>, keys: seq<Key>)
    requires SortedKeys(references, keys)
    ensures multiset(OccurrencesOfAll(references, keys)) == multiset(references)
  {
    KeyLessStrictTotal();
    forall r | r in references ensures KeyOf(r) in keys {
      KeyHasOccurrences(references, r);
    }
    ResolutionsPartition(references, keys);
  }

  // ---------------------------------------------------------------- the outcome

  datatype Outcome = AllResolved | SomeMissing | SomeInconclusive

  function OverallOutcome(references: seq<Reference>, resolutions: seq<Resolution>): Outcome {
    if references == [] then SomeMissing
    else if exists i | 0 <= i < |resolutions| :: resolutions[i].status == MissingRef then SomeMissing
    else if exists i | 0 <= i < |resolutions| :: resolutions[i].status == Inconclusive then SomeInconclusive
    else AllResolved
  }

  /** The outcome is "resolved" exactly when there are references and each of them resolves. */
  lemma OutcomeResolvedExactly(server: Server, references: seq<Reference>, keys: seq<Key>, resolutions: seq<Resolution>)
    requires SortedKeys(references, keys) && Resolves(server, references, keys, resolutions)
    ensures OverallOutcome(references, resolutions) == AllResolved
       <==> references != [] && forall r | r in references :: Resolve(server, KeyOf(r)).status == Resolved
  {
    if OverallOutcome(references, resolutions) == AllResolved {
      forall r | r in references ensures Resolve(server, KeyOf(r)).status == Resolved {
        KeyHasOccurrences(references, r);
        var i :| 0 <= i < |keys| && keys[i] == KeyOf(r);
        assert resolutions[i].status == Resolve(server, keys[i]).status;
      }
    } else if references != [] {
      var i :| 0 <= i < |resolutions| && resolutions[i].status != Resolved;
      assert keys[i] in keys;
      OccurrencesHaveKey(references, keys[i]);
      var r := Occurrences(references, keys[i])[0];
      assert resolutions[i].status == Resolve(server, KeyOf(r)).status;
    }
  }

  lemma {:induction false} OccurrencesHaveKey(references: seq<Reference>, key: Key)
    ensures forall i | 0 <= i < |Occurrences(references, key)| ::
              Occurrences(references, key)[i] in references && KeyOf(Occurrences(references, key)[i]) == key
  {
    if references != [] {
      OccurrencesHaveKey(references[..|references| - 1], key);
      assert references == references[..|references| - 1] + [references[|references| - 1]];
    }
  }

  // ---------------------------------------------------------------- what the server's replies mean

  /** The reply's object has this type and sha. */
  predicate Describes(payload: Json, target: Target) {
    && payload.Obj? && "object" in payload.fields && payload.fields["object"].Obj?
    && var node := payload.fields["object"].fields;
       && "type" in node && node["type"] == Str(target.typ)
       && "sha" in node && node["sha"] == Str(target.sha)
  }

  lemma ReadTargetExactly(payload: Json, target: Target)
    ensures ReadTarget(payload) == HasTarget(target) <==> Describes(payload, target)
  {
  }

  /** The server knows the annotated tag, and what it points at. */
  ghost predicate TagPointsAt(server: Server, slug: string, a: Target, b: Target) {
    a.typ == "tag" && server(TagPath(slug, a.sha)).status == 200 && Describes(server(TagPath(slug, a.sha)).payload, b)
  }

  lemma PointsAtExactly(server: Server, slug: string, a: Target, b: Target)
    ensures PointsAt(TagsOf(server, slug), a, b) <==> TagPointsAt(server, slug, a, b)
  {
    ReadTargetExactly(server(TagPath(slug, a.sha)).payload, b);
  }

  /** A chain of annotated tags on the server from a first target to a commit. */
  ghost predicate TagChain(server: Server, slug: string, chain: seq<Target>, sha: string) {
    && chain != [] && chain[|chain| - 1] == Target("commit", sha)
    && forall i, j | 0 <= i && j == i + 1 < |chain| :: TagPointsAt(server, slug, chain[i], chain[j])
  }

  lemma TagChainExactly(server: Server, slug: string, chain: seq<Target>, sha: string)
    ensures TagChain(server, slug, chain, sha) <==> CommitChain(TagsOf(server, slug), chain, sha)
  {
    forall i, j | 0 <= i && j == i + 1 < |chain|
      ensures TagPointsAt(server, slug, chain[i], chain[j]) <==> PointsAt(TagsOf(server, slug), chain[i], chain[j])
    {
      PointsAtExactly(server, slug, chain[i], chain[j]);
    }
  }

  /** The tag reference leads to the commit over at most nine annotated tags. */
  ghost predicate TagLeadsTo(server: Server, slug: string, payload: Json, sha: string) {
    exists chain :: TagChain(server, slug, chain, sha) && Describes(payload, chain[0]) && |chain| <= 10
  }

  /** What a reply to a commit path confirms: its sha if it has one, and otherwise the reference. */
  predicate Confirms(payload: Json, ref: string, sha: string) {
    if payload.Obj? && "sha" in payload.fields && payload.fields["sha"].Str? then payload.fields["sha"].text == sha
    else sha == ref
  }

  /** The reference resolves to the sha, in terms of the server's replies. */
  ghost predicate ResolvesTo(server: Server, key: Key, sha: string) {
    && server(RepositoryPath(key.slug)).status == 200
    && if IsCommitSha(key.ref) then
         var reply := server(CommitPath(key.slug, key.ref));
         reply.status == 200 && Confirms(reply.payload, key.ref, sha)
       else
         var reply := server(TagRefPath(key.slug, key.ref));
         reply.status == 200 && TagLeadsTo(server, key.slug, reply.payload, sha)
  }

  /** The repository is there and says that the reference is not. */
  predicate IsMissing(server: Server, key: Key) {
    && server(RepositoryPath(key.slug)).status == 200
    && var path := if IsCommitSha(key.ref) then CommitPath(key.slug, key.ref) else TagRefPath(key.slug, key.ref);
       server(path).status == 404
  }

  lemma TagLeadsExactly(server: Server, slug: string, ref: string, response: ApiResponse, sha: string)
    requires !IsCommitSha(ref)
    ensures ResolvedSha(server, slug, ref, response).sha == Some(sha)
       <==> TagLeadsTo(server, slug, response.payload, sha)
  {
    var tags := TagsOf(server, slug);
    forall target ensures ReadTarget(response.payload) == HasTarget(target) <==> Describes(response.payload, target) {
      ReadTargetExactly(response.payload, target);
    }
    if ReadTarget(response.payload).HasTarget? {
      var target := ReadTarget(response.payload).target;
      PeelExactly(tags, target, response.detail, PEEL_LIMIT, sha);
      if chain :| CommitChain(tags, chain, sha) && chain[0] == target && |chain| <= PEEL_LIMIT {
        TagChainExactly(server, slug, chain, sha);
      }
    }
    if TagLeadsTo(server, slug, response.payload, sha) {
      var chain :| TagChain(server, slug, chain, sha) && Describes(response.payload, chain[0]) && |chain| <= 10;
      TagChainExactly(server, slug, chain, sha);
    }
  }

  /** The resolution of a key, exactly: to which commit, or as missing; it is inconclusive
      otherwise. */
  lemma ResolveExactly(server: Server, key: Key, sha: string)
    ensures Resolve(server, key).key == key
    ensures Resolve(server, key).resolvedSha == Some(sha) <==> ResolvesTo(server, key, sha)
    ensures Resolve(server, key).status == Resolved <==> Resolve(server, key).resolvedSha.Some?
    ensures Resolve(server, key).status == MissingRef <==> IsMissing(server, key)
  {
    if server(RepositoryPath(key.slug)).status == 200 {
      var reply := server(ReferencePath(key));
      if reply.status == 200 && !IsCommitSha(key.ref) {
        TagLeadsExactly(server, key.slug, key.ref, reply, sha);
      }
    }
  }

  /** The outcome, exactly: missing when there are no references or one is missing, and otherwise
      inconclusive when one does not resolve to a commit. */
  lemma OutcomeExactly(server: Server, references: seq<Reference>, keys: seq<Key>, resolutions: seq<Resolution>)
    requires SortedKeys(references, keys) && Resolves(server, references, keys, resolutions)
    ensures OverallOutcome(references, resolutions) == SomeMissing
       <==> references == [] || exists r :: r in references && IsMissing(server, KeyOf(r))
    ensures OverallOutcome(references, resolutions) == AllResolved
       <==> references != [] && forall r | r in references :: exists sha :: ResolvesTo(server, KeyOf(r), sha)
  {
    OutcomeResolvedExactly(server, references, keys, resolutions);
    MissingOutcomeExactly(server, references, keys, resolutions);
    forall r | r in references
      ensures Resolve(server, KeyOf(r)).status == Resolved <==> exists sha :: ResolvesTo(server, KeyOf(r), sha)
    {
      ResolvedHasCommit(server, KeyOf(r));
    }
  }

  lemma ResolvedHasCommit(server: Server, key: Key)
    ensures Resolve(server, key).status == Resolved <==> exists sha :: ResolvesTo(server, key, sha)
  {
    ResolveExactly(server, key, "");
    if Resolve(server, key).resolvedSha.Some? {
      ResolveExactly(server, key, Resolve(server, key).resolvedSha.value);
    }
    if sha :| ResolvesTo(server, key, sha) {
      ResolveExactly(server, key, sha);
    }
  }

  lemma MissingOutcomeExactly(server: Server, references: seq<Reference>, keys: seq<Key>, resolutions: seq<Resolution>)
    requires SortedKeys(references, keys) && Resolves(server, references, keys, resolutions)
    ensures OverallOutcome(references, resolutions) == SomeMissing
       <==> references == [] || exists r :: r in references && IsMissing(server, KeyOf(r))
  {
    if i :| 0 <= i < |resolutions| && resolutions[i].status == MissingRef {
      assert keys[i] in keys;
      ResolveExactly(server, keys[i], "");
      OccurrencesHaveKey(references, keys[i]);
      var r := Occurrences(references, keys[i])[0];
      assert r in references && IsMissing(server, KeyOf(r));
    }
    if r :| r in references && IsMissing(server, KeyOf(r)) {
      KeyHasOccurrences(references, r);
      var i :| 0 <= i < |keys| && keys[i] == KeyOf(r);
      ResolveExactly(server, keys[i], "");
      assert resolutions[i].status == MissingRef;
    }
  }
}
