/** src/app/app_lifecycle.py: who owns the downstream HTTP pools, and which of them are closed,
    on every way out of the application lifespan. */
module AppLifespan {
  import opened Values

  type PoolId = nat

  /** What app.state holds under a client attribute. */
  datatype Adapter = OverPool(pool: PoolId) | Injected(id: nat)

  type State = map<string, Adapter>

  /** Building a client: the pool is made, then wrapped in an adapter; either may raise. */
  datatype Build = Built(pool: PoolId) | PoolFails | AdapterFails(pool: PoolId)

  /** How aclose() ends: normally, with an Exception, or with another BaseException such as
      asyncio.CancelledError, which `except Exception` does not catch. */
  datatype Closing = Closed | Failed | Cancelled

  datatype Owned = Owned(attribute: string, pool: PoolId)

  /** What the application body leaves behind, and whether it raised. */
  datatype BodyResult = BodyResult(state: State, raised: bool)

  datatype Ending = Normal | Raised

  const CORE := "lotus_core_client"
  const PERFORMANCE := "lotus_performance_client"

  // ---------------------------------------------------------------- the specification

  datatype Startup = Startup(state: State, owned: seq<Owned>, created: seq<PoolId>, raised: bool)

  /** One client: kept when injected, otherwise built, stored and recorded as owned. */
  function Acquire(s: Startup, attribute: string, build: Build): Startup {
    if s.raised || attribute in s.state then s
    else
      match build
      case PoolFails => s.(raised := true)
      case AdapterFails(pool) => s.(created := s.created + [pool], raised := true)
      case Built(pool) =>
        Startup(s.state[attribute := OverPool(pool)], s.owned + [Owned(attribute, pool)], s.created + [pool], false)
  }

  function Start(state: State, core: Build, performance: Build): Startup {
    Acquire(Acquire(Startup(state, [], [], false), CORE, core), PERFORMANCE, performance)
  }

  datatype Shutdown = Shutdown(state: State, attempted: seq<PoolId>, aborted: bool)

  /** Closing in reverse: the attribute goes in a `finally`, which raises when it is missing;
      that and a cancellation end the loop. */
  function Close(state: State, owned: seq<Owned>, closing: PoolId -> Closing): Shutdown
    decreases |owned|
  {
    if owned == [] then Shutdown(state, [], false)
    else
      var last := owned[|owned| - 1];
      var after := state - {last.attribute};
      if last.attribute !in state || closing(last.pool).Cancelled? then Shutdown(after, [last.pool], true)
      else
        var rest := Close(after, owned[..|owned| - 1], closing);
        rest.(attempted := [last.pool] + rest.attempted)
  }

  // ---------------------------------------------------------------- the program

  class Application {
    var state: State
    var draining: Option<bool>
    /** Every pool whose aclose() was called, in order. */
    var closeLog: seq<PoolId>

    method CloseOwnedHttpClients(owned: seq<Owned>, closing: PoolId -> Closing) returns (aborted: bool)
      modifies this`state, this`closeLog
      ensures var s := Close(old(state), owned, closing);
              state == s.state && closeLog == old(closeLog) + s.attempted && aborted == s.aborted
    {
      assert owned[..|owned|] == owned;
      for i := |owned| downto 0
        invariant var s, rest := Close(old(state), owned, closing), Close(state, owned[..i], closing);
                  && rest.state == s.state && rest.aborted == s.aborted
                  && closeLog + rest.attempted == old(closeLog) + s.attempted
      {
        var client := owned[i];
        assert owned[..i + 1][..i] == owned[..i];
        closeLog := closeLog + [client.pool];
        var outcome := closing(client.pool);
        if client.attribute !in state {
          assert state - {client.attribute} == state;
          return true;
        }
        state := state - {client.attribute};
        if outcome.Cancelled? {
          return true;
        }
      }
      return false;
    }

    method AcquireClient(
        attribute: string, build: Build, owned: seq<Owned>, ghost created: seq<PoolId>)
      returns (owned': seq<Owned>, raised: bool, ghost created': seq<PoolId>)
      modifies this`state
      ensures Startup(state, owned', created', raised)
           == Acquire(Startup(old(state), owned, created, false), attribute, build)
      ensures attribute in old(state) ==> state == old(state) && owned' == owned && !raised
      ensures attribute !in old(state) && build.Built? ==>
                && state == old(state)[attribute := OverPool(build.pool)]
                && owned' == owned + [Owned(attribute, build.pool)] && !raised
      ensures attribute !in old(state) && !build.Built? ==> state == old(state) && owned' == owned && raised
    {
      owned', raised, created' := owned, false, created;
      if attribute !in state {
        match build {
          case PoolFails => raised := true;
          case AdapterFails(pool) => created', raised := created + [pool], true;
          case Built(pool) =>
            created' := created + [pool];
            state := state[attribute := OverPool(pool)];
            owned' := owned + [Owned(attribute, pool)];
        }
      }
    }

    method ApplicationLifespan(core: Build, performance: Build, body: State -> BodyResult, closing: PoolId -> Closing)
      returns (ending: Ending)
      modifies this
      ensures draining == Some(true)
      ensures var s := Start(old(state), core, performance);
              var b := if s.raised then BodyResult(s.state, true) else body(s.state);
              var c := Close(b.state, s.owned, closing);
              && state == c.state
              && closeLog == old(closeLog) + c.attempted
              && (ending == Normal <==> !b.raised && !c.aborted)
    {
      draining := Some(false);
      var owned: seq<Owned> := [];
      ghost var created: seq<PoolId> := [];
      var raised;
      owned, raised, created := AcquireClient(CORE, core, owned, created);
      if !raised {
        owned, raised, created := AcquireClient(PERFORMANCE, performance, owned, created);
      }
      if !raised {
        var result := body(state);
        state := result.state;
        raised := result.raised;
      }
      draining := Some(true);
      var aborted := CloseOwnedHttpClients(owned, closing);
      ending := if raised || aborted then Raised else Normal;
    }
  }

  // ---------------------------------------------------------------- which pools are closed

  function PoolsReversed(owned: seq<Owned>): seq<PoolId> {
    if owned == [] then [] else [owned[|owned| - 1].pool] + PoolsReversed(owned[..|owned| - 1])
  }

  function Attributes(owned: seq<Owned>): set<string> {
    set i | 0 <= i < |owned| :: owned[i].attribute
  }

  ghost predicate DistinctAttributes(owned: seq<Owned>) {
    forall i, j | 0 <= i < j < |owned| :: owned[i].attribute != owned[j].attribute
  }

  /** Nothing stops the loop at this client. */
  predicate GoesOn(state: State, client: Owned, closing: PoolId -> Closing) {
    client.attribute in state && !closing(client.pool).Cancelled?
  }

  lemma {:induction false} CloseAttempts(state: State, owned: seq<Owned>, closing: PoolId -> Closing)
    ensures Close(state, owned, closing).attempted <= PoolsReversed(owned)
    ensures |PoolsReversed(owned)| == |owned|
    decreases |owned|
  {
    if owned != [] {
      var last := owned[|owned| - 1];
      CloseAttempts(state - {last.attribute}, owned[..|owned| - 1], closing);
    }
  }

  /** Every owned pool has its close attempted, once and in reverse order, exactly when the loop
      is stopped by none of the clients it closes before the last: a close that fails with an
      Exception does not stop it, a cancellation and a missing attribute do. */
  lemma {:induction false} AllClosedExactly(state: State, owned: seq<Owned>, closing: PoolId -> Closing)
    requires DistinctAttributes(owned)
    ensures Close(state, owned, closing).attempted == PoolsReversed(owned)
       <==> forall i | 0 < i < |owned| :: GoesOn(state, owned[i], closing)
    decreases |owned|
  {
    if owned != [] {
      var init, last := owned[..|owned| - 1], owned[|owned| - 1];
      var after := state - {last.attribute};
      CloseAttempts(after, init, closing);
      AllClosedExactly(after, init, closing);
      assert forall i | 0 <= i < |init| :: GoesOn(after, init[i], closing) == GoesOn(state, owned[i], closing);
      if !GoesOn(state, last, closing) {
        assert Close(state, owned, closing).attempted == [last.pool];
        assert |PoolsReversed(owned)| == |owned|;
      } else {
        assert ([last.pool] + Close(after, init, closing).attempted)[1..] == Close(after, init, closing).attempted;
        assert PoolsReversed(owned)[1..] == PoolsReversed(init);
      }
    }
  }

  /** If nothing stops the loop, the owned attributes are gone and the rest of the state is as
      the body left it. */
  lemma {:induction false} CloseRemovesOwned(state: State, owned: seq<Owned>, closing: PoolId -> Closing)
    requires DistinctAttributes(owned) && forall i | 0 <= i < |owned| :: GoesOn(state, owned[i], closing)
    ensures Close(state, owned, closing) == Shutdown(state - Attributes(owned), PoolsReversed(owned), false)
    decreases |owned|
  {
    if owned == [] {
      assert state - Attributes([]) == state;
    } else {
      var init, last := owned[..|owned| - 1], owned[|owned| - 1];
      var after := state - {last.attribute};
      assert forall i | 0 <= i < |init| :: init[i] == owned[i] && GoesOn(after, init[i], closing);
      CloseRemovesOwned(after, init, closing);
      assert Attributes(owned) == Attributes(init) + {last.attribute};
      assert after - Attributes(init) == state - Attributes(owned);
    }
  }

  /** What startup has done to a state: it owns what it added, under distinct attributes, and
      keeps the rest. */
  ghost predicate OwnsAdditions(before: State, s: Startup) {
    && DistinctAttributes(s.owned) && Attributes(s.owned) !! before.Keys
    && before.Keys <= s.state.Keys && (forall a | a in before :: s.state[a] == before[a])
    && s.state.Keys == before.Keys + Attributes(s.owned)
  }

  lemma AttributesSnoc(owned: seq<Owned>, o: Owned)
    ensures Attributes(owned + [o]) == Attributes(owned) + {o.attribute}
  {
    assert (owned + [o])[|owned|] == o;
    assert forall i | 0 <= i < |owned| :: (owned + [o])[i] == owned[i];
  }

  lemma AcquireKeepsOwnership(before: State, s: Startup, attribute: string, build: Build)
    requires OwnsAdditions(before, s)
    ensures OwnsAdditions(before, Acquire(s, attribute, build))
  {
    if !s.raised && attribute !in s.state && build.Built? {
      var o := Owned(attribute, build.pool);
      AttributesSnoc(s.owned, o);
      assert forall i | 0 <= i < |s.owned| :: s.owned[i].attribute in Attributes(s.owned);
      assert DistinctAttributes(s.owned + [o]);
    }
  }

  /** Startup records distinct attributes, none of them injected, and keeps what was injected. */
  lemma StartOwnsOnlyItsOwn(state: State, core: Build, performance: Build)
    ensures OwnsAdditions(state, Start(state, core, performance))
  {
    var none := Startup(state, [], [], false);
    assert Attributes(none.owned) == {};
    AcquireKeepsOwnership(state, none, CORE, core);
    AcquireKeepsOwnership(state, Acquire(none, CORE, core), PERFORMANCE, performance);
  }

  /** A build that startup gets to fails. */
  predicate ReachedBuildFails(state: State, core: Build, performance: Build) {
    || (CORE !in state && !core.Built?)
    || ((CORE in state || core.Built?) && PERFORMANCE !in state && !performance.Built?)
  }

  lemma AttributesDiffer()
    ensures CORE != PERFORMANCE
  {
    assert |CORE| == 17 && |PERFORMANCE| == 24;
  }

  /** What is owned of one client. */
  function OwnedOf(state: State, attribute: string, build: Build): seq<Owned> {
    if attribute !in state && build.Built? then [Owned(attribute, build.pool)] else []
  }

  /** The client the body sees under the attribute: the injected one, or one over the pool just
      made. */
  predicate Provided(state: State, attribute: string, build: Build, after: State) {
    && attribute in after
    && if attribute in state then after[attribute] == state[attribute]
       else build.Built? && after[attribute] == OverPool(build.pool)
  }

  /** Startup raises exactly when a build it reaches fails; otherwise it provides both clients and
      owns exactly those that were not injected, in order. */
  lemma StartProvidesClients(state: State, core: Build, performance: Build)
    ensures var s := Start(state, core, performance);
            && (s.raised <==> ReachedBuildFails(state, core, performance))
            && (!s.raised ==>
                  && Provided(state, CORE, core, s.state) && Provided(state, PERFORMANCE, performance, s.state)
                  && s.state.Keys == state.Keys + {CORE, PERFORMANCE}
                  && s.owned == OwnedOf(state, CORE, core) + OwnedOf(state, PERFORMANCE, performance))
  {
    AttributesDiffer();
  }

  lemma {:induction false} ReversedAt(owned: seq<Owned>)
    ensures |PoolsReversed(owned)| == |owned|
    ensures forall i | 0 <= i < |owned| :: PoolsReversed(owned)[i] == owned[|owned| - 1 - i].pool
  {
    if owned != [] {
      ReversedAt(owned[..|owned| - 1]);
    }
  }

  /** With nothing injected and both clients built, closing attempts the performance pool and then
      the core pool. */
  lemma BothClosedInReverse(
      state: State, core: Build, performance: Build, after: State, closing: PoolId -> Closing)
    requires CORE !in state && PERFORMANCE !in state && core.Built? && performance.Built?
    requires CORE in after && PERFORMANCE in after && forall pool :: !closing(pool).Cancelled?
    ensures Close(after, Start(state, core, performance).owned, closing)
         == Shutdown(after - {CORE, PERFORMANCE}, [performance.pool, core.pool], false)
  {
    var s := Start(state, core, performance);
    AttributesDiffer();
    StartOwnsOnlyItsOwn(state, core, performance);
    assert s.owned == [Owned(CORE, core.pool), Owned(PERFORMANCE, performance.pool)];
    assert s.owned[0].attribute in Attributes(s.owned) && s.owned[1].attribute in Attributes(s.owned);
    assert Attributes(s.owned) == {CORE, PERFORMANCE};
    OwnedReleased(s, after, closing);
    ReversedAt(s.owned);
    assert PoolsReversed(s.owned) == [performance.pool, core.pool];
  }

  /** Where the loop is stopped: the pools down to the first client that stops it are attempted,
      and their attributes gone. */
  lemma {:induction false} ClosesDownTo(state: State, owned: seq<Owned>, closing: PoolId -> Closing, k: nat)
    requires DistinctAttributes(owned) && k < |owned| && !GoesOn(state, owned[k], closing)
    requires forall i | k < i < |owned| :: GoesOn(state, owned[i], closing)
    ensures Close(state, owned, closing) == Shutdown(state - Attributes(owned[k..]), PoolsReversed(owned[k..]), true)
    decreases |owned|
  {
    var init, last := owned[..|owned| - 1], owned[|owned| - 1];
    var after := state - {last.attribute};
    if k < |owned| - 1 {
      assert forall i | 0 <= i < |init| :: GoesOn(after, init[i], closing) == GoesOn(state, owned[i], closing);
      ClosesDownTo(after, init, closing, k);
      assert owned[k..] == init[k..] + [last];
      AttributesSnoc(init[k..], last);
      assert after - Attributes(init[k..]) == state - Attributes(owned[k..]);
      assert owned[k..][..|owned[k..]| - 1] == init[k..];
    } else {
      assert owned[k..] == [last];
      assert [last][0] == last && [last][..0] == [];
      assert Attributes([last]) == {last.attribute};
    }
  }

  /** The owned attributes are still there when the body ends. */
  ghost predicate LeavesOwned(s: Startup, after: State) {
    forall a | a in Attributes(s.owned) :: a in after
  }

  /** With the owned attributes in place and no cancellation, closing releases exactly what is
      owned. */
  lemma OwnedReleased(s: Startup, after: State, closing: PoolId -> Closing)
    requires DistinctAttributes(s.owned) && LeavesOwned(s, after) && forall pool :: !closing(pool).Cancelled?
    ensures Close(after, s.owned, closing) == Shutdown(after - Attributes(s.owned), PoolsReversed(s.owned), false)
  {
    forall i | 0 <= i < |s.owned| ensures GoesOn(after, s.owned[i], closing) {
      assert s.owned[i].attribute in Attributes(s.owned);
    }
    CloseRemovesOwned(after, s.owned, closing);
  }

  /** A lifespan that is not cancelled while closing, with a body (finished or failed) that
      leaves the owned attributes in place, or with no body because building failed: every
      owned pool is closed once in reverse order and its attribute removed, and every other
      attribute is as the body left it. */
  lemma LifespanReleasesOwned(
      state: State, core: Build, performance: Build, body: State -> BodyResult, closing: PoolId -> Closing)
    requires var s := Start(state, core, performance); !s.raised ==> LeavesOwned(s, body(s.state).state)
    requires forall pool :: !closing(pool).Cancelled?
    ensures var s := Start(state, core, performance);
            var after := if s.raised then s.state else body(s.state).state;
            Close(after, s.owned, closing) == Shutdown(after - Attributes(s.owned), PoolsReversed(s.owned), false)
  {
    var s := Start(state, core, performance);
    var after := if s.raised then s.state else body(s.state).state;
    StartOwnsOnlyItsOwn(state, core, performance);
    OwnedReleased(s, after, closing);
  }

  lemma AdditionsTakenBack(before: State, s: Startup)
    requires OwnsAdditions(before, s)
    ensures s.state - Attributes(s.owned) == before
  {
    var after := s.state - Attributes(s.owned);
    assert after.Keys == before.Keys;
    assert forall a | a in before :: after[a] == before[a];
  }

  /** When building fails, the state goes back to what it was before the lifespan. */
  lemma FailedStartRestoresState(state: State, core: Build, performance: Build, closing: PoolId -> Closing)
    requires Start(state, core, performance).raised && forall pool :: !closing(pool).Cancelled?
    ensures var s := Start(state, core, performance); Close(s.state, s.owned, closing).state == state
  {
    var s := Start(state, core, performance);
    StartOwnsOnlyItsOwn(state, core, performance);
    OwnedReleased(s, s.state, closing);
    AdditionsTakenBack(state, s);
  }

  /** Startup owns the created pools, in order, up to one on which an adapter failed. */
  ghost predicate OwnsCreated(s: Startup) {
    && |s.owned| <= |s.created| <= |s.owned| + 1
    && (forall i | 0 <= i < |s.owned| :: s.owned[i].pool == s.created[i])
    && (|s.created| > |s.owned| ==> s.raised)
  }

  lemma AcquireOwnsCreated(s: Startup, attribute: string, build: Build)
    requires OwnsCreated(s)
    ensures OwnsCreated(Acquire(s, attribute, build))
  {
  }

  /** Every pool that was created is owned exactly when no adapter constructor failed on a pool
      already made. */
  lemma CreatedPoolsOwnedExactly(state: State, core: Build, performance: Build)
    ensures var s := Start(state, core, performance);
            OwnsCreated(s) && (|s.created| == |s.owned| <==> !AdapterFailed(state, core, performance))
  {
    AcquireOwnsCreated(Startup(state, [], [], false), CORE, core);
    AcquireOwnsCreated(Acquire(Startup(state, [], [], false), CORE, core), PERFORMANCE, performance);
  }

  /** The constructor of an adapter was reached with a pool made for it, and failed. */
  predicate AdapterFailed(state: State, core: Build, performance: Build) {
    || (CORE !in state && core.AdapterFails?)
    || ((CORE in state || core.Built?) && PERFORMANCE !in state && performance.AdapterFails?)
  }

  /** Each created pool is a new object. */
  ghost predicate DistinctPools(pools: seq<PoolId>) {
    forall i, j | 0 <= i < j < |pools| :: pools[i] != pools[j]
  }

  lemma FailedIsNotOwned(s: Startup)
    requires OwnsCreated(s) && DistinctPools(s.created) && |s.created| > |s.owned|
    ensures s.created[|s.created| - 1] !in PoolsReversed(s.owned)
  {
    ReversedAt(s.owned);
    assert forall i | 0 <= i < |s.owned| :: s.owned[i].pool == s.created[i] != s.created[|s.created| - 1];
  }

  /** A pool on which an adapter constructor failed is never closed, whatever state the close
      begins in and however closing ends. */
  lemma FailedPoolNeverClosed(state: State, core: Build, performance: Build, after: State, closing: PoolId -> Closing)
    requires AdapterFailed(state, core, performance) && DistinctPools(Start(state, core, performance).created)
    ensures var s := Start(state, core, performance);
            s.created != [] && s.created[|s.created| - 1] !in Close(after, s.owned, closing).attempted
  {
    var s := Start(state, core, performance);
    CreatedPoolsOwnedExactly(state, core, performance);
    FailedIsNotOwned(s);
    CloseAttempts(after, s.owned, closing);
    var attempted := Close(after, s.owned, closing).attempted;
    assert attempted == PoolsReversed(s.owned)[..|attempted|];
  }

  ghost predicate AllClosed(created: seq<PoolId>, attempted: seq<PoolId>) {
    forall i | 0 <= i < |created| :: created[i] in attempted
  }

  lemma OwnedAllCreated(s: Startup)
    requires OwnsCreated(s) && |s.created| == |s.owned|
    ensures AllClosed(s.created, PoolsReversed(s.owned))
  {
    ReversedAt(s.owned);
    forall i | 0 <= i < |s.created| ensures s.created[i] in PoolsReversed(s.owned) {
      assert PoolsReversed(s.owned)[|s.owned| - 1 - i] == s.created[i];
    }
  }

  /** The leak, exactly: when the owned attributes are still there and no close is cancelled, some
      created pool stays unclosed if and only if an adapter constructor failed on it. */
  lemma PoolsLeakedExactly(state: State, core: Build, performance: Build, after: State, closing: PoolId -> Closing)
    requires DistinctPools(Start(state, core, performance).created)
    requires LeavesOwned(Start(state, core, performance), after) && forall pool :: !closing(pool).Cancelled?
    ensures var s := Start(state, core, performance);
            AllClosed(s.created, Close(after, s.owned, closing).attempted) <==> !AdapterFailed(state, core, performance)
  {
    var s := Start(state, core, performance);
    CreatedPoolsOwnedExactly(state, core, performance);
    StartOwnsOnlyItsOwn(state, core, performance);
    OwnedReleased(s, after, closing);
    if AdapterFailed(state, core, performance) {
      FailedIsNotOwned(s);
    } else {
      OwnedAllCreated(s);
    }
  }
}
