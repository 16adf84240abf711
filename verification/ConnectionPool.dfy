/** The connection pool: reuse, creation, release, eviction of in-use slots, and fresh ids. */
module ConnectionPools {
  import opened Types

  type Id = nat

  datatype ConnectionState = Idle | InUse | Unhealthy | Evicted

  datatype Connection = Connection(
    id: Id,
    backend: string,
    state: ConnectionState,
    createdAtMs: nat,
    lastUsedMs: nat,
    useCount: nat,
    errorCount: nat)

  datatype PoolConfig = PoolConfig(
    maxConnections: nat,
    minIdle: nat,
    maxIdleMs: nat,
    maxLifetimeMs: nat,
    healthCheckIntervalMs: nat)

  datatype PoolStats = PoolStats(
    total: nat,
    available: nat,
    inUse: nat,
    unhealthy: nat,
    evictedTotal: nat,
    acquiredTotal: nat)

  type Connections = seq<Connection>

  ghost predicate DistinctIds(conns: Connections) {
    forall i, j | 0 <= i < j < |conns| :: conns[i].id != conns[j].id
  }

  predicate Survives(c: Connection, config: PoolConfig, now: nat) {
    match c.state
    case Unhealthy => false
    case Evicted => false
    case Idle =>
      && SaturatingSub(now, c.lastUsedMs) < config.maxIdleMs
      && SaturatingSub(now, c.createdAtMs) < config.maxLifetimeMs
    case InUse => SaturatingSub(now, c.createdAtMs) < config.maxLifetimeMs
  }

  predicate IsSick(c: Connection, config: PoolConfig, now: nat) {
    c.state.Idle? && SaturatingSub(now, c.lastUsedMs) > config.healthCheckIntervalMs && c.errorCount > 3
  }

  /** What eviction removes, by age: an idle slot by either limit, one in use by its lifetime only. */
  lemma EvictedByAge(c: Connection, config: PoolConfig, now: nat)
    requires c.state.Idle? || c.state.InUse?
    ensures var tooOld := config.maxLifetimeMs == 0 || now >= c.createdAtMs + config.maxLifetimeMs;
            var unused := config.maxIdleMs == 0 || now >= c.lastUsedMs + config.maxIdleMs;
            !Survives(c, config, now) <==> tooOld || (c.state.Idle? && unused)
  {
  }

  /** A slot unused since 0 goes after 10 when idle, but only after 100 when in use. */
  lemma EvictionAges(idle: Connection, busy: Connection, config: PoolConfig)
    requires config.maxIdleMs == 10 && config.maxLifetimeMs == 100
    requires idle.state.Idle? && idle.createdAtMs == idle.lastUsedMs == 0 && busy == idle.(state := InUse)
    ensures Survives(idle, config, 9) && !Survives(idle, config, 10)
    ensures Survives(busy, config, 99) && !Survives(busy, config, 100)
    ensures Survives(idle.(lastUsedMs := 95), config, 99) && !Survives(idle.(lastUsedMs := 95), config, 100)
  {
  }

  /** With an interval of 10 a slot is sick from 11 unused on, and from its fourth error on. */
  lemma HealthThresholds(c: Connection, config: PoolConfig)
    requires config.healthCheckIntervalMs == 10 && c.state.Idle? && c.lastUsedMs == 0
    ensures IsSick(c.(errorCount := 4), config, 11) && !IsSick(c.(errorCount := 4), config, 10)
    ensures !IsSick(c.(errorCount := 3), config, 11) && !IsSick(c.(errorCount := 4, state := InUse), config, 11)
  {
  }

  function CheckedOut(c: Connection, now: nat): Connection {
    c.(state := InUse, lastUsedMs := now, useCount := c.useCount + 1)
  }

  function Returned(c: Connection, now: nat, hadError: bool): Connection {
    if hadError then c.(lastUsedMs := now, errorCount := c.errorCount + 1, state := Unhealthy)
    else c.(lastUsedMs := now, state := Idle)
  }

  /** The connections that survive, in order. */
  function Kept(conns: Connections, config: PoolConfig, now: nat): (kept: Connections)
    ensures |kept| <= |conns|
    ensures forall c :: c in kept <==> c in conns && Survives(c, config, now)
  {
    if conns == [] then []
    else
      var n := |conns| - 1;
      assert conns == conns[..n] + [conns[n]];
      Kept(conns[..n], config, now) + if Survives(conns[n], config, now) then [conns[n]] else []
  }

  lemma {:induction false} KeptIdsAreDistinct(conns: Connections, config: PoolConfig, now: nat)
    requires DistinctIds(conns)
    ensures DistinctIds(Kept(conns, config, now))
  {
    if conns != [] {
      var n := |conns| - 1;
      KeptIdsAreDistinct(conns[..n], config, now);
      var kept := Kept(conns[..n], config, now);
      forall i | 0 <= i < |kept|
        ensures kept[i].id != conns[n].id
      {
        assert kept[i] in conns[..n];
      }
    }
  }

  /** The ids of the sick connections, in order. */
  ghost function SickIds(conns: Connections, config: PoolConfig, now: nat): (ids: seq<Id>)
    ensures forall id :: id in ids <==> exists c :: c in conns && c.id == id && IsSick(c, config, now)
  {
    if conns == [] then []
    else
      var n := |conns| - 1;
      assert conns == conns[..n] + [conns[n]];
      SickIds(conns[..n], config, now) + if IsSick(conns[n], config, now) then [conns[n].id] else []
  }

  lemma OnePart(c: Connection, config: PoolConfig, now: nat)
    ensures Kept([c], config, now) == if Survives(c, config, now) then [c] else []
    ensures SickIds([c], config, now) == if IsSick(c, config, now) then [c.id] else []
  {
    assert [c][..0] == [];
    assert Kept([], config, now) == [] && SickIds([], config, now) == [];
  }

  lemma LastPart(conns: Connections, c: Connection, config: PoolConfig, now: nat)
    ensures Kept(conns + [c], config, now) == Kept(conns, config, now) + Kept([c], config, now)
    ensures SickIds(conns + [c], config, now) == SickIds(conns, config, now) + SickIds([c], config, now)
  {
    assert (conns + [c])[..|conns|] == conns;
    OnePart(c, config, now);
  }

  /** Order is kept: the results for two parts are those of the first, then those of the second. */
  lemma {:induction false} PartsInOrder(a: Connections, b: Connections, config: PoolConfig, now: nat)
    ensures Kept(a + b, config, now) == Kept(a, config, now) + Kept(b, config, now)
    ensures SickIds(a + b, config, now) == SickIds(a, config, now) + SickIds(b, config, now)
    decreases |b|
  {
    if b == [] {
      assert a + b == a;
      assert Kept(a, config, now) + [] == Kept(a, config, now);
      assert SickIds(a, config, now) + [] == SickIds(a, config, now);
    } else {
      var t, c := b[..|b| - 1], b[|b| - 1];
      assert b == t + [c];
      PartsInOrder(a, t, config, now);
      LastPart(a + t, c, config, now);
      LastPart(t, c, config, now);
      hide Kept, SickIds;
      Regroup(a, t, [c]);
      Regroup(Kept(a, config, now), Kept(t, config, now), Kept([c], config, now));
      Regroup(SickIds(a, config, now), SickIds(t, config, now), SickIds([c], config, now));
    }
  }

  lemma Regroup<T>(x: seq<T>, y: seq<T>, z: seq<T>)
    ensures (x + y) + z == x + (y + z)
  {
  }

  ghost function CountState(conns: Connections, state: ConnectionState): nat {
    if conns == [] then 0
    else CountState(conns[..|conns| - 1], state) + if conns[|conns| - 1].state == state then 1 else 0
  }

  lemma {:induction false} StatesPartition(conns: Connections)
    ensures CountState(conns, Idle) + CountState(conns, InUse) + CountState(conns, Unhealthy) +
            CountState(conns, Evicted) == |conns|
    ensures (forall c | c in conns :: !c.state.Evicted?) ==> CountState(conns, Evicted) == 0
  {
    if conns != [] {
      StatesPartition(conns[..|conns| - 1]);
      assert forall c | c in conns[..|conns| - 1] :: c in conns;
    }
  }

  /** What the pool keeps after any sequence of calls. */
  ghost predicate PoolInvariant(conns: Connections, config: PoolConfig, nextId: nat, evictedTotal: nat) {
    && DistinctIds(conns)
    && (forall c | c in conns :: 1 <= c.id < nextId && !c.state.Evicted?)
    && |conns| <= config.maxConnections
    && nextId == 1 + |conns| + evictedTotal
  }

  /** The effect of one successful or failed acquisition. */
  ghost predicate AcquireEffect(before: Connections, after: Connections, config: PoolConfig, backend: string,
                                nextId: nat, nextId': nat, now: nat, r: Option<Id>)
  {
    if exists c | c in before :: c.state.Idle? then
      && nextId' == nextId && |after| == |before|
      && exists i ::
           && 0 <= i < |before| && before[i].state.Idle? && r == Some(before[i].id)
           && (forall k | 0 <= k < i :: !before[k].state.Idle?)
           && after == before[i := CheckedOut(before[i], now)]
    else if |before| < config.maxConnections then
      && r == Some(nextId) && nextId' == nextId + 1
      && after == before + [Connection(nextId, backend, InUse, now, now, 1, 0)]
    else
      r == None && nextId' == nextId && after == before
  }

  /** Every slot with that id is released, the others are as before. */
  ghost predicate GaveBack(before: Connections, after: Connections, id: Id, now: nat, hadError: bool) {
    && |after| == |before|
    && forall i | 0 <= i < |after| ::
         after[i] == if before[i].id == id then Returned(before[i], now, hadError) else before[i]
  }

  /** The first n slots have been checked, the others are as before. */
  ghost predicate Swept(before: Connections, after: Connections, config: PoolConfig, now: nat, n: nat) {
    && |after| == |before|
    && forall i | 0 <= i < |after| ::
         after[i] == if i < n && IsSick(before[i], config, now) then before[i].(state := Unhealthy) else before[i]
  }

  lemma SickNext(conns: Connections, config: PoolConfig, now: nat, n: nat)
    requires n < |conns|
    ensures SickIds(conns[..n + 1], config, now) ==
            if IsSick(conns[n], config, now) then SickIds(conns[..n], config, now) + [conns[n].id]
            else SickIds(conns[..n], config, now)
  {
    assert conns[..n + 1][..n] == conns[..n];
    assert SickIds(conns[..n], config, now) + [] == SickIds(conns[..n], config, now);
  }

  lemma SweepKeepsInvariant(before: Connections, after: Connections, config: PoolConfig, now: nat,
                            nextId: nat, evictedTotal: nat)
    requires PoolInvariant(before, config, nextId, evictedTotal) && Swept(before, after, config, now, |before|)
    ensures PoolInvariant(after, config, nextId, evictedTotal)
  {
    forall c | c in after
      ensures 1 <= c.id < nextId && !c.state.Evicted?
    {
      var i :| 0 <= i < |after| && after[i] == c;
      assert before[i] in before;
    }
  }

  class ConnectionPool {
    const config: PoolConfig
    const backend: string
    var connections: Connections
    var nextId: nat
    var totalAcquired: nat
    var totalReleased: nat
    var evictedTotal: nat

    ghost predicate Valid()
      reads this
    {
      PoolInvariant(connections, config, nextId, evictedTotal)
    }

    constructor (backend: string, config: PoolConfig)
      ensures Valid() && connections == [] && nextId == 1
      ensures this.config == config && this.backend == backend
      ensures totalAcquired == 0 && totalReleased == 0 && evictedTotal == 0
    {
      this.backend, this.config := backend, config;
      connections, nextId := [], 1;
      totalAcquired, totalReleased, evictedTotal := 0, 0, 0;
    }

    method Acquire(now: nat) returns (r: Option<Id>)
      requires Valid()
      modifies this
      ensures Valid()
      ensures AcquireEffect(old(connections), connections, config, backend, old(nextId), nextId, now, r)
      ensures totalAcquired == old(totalAcquired) + if r.Some? then 1 else 0
      ensures totalReleased == old(totalReleased) && evictedTotal == old(evictedTotal)
    {
      var i := 0;
      while i < |connections| && !connections[i].state.Idle?
        invariant i <= |connections|
        invariant forall k | 0 <= k < i :: !connections[k].state.Idle?
      {
        i := i + 1;
      }
      if i < |connections| {
        var id := connections[i].id;
        assert connections[i] in connections;
        connections := connections[i := CheckedOut(connections[i], now)];
        totalAcquired := totalAcquired + 1;
        return Some(id);
      }
      if |connections| < config.maxConnections {
        var id := nextId;
        nextId := nextId + 1;
        connections := connections + [Connection(id, backend, InUse, now, now, 1, 0)];
        totalAcquired := totalAcquired + 1;
        return Some(id);
      }
      return None;
    }

    method Release(id: Id, now: nat, hadError: bool)
      requires Valid()
      modifies this
      ensures Valid() && GaveBack(old(connections), connections, id, now, hadError)
      ensures totalReleased == old(totalReleased) + 1
      ensures nextId == old(nextId) && totalAcquired == old(totalAcquired) && evictedTotal == old(evictedTotal)
    {
      var i := 0;
      while i < |connections| && connections[i].id != id
        invariant i <= |connections|
        invariant forall k | 0 <= k < i :: connections[k].id != id
      {
        i := i + 1;
      }
      if i < |connections| {
        assert connections[i] in connections;
        connections := connections[i := Returned(connections[i], now, hadError)];
      }
      totalReleased := totalReleased + 1;
    }

    method EvictStale(now: nat) returns (evicted: nat)
      requires Valid()
      modifies this
      ensures Valid() && connections == Kept(old(connections), config, now)
      ensures evicted == |old(connections)| - |connections| && evictedTotal == old(evictedTotal) + evicted
      ensures nextId == old(nextId) && totalAcquired == old(totalAcquired) && totalReleased == old(totalReleased)
    {
      KeptIdsAreDistinct(connections, config, now);
      var before := |connections|;
      connections := Kept(connections, config, now);
      evicted := before - |connections|;
      evictedTotal := evictedTotal + evicted;
    }

    method HealthCheckAll(now: nat) returns (marked: seq<Id>)
      requires Valid()
      modifies this`connections
      ensures Valid()
      ensures Swept(old(connections), connections, config, now, |connections|)
      ensures marked == SickIds(old(connections), config, now)
    {
      ghost var before := connections;
      var conns := connections;
      marked := [];
      for n := 0 to |conns|
        invariant Swept(before, conns, config, now, n)
        invariant marked == SickIds(before[..n], config, now)
      {
        hide SickIds;
        SickNext(before, config, now, n);
        if IsSick(conns[n], config, now) {
          marked := marked + [conns[n].id];
          conns := conns[n := conns[n].(state := Unhealthy)];
        }
      }
      assert before[..|conns|] == before;
      connections := conns;
      SweepKeepsInvariant(before, conns, config, now, nextId, evictedTotal);
    }

    method Count(state: ConnectionState) returns (count: nat)
      ensures count == CountState(connections, state)
    {
      count := 0;
      for i := 0 to |connections|
        invariant count == CountState(connections[..i], state)
      {
        assert connections[..i + 1][..i] == connections[..i];
        if connections[i].state == state {
          count := count + 1;
        }
      }
      assert connections[..|connections|] == connections;
    }

    /** The three reported classes add up to the total, because no slot is kept as evicted. */
    method Stats() returns (stats: PoolStats)
      requires Valid()
      ensures stats.total == |connections| == stats.available + stats.inUse + stats.unhealthy
      ensures stats.available == CountState(connections, Idle) && stats.inUse == CountState(connections, InUse)
      ensures stats.evictedTotal == evictedTotal && stats.acquiredTotal == totalAcquired
    {
      var available := Count(Idle);
      var inUse := Count(InUse);
      var unhealthy := Count(Unhealthy);
      StatesPartition(connections);
      stats := PoolStats(|connections|, available, inUse, unhealthy, evictedTotal, totalAcquired);
    }
  }

  // ---------- callers ----------

  type Caller = nat

  datatype Step =
    | Take(caller: Caller, now: nat)
    | Give(caller: Caller, id: Id, now: nat, hadError: bool)
    | Evict(now: nat)
    | Check(now: nat)

  type Loans = set<(Caller, Id)>

  /** No id is on loan to two callers. */
  ghost predicate Exclusive(loans: Loans) {
    forall p, q | p in loans && q in loans && p.1 == q.1 :: p == q
  }

  ghost predicate OnLoan(loans: Loans, id: Id) {
    exists p :: p in loans && p.1 == id
  }

  /** Only connections in use can be on loan; evicted ones may be on loan but are never reissued. */
  ghost predicate LoansMatch(conns: Connections, nextId: nat, loans: Loans) {
    && (forall p | p in loans :: p.1 < nextId)
    && forall c | c in conns && !c.state.InUse? :: !OnLoan(loans, c.id)
  }

  lemma AcquireIsExclusive(before: Connections, after: Connections, config: PoolConfig, backend: string,
                           nextId: nat, nextId': nat, now: nat, caller: Caller, id: Id, loans: Loans)
    requires AcquireEffect(before, after, config, backend, nextId, nextId', now, Some(id))
    requires DistinctIds(before) && (forall c | c in before :: c.id < nextId)
    requires Exclusive(loans) && LoansMatch(before, nextId, loans)
    ensures !OnLoan(loans, id)
    ensures Exclusive(loans + {(caller, id)}) && LoansMatch(after, nextId', loans + {(caller, id)})
  {
  }

  lemma ReleaseKeepsLoans(before: Connections, after: Connections, nextId: nat, loans: Loans, caller: Caller, id: Id,
                          now: nat, hadError: bool)
    requires Exclusive(loans) && LoansMatch(before, nextId, loans) && (caller, id) in loans
    requires GaveBack(before, after, id, now, hadError)
    ensures Exclusive(loans - {(caller, id)}) && LoansMatch(after, nextId, loans - {(caller, id)})
  {
  }

  lemma CheckKeepsLoans(before: Connections, after: Connections, nextId: nat, loans: Loans,
                        config: PoolConfig, now: nat)
    requires LoansMatch(before, nextId, loans) && Swept(before, after, config, now, |after|)
    ensures LoansMatch(after, nextId, loans)
  {
  }

  lemma EvictKeepsLoans(before: Connections, nextId: nat, loans: Loans, config: PoolConfig, now: nat)
    requires LoansMatch(before, nextId, loans)
    ensures LoansMatch(Kept(before, config, now), nextId, loans)
  {
  }

  // ---------- runs ----------

  /** The pool and its callers; `returned` counts the releases by a holder of the connection. */
  datatype World = World(
    conns: Connections,
    nextId: nat,
    acquired: nat,
    released: nat,
    evicted: nat,
    loans: Loans,
    returned: nat)

  const BEGINNING := World([], 1, 0, 0, 0, {}, 0)

  ghost predicate Took(config: PoolConfig, backend: string, w: World, caller: Caller, now: nat, w': World,
                       r: Option<Id>)
  {
    && AcquireEffect(w.conns, w'.conns, config, backend, w.nextId, w'.nextId, now, r)
    && w'.loans == w.loans + (if r.Some? then {(caller, r.value)} else {})
    && w' == w.(conns := w'.conns, nextId := w'.nextId, loans := w'.loans,
                acquired := w.acquired + if r.Some? then 1 else 0)
  }

  /** What one step does; nothing stops a caller from releasing what it does not hold. */
  ghost predicate StepEffect(config: PoolConfig, backend: string, w: World, step: Step, w': World) {
    match step
    case Take(caller, now) => exists r :: Took(config, backend, w, caller, now, w', r)
    case Give(caller, id, now, hadError) =>
      && GaveBack(w.conns, w'.conns, id, now, hadError)
      && w' == w.(conns := w'.conns, released := w.released + 1, loans := w.loans - {(caller, id)},
                  returned := w.returned + if (caller, id) in w.loans then 1 else 0)
    case Evict(now) =>
      var kept := Kept(w.conns, config, now);
      w' == w.(conns := kept, evicted := w.evicted + |w.conns| - |kept|)
    case Check(now) =>
      && Swept(w.conns, w'.conns, config, now, |w'.conns|)
      && w' == w.(conns := w'.conns)
  }

  ghost predicate IsRun(config: PoolConfig, backend: string, steps: seq<Step>, worlds: seq<World>) {
    && |worlds| == |steps| + 1 && worlds[0] == BEGINNING
    && forall k, next | 0 <= k < |steps| && next == k + 1 ::
         StepEffect(config, backend, worlds[k], steps[k], worlds[next])
  }

  /**
    A release is harmless when the caller holds the connection, when nobody does, or when the
    pool no longer has it.
   */
  ghost predicate Harmless(w: World, step: Step) {
    step.Give? ==>
      || (step.caller, step.id) in w.loans
      || !OnLoan(w.loans, step.id)
      || forall c | c in w.conns :: c.id != step.id
  }

  /** No id is on loan twice or idle while on loan; slots, ids and loans are accounted for. */
  ghost predicate WorldInvariant(config: PoolConfig, w: World) {
    && PoolInvariant(w.conns, config, w.nextId, w.evicted)
    && Exclusive(w.loans) && LoansMatch(w.conns, w.nextId, w.loans)
    && w.acquired == |w.loans| + w.returned
  }

  lemma TakeKeepsPool(before: Connections, after: Connections, config: PoolConfig, backend: string,
                      nextId: nat, nextId': nat, evicted: nat, now: nat, r: Option<Id>)
    requires AcquireEffect(before, after, config, backend, nextId, nextId', now, r)
    requires PoolInvariant(before, config, nextId, evicted)
    ensures PoolInvariant(after, config, nextId', evicted)
  {
  }

  lemma GiveKeepsPool(before: Connections, after: Connections, config: PoolConfig, nextId: nat, evicted: nat,
                      id: Id, now: nat, hadError: bool)
    requires PoolInvariant(before, config, nextId, evicted) && GaveBack(before, after, id, now, hadError)
    ensures PoolInvariant(after, config, nextId, evicted)
  {
  }

  /** A release keeps the books exactly when it is harmless. */
  lemma GiveKeepsLoansExactly(before: Connections, after: Connections, nextId: nat, loans: Loans,
                              caller: Caller, id: Id, now: nat, hadError: bool)
    requires Exclusive(loans) && LoansMatch(before, nextId, loans)
    requires GaveBack(before, after, id, now, hadError)
    ensures Exclusive(loans - {(caller, id)})
    ensures LoansMatch(after, nextId, loans - {(caller, id)}) <==>
            (caller, id) in loans || !OnLoan(loans, id) || forall c | c in before :: c.id != id
  {
    if (caller, id) in loans {
      ReleaseKeepsLoans(before, after, nextId, loans, caller, id, now, hadError);
    } else {
      assert loans - {(caller, id)} == loans;
      if i :| 0 <= i < |before| && before[i].id == id {
        assert after[i] in after && before[i] in before;
      }
    }
  }

  lemma StepKeepsInvariant(config: PoolConfig, backend: string, w: World, step: Step, w': World)
    requires WorldInvariant(config, w) && StepEffect(config, backend, w, step, w')
    ensures WorldInvariant(config, w') <==> Harmless(w, step)
  {
    hide AcquireEffect, Exclusive, LoansMatch, OnLoan, GaveBack, Swept, PoolInvariant;
    match step {
      case Take(caller, now) =>
        var r :| Took(config, backend, w, caller, now, w', r);
        TakeKeepsPool(w.conns, w'.conns, config, backend, w.nextId, w'.nextId, w.evicted, now, r);
        TakeKeepsBooks(config, backend, w, caller, now, w', r);
      case Give(caller, id, now, hadError) =>
        GiveKeepsPool(w.conns, w'.conns, config, w.nextId, w.evicted, id, now, hadError);
        GiveKeepsLoansExactly(w.conns, w'.conns, w.nextId, w.loans, caller, id, now, hadError);
        assert (caller, id) !in w.loans ==> w'.loans == w.loans;
      case Evict(now) =>
        EvictKeepsPool(w.conns, config, now, w.nextId, w.evicted);
        EvictKeepsLoans(w.conns, w.nextId, w.loans, config, now);
      case Check(now) =>
        SweepLength(w.conns, w'.conns, config, now);
        SweepKeepsInvariant(w.conns, w'.conns, config, now, w.nextId, w.evicted);
        CheckKeepsLoans(w.conns, w'.conns, w.nextId, w.loans, config, now);
    }
  }

  lemma SweepLength(before: Connections, after: Connections, config: PoolConfig, now: nat)
    requires Swept(before, after, config, now, |after|)
    ensures |after| == |before|
  {
  }

  lemma EvictKeepsPool(conns: Connections, config: PoolConfig, now: nat, nextId: nat, evicted: nat)
    requires PoolInvariant(conns, config, nextId, evicted)
    ensures PoolInvariant(Kept(conns, config, now), config, nextId,
                          evicted + |conns| - |Kept(conns, config, now)|)
  {
    KeptIdsAreDistinct(conns, config, now);
  }

  lemma TakeKeepsBooks(config: PoolConfig, backend: string, w: World, caller: Caller, now: nat, w': World,
                       r: Option<Id>)
    requires WorldInvariant(config, w) && Took(config, backend, w, caller, now, w', r)
    ensures Exclusive(w'.loans) && LoansMatch(w'.conns, w'.nextId, w'.loans)
    ensures w'.acquired == |w'.loans| + w'.returned
  {
    if r.Some? {
      AcquireIsExclusive(w.conns, w'.conns, config, backend, w.nextId, w'.nextId, now, caller, r.value, w.loans);
      assert (caller, r.value) !in w.loans;
    } else {
      assert w'.loans == w.loans;
    }
  }

  /**
    In a run of any callers the books stay right exactly as long as every release is harmless:
    no id is ever on loan twice, ids are never reissued, and the size stays bounded.
   */
  lemma {:induction false} RunKeepsBooksExactly(config: PoolConfig, backend: string, steps: seq<Step>,
                                                worlds: seq<World>)
    requires IsRun(config, backend, steps, worlds)
    ensures (forall w | w in worlds :: WorldInvariant(config, w)) <==>
            (forall k | 0 <= k < |steps| :: Harmless(worlds[k], steps[k]))
  {
    var n := |steps|;
    hide StepEffect, WorldInvariant, Harmless;
    if n == 0 {
      FirstWorld(config);
      assert worlds == [BEGINNING];
    } else {
      RunKeepsBooksExactly(config, backend, steps[..n - 1], worlds[..n]);
      assert worlds == worlds[..n] + [worlds[n]];
      assert worlds[n - 1] in worlds[..n];
      if WorldInvariant(config, worlds[n - 1]) {
        StepKeepsInvariant(config, backend, worlds[n - 1], steps[n - 1], worlds[n]);
      }
      assert forall k | 0 <= k < n - 1 :: worlds[..n][k] == worlds[k] && steps[..n - 1][k] == steps[k];
    }
  }

  lemma FirstWorld(config: PoolConfig)
    ensures WorldInvariant(config, BEGINNING)
  {
  }

  ghost predicate Holds(w: World, step: Step) {
    step.Give? ==> (step.caller, step.id) in w.loans
  }

  /** Callers that release only what they hold: what the pool counts is what is on loan. */
  lemma HoldersAreCounted(config: PoolConfig, backend: string, steps: seq<Step>, worlds: seq<World>)
    requires IsRun(config, backend, steps, worlds)
    requires forall k | 0 <= k < |steps| :: Holds(worlds[k], steps[k])
    ensures forall w | w in worlds ::
              Exclusive(w.loans) && LoansMatch(w.conns, w.nextId, w.loans) && w.acquired == w.released + |w.loans|
  {
    forall k | 0 <= k < |steps|
      ensures Harmless(worlds[k], steps[k])
    {
      assert Holds(worlds[k], steps[k]);
    }
    RunKeepsBooksExactly(config, backend, steps, worlds);
    AllReturned(config, backend, steps, worlds);
  }

  lemma {:induction false} AllReturned(config: PoolConfig, backend: string, steps: seq<Step>, worlds: seq<World>)
    requires IsRun(config, backend, steps, worlds)
    requires forall k | 0 <= k < |steps| :: Holds(worlds[k], steps[k])
    ensures forall w | w in worlds :: w.released == w.returned
  {
    var n := |steps|;
    if n > 0 {
      forall k | 0 <= k < n - 1
        ensures Holds(worlds[..n][k], steps[..n - 1][k])
      {
        assert Holds(worlds[k], steps[k]);
      }
      AllReturned(config, backend, steps[..n - 1], worlds[..n]);
      assert worlds == worlds[..n] + [worlds[n]];
      assert worlds[..n][n - 1] in worlds[..n];
      assert StepEffect(config, backend, worlds[n - 1], steps[n - 1], worlds[n]) && Holds(worlds[n - 1], steps[n - 1]);
    }
  }

  /** A slot that was not released with an error has no errors on record. */
  ghost predicate Clean(conns: Connections) {
    forall c | c in conns && !c.state.Unhealthy? :: c.errorCount == 0
  }

  lemma {:induction false} CleanIsNotSick(conns: Connections, config: PoolConfig, now: nat)
    requires Clean(conns)
    ensures SickIds(conns, config, now) == []
  {
    if conns != [] {
      var n := |conns| - 1;
      assert conns[n] in conns && forall c | c in conns[..n] :: c in conns;
      CleanIsNotSick(conns[..n], config, now);
    }
  }

  lemma TakeKeepsClean(before: Connections, after: Connections, config: PoolConfig, backend: string,
                       nextId: nat, nextId': nat, now: nat, r: Option<Id>)
    requires AcquireEffect(before, after, config, backend, nextId, nextId', now, r) && Clean(before)
    ensures Clean(after)
  {
  }

  /** What is held is in use, so it comes back without errors or as unhealthy. */
  lemma GiveKeepsClean(before: Connections, after: Connections, nextId: nat, loans: Loans,
                       caller: Caller, id: Id, now: nat, hadError: bool)
    requires Clean(before) && LoansMatch(before, nextId, loans) && (caller, id) in loans
    requires GaveBack(before, after, id, now, hadError)
    ensures Clean(after)
  {
  }

  lemma CheckKeepsClean(before: Connections, after: Connections, config: PoolConfig, now: nat)
    requires Clean(before) && Swept(before, after, config, now, |after|)
    ensures Clean(after)
  {
  }

  lemma StepKeepsClean(config: PoolConfig, backend: string, w: World, step: Step, w': World)
    requires StepEffect(config, backend, w, step, w') && Holds(w, step)
    requires LoansMatch(w.conns, w.nextId, w.loans) && Clean(w.conns)
    ensures Clean(w'.conns)
  {
    hide AcquireEffect, LoansMatch, GaveBack, Swept;
    match step {
      case Take(caller, now) =>
        var r :| Took(config, backend, w, caller, now, w', r);
        TakeKeepsClean(w.conns, w'.conns, config, backend, w.nextId, w'.nextId, now, r);
      case Give(caller, id, now, hadError) =>
        GiveKeepsClean(w.conns, w'.conns, w.nextId, w.loans, caller, id, now, hadError);
      case Evict(_) =>
      case Check(now) =>
        CheckKeepsClean(w.conns, w'.conns, config, now);
    }
  }

  lemma {:induction false} RunStaysClean(config: PoolConfig, backend: string, steps: seq<Step>, worlds: seq<World>,
                                         k: nat)
    requires IsRun(config, backend, steps, worlds) && k < |worlds|
    requires forall i | 0 <= i < |steps| :: Holds(worlds[i], steps[i])
    ensures Clean(worlds[k].conns)
  {
    if k > 0 {
      RunStaysClean(config, backend, steps, worlds, k - 1);
      HoldersAreCounted(config, backend, steps, worlds);
      hide Clean, LoansMatch, StepEffect, Holds;
      assert Holds(worlds[k - 1], steps[k - 1]);
      StepKeepsClean(config, backend, worlds[k - 1], steps[k - 1], worlds[k]);
    }
  }

  /** When callers release only what they hold, a health check finds nothing, at any time. */
  lemma HoldersAreNeverSick(config: PoolConfig, backend: string, steps: seq<Step>, worlds: seq<World>, now: nat)
    requires IsRun(config, backend, steps, worlds)
    requires forall k | 0 <= k < |steps| :: Holds(worlds[k], steps[k])
    ensures forall w | w in worlds :: SickIds(w.conns, config, now) == []
  {
    forall w | w in worlds
      ensures SickIds(w.conns, config, now) == []
    {
      var k: nat :| k < |worlds| && worlds[k] == w;
      RunStaysClean(config, backend, steps, worlds, k);
      CleanIsNotSick(w.conns, config, now);
    }
  }

  // ---------- uses and ages ----------

  ghost function Uses(conns: Connections): nat {
    if conns == [] then 0 else Uses(conns[..|conns| - 1]) + conns[|conns| - 1].useCount
  }

  lemma {:induction false} UsesUpdate(conns: Connections, i: nat, c: Connection)
    requires i < |conns|
    ensures Uses(conns[i := c]) == Uses(conns) - conns[i].useCount + c.useCount
  {
    var n := |conns| - 1;
    if i < n {
      UsesUpdate(conns[..n], i, c);
      assert conns[i := c][..n] == conns[..n][i := c];
    } else {
      assert conns[i := c][..n] == conns[..n];
    }
  }

  lemma {:induction false} SameUses(a: Connections, b: Connections)
    requires |a| == |b| && forall i | 0 <= i < |a| :: a[i].useCount == b[i].useCount
    ensures Uses(a) == Uses(b)
  {
    if a != [] {
      SameUses(a[..|a| - 1], b[..|b| - 1]);
    }
  }

  lemma {:induction false} KeptUses(conns: Connections, config: PoolConfig, now: nat)
    ensures Uses(Kept(conns, config, now)) <= Uses(conns)
  {
    if conns != [] {
      var n := |conns| - 1;
      KeptUses(conns[..n], config, now);
      var kept := Kept(conns[..n], config, now);
      assert (kept + [conns[n]])[..|kept|] == kept && kept + [] == kept;
    }
  }

  lemma TakeCountsUse(before: Connections, after: Connections, config: PoolConfig, backend: string,
                      nextId: nat, nextId': nat, now: nat, r: Option<Id>)
    requires AcquireEffect(before, after, config, backend, nextId, nextId', now, r)
    ensures Uses(after) == Uses(before) + if r.Some? then 1 else 0
  {
    if exists c | c in before :: c.state.Idle? {
      var i: nat :| i < |before| && r == Some(before[i].id) && after == before[i := CheckedOut(before[i], now)];
      UsesUpdate(before, i, CheckedOut(before[i], now));
    } else if |before| < config.maxConnections {
      assert after[..|before|] == before;
    }
  }

  lemma StepCountsUses(config: PoolConfig, backend: string, w: World, step: Step, w': World)
    requires StepEffect(config, backend, w, step, w')
    ensures w'.acquired - w.acquired >= Uses(w'.conns) - Uses(w.conns)
    ensures !step.Evict? ==> w'.acquired - w.acquired == Uses(w'.conns) - Uses(w.conns)
  {
    match step {
      case Take(caller, now) =>
        var r :| Took(config, backend, w, caller, now, w', r);
        TakeCountsUse(w.conns, w'.conns, config, backend, w.nextId, w'.nextId, now, r);
      case Give(_, _, _, _) =>
        SameUses(w.conns, w'.conns);
      case Evict(now) =>
        KeptUses(w.conns, config, now);
      case Check(_) =>
        SameUses(w.conns, w'.conns);
    }
  }

  /** In any run the slots have been used no more often than the pool was asked, and exactly so without eviction. */
  lemma {:induction false} UsesAreCounted(config: PoolConfig, backend: string, steps: seq<Step>, worlds: seq<World>,
                                          k: nat)
    requires IsRun(config, backend, steps, worlds) && k < |worlds|
    ensures Uses(worlds[k].conns) <= worlds[k].acquired
    ensures (forall i | 0 <= i < k :: !steps[i].Evict?) ==> Uses(worlds[k].conns) == worlds[k].acquired
  {
    if k > 0 {
      UsesAreCounted(config, backend, steps, worlds, k - 1);
      assert StepEffect(config, backend, worlds[k - 1], steps[k - 1], worlds[k]);
      hide StepEffect;
      StepCountsUses(config, backend, worlds[k - 1], steps[k - 1], worlds[k]);
    }
  }

  /** A slot released at some time stays until it has been unused for too long since then, or is too old. */
  lemma ReleasedSlotStays(before: Connections, after: Connections, config: PoolConfig, i: nat, past: nat, now: nat)
    requires i < |before| && GaveBack(before, after, before[i].id, past, false)
    ensures after[i] in Kept(after, config, now) <==>
            now < past + config.maxIdleMs && config.maxIdleMs > 0 &&
            now < before[i].createdAtMs + config.maxLifetimeMs && config.maxLifetimeMs > 0
  {
    EvictedByAge(after[i], config, now);
    assert after[i] in after;
  }

  /** A slot taken at some time stays until it is too old, and has then been used once more, at that time. */
  lemma TakenSlotStays(before: Connections, after: Connections, config: PoolConfig, backend: string,
                       nextId: nat, nextId': nat, past: nat, id: Id, now: nat)
    requires AcquireEffect(before, after, config, backend, nextId, nextId', past, Some(id))
    ensures exists c ::
              && c in after && c.id == id && c.state.InUse? && c.lastUsedMs == past
              && (c in Kept(after, config, now) <==>
                    config.maxLifetimeMs > 0 && now < c.createdAtMs + config.maxLifetimeMs)
  {
    if exists c | c in before :: c.state.Idle? {
      var i: nat :| i < |before| && id == before[i].id && after == before[i := CheckedOut(before[i], past)];
      var c := CheckedOut(before[i], past);
      assert after[i] == c && c in after;
      EvictedByAge(c, config, now);
    } else {
      var c := Connection(id, backend, InUse, past, past, 1, 0);
      assert after[|before|] == c && c in after;
      EvictedByAge(c, config, now);
    }
  }

  // ---------- playing a run ----------

  /** Plays the steps on a pool; every caller's release reaches the pool, held or not. */
  method RunCallers(pool: ConnectionPool, steps: seq<Step>) returns (loans: Loans, ghost worlds: seq<World>)
    requires pool.Valid() && pool.connections == [] && pool.nextId == 1
    requires pool.totalAcquired == 0 && pool.totalReleased == 0 && pool.evictedTotal == 0
    modifies pool
    ensures IsRun(pool.config, pool.backend, steps, worlds)
    ensures worlds[|steps|] == World(pool.connections, pool.nextId, pool.totalAcquired, pool.totalReleased,
                                     pool.evictedTotal, loans, worlds[|steps|].returned)
  {
    loans := {};
    ghost var w := BEGINNING;
    worlds := [w];
    assert steps[..0] == [];
    for i := 0 to |steps|
      invariant pool.Valid() && IsRun(pool.config, pool.backend, steps[..i], worlds) && worlds[i] == w
      invariant w == World(pool.connections, pool.nextId, pool.totalAcquired, pool.totalReleased,
                           pool.evictedTotal, loans, w.returned)
    {
      hide IsRun;
      ghost var before, returned, taken := w, w.returned, None;
      match steps[i] {
        case Take(caller, now) =>
          var r := pool.Acquire(now);
          if r.Some? {
            loans := loans + {(caller, r.value)};
          }
          taken := r;
        case Give(caller, id, now, hadError) =>
          pool.Release(id, now, hadError);
          returned := returned + if (caller, id) in loans then 1 else 0;
          loans := loans - {(caller, id)};
        case Evict(now) =>
          var _ := pool.EvictStale(now);
        case Check(now) =>
          var _ := pool.HealthCheckAll(now);
      }
      w := World(pool.connections, pool.nextId, pool.totalAcquired, pool.totalReleased,
                 pool.evictedTotal, loans, returned);
      assert steps[i].Take? ==> Took(pool.config, pool.backend, before, steps[i].caller, steps[i].now, w, taken);
      ExtendRun(pool.config, pool.backend, steps, worlds, i, w);
      worlds := worlds + [w];
    }
    assert steps[..|steps|] == steps;
  }

  lemma ExtendRun(config: PoolConfig, backend: string, steps: seq<Step>, worlds: seq<World>, i: nat, w: World)
    requires i < |steps| && IsRun(config, backend, steps[..i], worlds)
    requires StepEffect(config, backend, worlds[i], steps[i], w)
    ensures IsRun(config, backend, steps[..i + 1], worlds + [w])
  {
    hide StepEffect;
    assert steps[..i + 1] == steps[..i] + [steps[i]];
  }

  /** Caller 0 releases its connection a second time, when caller 1 already holds it. */
  function TwiceReleased(now: nat): seq<Step> {
    [Take(0, now), Give(0, 1, now, false), Take(1, now), Give(0, 1, now, false), Take(2, now)]
  }

  /** The fourth step releases what another caller holds; the fifth hands it to a third caller. */
  lemma SharedAfterDoubleRelease(config: PoolConfig, backend: string, worlds: seq<World>, now: nat)
    requires config.maxConnections > 0 && IsRun(config, backend, TwiceReleased(now), worlds)
    ensures worlds[3].loans == {(1, 1)} && !Harmless(worlds[3], TwiceReleased(now)[3])
    ensures OneSlot(worlds[5], InUse) && worlds[5].loans == {(1, 1), (2, 1)} && !Exclusive(worlds[5].loans)
  {
    var steps := TwiceReleased(now);
    FirstTake(config, backend, worlds[0], worlds[1], 0, now);
    NextGive(config, backend, worlds[1], worlds[2], now);
    NextTake(config, backend, worlds[2], worlds[3], 1, now);
    NextGive(config, backend, worlds[3], worlds[4], now);
    NextTake(config, backend, worlds[4], worlds[5], 2, now);
    assert (1, 1) in worlds[5].loans && (2, 1) in worlds[5].loans;
  }

  /** Caller 0 releases its connection five times: four times with an error, then without. */
  function BadlyReleased(now: nat): seq<Step> {
    var bad := Give(0, 1, now, true);
    [Take(0, now), bad, bad, bad, bad, Give(0, 1, now, false)]
  }

  /** Such callers do give the health check work, although every release is harmless. */
  lemma SickAfterBadReleases(config: PoolConfig, backend: string, worlds: seq<World>, now: nat, later: nat)
    requires config.maxConnections > 0 && IsRun(config, backend, BadlyReleased(now), worlds)
    requires later > now + config.healthCheckIntervalMs
    ensures forall k | 0 <= k < 6 :: Harmless(worlds[k], BadlyReleased(now)[k])
    ensures SickIds(worlds[6].conns, config, later) == [1]
  {
    var steps := BadlyReleased(now);
    FirstTake(config, backend, worlds[0], worlds[1], 0, now);
    BadGive(config, backend, worlds[1], worlds[2], now, true, 0);
    BadGive(config, backend, worlds[2], worlds[3], now, true, 1);
    BadGive(config, backend, worlds[3], worlds[4], now, true, 2);
    BadGive(config, backend, worlds[4], worlds[5], now, true, 3);
    BadGive(config, backend, worlds[5], worlds[6], now, false, 4);
    OneSick(worlds[6].conns, config, later);
  }

  lemma BadGive(config: PoolConfig, backend: string, w: World, w': World, now: nat, hadError: bool, errors: nat)
    requires |w.conns| == 1 && w.conns[0].id == 1 && w.conns[0].errorCount == errors && w.loans <= {(0, 1)}
    requires StepEffect(config, backend, w, Give(0, 1, now, hadError), w')
    ensures Harmless(w, Give(0, 1, now, hadError)) && w'.loans == {}
    ensures w'.conns == [Returned(w.conns[0], now, hadError)]
  {
    assert w.loans - {(0, 1)} == {};
    assert (0, 1) in w.loans || w.loans == {};
  }

  lemma OneSick(conns: Connections, config: PoolConfig, now: nat)
    requires |conns| == 1 && conns[0].id == 1 && IsSick(conns[0], config, now)
    ensures SickIds(conns, config, now) == [1]
  {
    assert SickIds(conns[..0], config, now) == [];
  }

  ghost predicate OneSlot(w: World, state: ConnectionState) {
    |w.conns| == 1 && w.conns[0].id == 1 && w.conns[0].state == state
  }

  lemma FirstTake(config: PoolConfig, backend: string, w: World, w': World, caller: Caller, now: nat)
    requires config.maxConnections > 0 && w == BEGINNING && StepEffect(config, backend, w, Take(caller, now), w')
    ensures OneSlot(w', InUse) && w'.loans == {(caller, 1)} && w'.conns[0].errorCount == 0
  {
  }

  lemma NextTake(config: PoolConfig, backend: string, w: World, w': World, caller: Caller, now: nat)
    requires OneSlot(w, Idle) && StepEffect(config, backend, w, Take(caller, now), w')
    ensures OneSlot(w', InUse) && w'.loans == w.loans + {(caller, 1)}
  {
    assert w.conns[0] in w.conns;
  }

  lemma NextGive(config: PoolConfig, backend: string, w: World, w': World, now: nat)
    requires OneSlot(w, InUse) && StepEffect(config, backend, w, Give(0, 1, now, false), w')
    ensures OneSlot(w', Idle) && w'.loans == w.loans - {(0, 1)}
  {
  }

  /** A caller that releases twice hands its connection to two others at once. */
  method DoubleRelease(now: nat) returns (pool: ConnectionPool, loans: Loans, ghost worlds: seq<World>)
    ensures fresh(pool) && IsRun(pool.config, pool.backend, TwiceReleased(now), worlds)
    ensures worlds[5].conns == pool.connections && worlds[5].loans == loans
    ensures (1, 1) in worlds[3].loans && !Harmless(worlds[3], TwiceReleased(now)[3])
    ensures |pool.connections| == 1 && pool.connections[0].id == 1 && loans == {(1, 1), (2, 1)}
  {
    pool := new ConnectionPool("db", PoolConfig(1, 0, 1000, 1000, 1000));
    loans, worlds := RunCallers(pool, TwiceReleased(now));
    SharedAfterDoubleRelease(pool.config, pool.backend, worlds, now);
  }
}
