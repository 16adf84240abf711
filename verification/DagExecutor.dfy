/**
  The wave executor: every round submits all remaining nodes whose dependencies are done.
  The router answers a job with its outputs, None meaning dropped, in an arbitrary way.
 */
module DagExecution {
  import opened Types
  import opened Digraph
  import opened JobDags

  type Response = Job -> Option<seq<Output>>

  datatype DagResult = DagResult(
    allOutputs: map<NodeId, seq<Output>>,
    leafOutputs: map<NodeId, seq<Output>>,
    nodesExecuted: nat,
    nodesDropped: nat)

  // ---------- what the router sees ----------

  /** A job was handed over for a node, or its answer was taken. */
  datatype Event = Submitted(id: NodeId, job: Job) | Joined(id: NodeId, result: Option<seq<Output>>)

  type Log = seq<Event>

  /** The router with the tasks spawned on it; the log only records what happens. */
  class Router {
    const respond: Response
    ghost var log: Log

    constructor (respond: Response)
      ensures this.respond == respond && log == []
    {
      this.respond := respond;
      log := [];
    }

    method Spawn(id: NodeId, job: Job)
      modifies this
      ensures log == old(log) + [Submitted(id, job)]
    {
      log := log + [Submitted(id, job)];
    }

    method Join(id: NodeId, job: Job) returns (result: Option<seq<Output>>)
      modifies this
      ensures result == respond(job)
      ensures log == old(log) + [Joined(id, result)]
    {
      result := respond(job);
      log := log + [Joined(id, result)];
    }
  }

  ghost function Started(log: Log): set<NodeId>
  {
    set i | 0 <= i < |log| && log[i].Submitted? :: log[i].id
  }

  ghost function Ended(log: Log): set<NodeId>
  {
    set i | 0 <= i < |log| && log[i].Joined? :: log[i].id
  }

  /**
    A node may be submitted once, with its own job, when the answers of all its dependencies
    have been taken; the answer of a submitted node may be taken once.
   */
  ghost predicate Allowed(nodes: Nodes, respond: Response, before: Log, event: Event)
  {
    && event.id in nodes
    && match event
       case Submitted(n, job) =>
         job == nodes[n].job && n !in Started(before) && SetOf(nodes[n].dependsOn) <= Ended(before)
       case Joined(n, result) =>
         n in Started(before) && n !in Ended(before) && result == respond(nodes[n].job)
  }

  ghost predicate Orderly(nodes: Nodes, respond: Response, log: Log)
  {
    forall i | 0 <= i < |log| :: Allowed(nodes, respond, log[..i], log[i])
  }

  /** The waves are the longest stretches of submissions without an answer in between. */
  ghost function WavesOf(log: Log): seq<seq<NodeId>>
  {
    if log == [] then []
    else
      var n := |log| - 1;
      var waves := WavesOf(log[..n]);
      match log[n]
      case Joined(_, _) => waves
      case Submitted(id, _) =>
        if n > 0 && log[n - 1].Submitted? && waves != [] then
          waves[..|waves| - 1] + [waves[|waves| - 1] + [id]]
        else waves + [[id]]
  }

  lemma OrderlyNext(nodes: Nodes, respond: Response, log: Log, event: Event)
    requires Orderly(nodes, respond, log) && Allowed(nodes, respond, log, event)
    ensures Orderly(nodes, respond, log + [event])
  {
    hide Allowed;
    var log' := log + [event];
    forall i | 0 <= i < |log'|
      ensures Allowed(nodes, respond, log'[..i], log'[i])
    {
      assert log'[..i] == log[..i];
      assert log[..|log|] == log;
    }
  }

  lemma LogNext(log: Log, event: Event)
    ensures Started(log + [event]) == Started(log) + if event.Submitted? then {event.id} else {}
    ensures Ended(log + [event]) == Ended(log) + if event.Joined? then {event.id} else {}
  {
    var log' := log + [event];
    assert log'[|log|] == event;
    assert forall i | 0 <= i < |log| :: log'[i] == log[i];
  }

  lemma WavesNext(log: Log, event: Event)
    ensures event.Joined? ==> WavesOf(log + [event]) == WavesOf(log)
    ensures event.Submitted? && (log == [] || log[|log| - 1].Joined?) ==>
              WavesOf(log + [event]) == WavesOf(log) + [[event.id]]
    ensures forall waves, wave | WavesOf(log) == waves + [wave] ::
              event.Submitted? && log != [] && log[|log| - 1].Submitted? ==>
                WavesOf(log + [event]) == waves + [wave + [event.id]]
  {
    assert (log + [event])[..|log|] == log;
  }

  /**
    The first i nodes of a wave have been submitted, and the answers of `done` taken; with
    i = 0 this is the state between two waves.
   */
  ghost predicate Submitting(nodes: Nodes, respond: Response, log: Log, done: set<NodeId>,
                             waves: seq<seq<NodeId>>, wave: seq<NodeId>)
  {
    && Orderly(nodes, respond, log)
    && Started(log) == done + SetOf(wave) && Ended(log) == done
    && if wave == [] then WavesOf(log) == waves && (log == [] || log[|log| - 1].Joined?)
       else WavesOf(log) == waves + [wave] && log != [] && log[|log| - 1].Submitted?
  }

  /** The whole wave has been submitted; the answers of `open` are still to be taken. */
  ghost predicate Answering(nodes: Nodes, respond: Response, log: Log, done: set<NodeId>,
                            waves: seq<seq<NodeId>>, open: set<NodeId>)
  {
    && Orderly(nodes, respond, log)
    && Started(log) == done + open && Ended(log) == done && WavesOf(log) == waves
    && (open == {} ==> log == [] || log[|log| - 1].Joined?)
  }

  lemma NothingSubmitted(nodes: Nodes, respond: Response)
    ensures Answering(nodes, respond, [], SetOf(Dispatched([])), [], {})
  {
  }

  lemma SubmitNext(nodes: Nodes, respond: Response, log: Log, done: set<NodeId>, waves: seq<seq<NodeId>>,
                   wave: seq<NodeId>, n: NodeId)
    requires Submitting(nodes, respond, log, done, waves, wave)
    requires n in nodes && n !in done && n !in wave && SetOf(nodes[n].dependsOn) <= done
    ensures Submitting(nodes, respond, log + [Submitted(n, nodes[n].job)], done, waves, wave + [n])
  {
    hide Orderly, WavesOf, Started, Ended;
    var event := Submitted(n, nodes[n].job);
    OrderlyNext(nodes, respond, log, event);
    LogNext(log, event);
    WavesNext(log, event);
    SetOfAppend(wave, [n]);
    assert wave == [] ==> wave + [n] == [n];
    assert SetOf([n]) == {n};
  }

  lemma BeginWave(nodes: Nodes, respond: Response, log: Log, done: set<NodeId>, waves: seq<seq<NodeId>>)
    requires Answering(nodes, respond, log, done, waves, {})
    ensures Submitting(nodes, respond, log, done, waves, [])
  {
    hide Orderly, WavesOf, Started, Ended;
  }

  lemma EndWave(nodes: Nodes, respond: Response, log: Log, done: set<NodeId>, waves: seq<seq<NodeId>>,
                wave: seq<NodeId>)
    requires Submitting(nodes, respond, log, done, waves, wave) && wave != []
    ensures Answering(nodes, respond, log, done, waves + [wave], SetOf(wave))
  {
    hide Orderly, WavesOf, Started, Ended;
    assert wave[0] in SetOf(wave);
  }

  lemma JoinNext(nodes: Nodes, respond: Response, log: Log, done: set<NodeId>, waves: seq<seq<NodeId>>,
                 open: set<NodeId>, n: NodeId)
    requires Answering(nodes, respond, log, done, waves, open) && n in open && n !in done && n in nodes
    ensures Answering(nodes, respond, log + [Joined(n, respond(nodes[n].job))], done + {n}, waves, open - {n})
  {
    hide Orderly, WavesOf, Started, Ended;
    var event := Joined(n, respond(nodes[n].job));
    OrderlyNext(nodes, respond, log, event);
    LogNext(log, event);
    WavesNext(log, event);
  }

  // ---------- schedules ----------

  /** All dispatches of the given waves, in order. */
  ghost function Dispatched(waves: seq<seq<NodeId>>): seq<NodeId>
  {
    if waves == [] then [] else Dispatched(waves[..|waves| - 1]) + waves[|waves| - 1]
  }

  /** A node runs as early as its dependencies allow: right after the last of them. */
  ghost predicate RightWave(nodes: Nodes, waves: seq<seq<NodeId>>, k: nat, n: NodeId)
    requires k < |waves|
  {
    && n in nodes
    && SetOf(nodes[n].dependsOn) <= SetOf(Dispatched(waves[..k]))
    && (k > 0 ==> exists d :: d in nodes[n].dependsOn && d in waves[k - 1])
  }

  ghost predicate RightWaves(nodes: Nodes, waves: seq<seq<NodeId>>)
  {
    forall k | 0 <= k < |waves| ::
      waves[k] != [] && forall n | n in waves[k] :: RightWave(nodes, waves, k, n)
  }

  /** Every node is dispatched exactly once, in one plus the last wave of its dependencies. */
  ghost predicate IsSchedule(nodes: Nodes, waves: seq<seq<NodeId>>)
  {
    && Distinct(Dispatched(waves))
    && SetOf(Dispatched(waves)) == nodes.Keys
    && RightWaves(nodes, waves)
  }

  lemma {:induction false} WaveOf(waves: seq<seq<NodeId>>, n: NodeId) returns (k: nat)
    requires n in Dispatched(waves)
    ensures k < |waves| && n in waves[k]
  {
    var last := |waves| - 1;
    if n in waves[last] {
      k := last;
    } else {
      k := WaveOf(waves[..last], n);
    }
  }

  lemma {:induction false} ChainFits(nodes: Nodes, waves: seq<seq<NodeId>>, p: seq<NodeId>, k: nat)
    requires RightWaves(nodes, waves) && IsPath(EdgesOf(nodes), p)
    requires k < |waves| && p[|p| - 1] in waves[k]
    ensures |p| <= k + 1
  {
    var n := |p| - 1;
    if n > 0 {
      assert (p[n - 1], p[n]) in EdgesOf(nodes);
      assert RightWave(nodes, waves, k, p[n]);
      assert p[n - 1] in SetOf(nodes[p[n]].dependsOn);
      var m := WaveOf(waves[..k], p[n - 1]);
      ChainFits(nodes, waves, p[..n], m);
    }
  }

  lemma {:induction false} ChainInto(nodes: Nodes, waves: seq<seq<NodeId>>, n: NodeId, k: nat) returns (p: seq<NodeId>)
    requires RightWaves(nodes, waves) && k < |waves| && n in waves[k]
    ensures IsPath(EdgesOf(nodes), p) && |p| == k + 1 && p[k] == n
    decreases k
  {
    assert RightWave(nodes, waves, k, n);
    if k == 0 {
      p := [n];
    } else {
      var d :| d in nodes[n].dependsOn && d in waves[k - 1];
      assert (d, n) in EdgesOf(nodes);
      p := ChainInto(nodes, waves, d, k - 1);
      Join(EdgesOf(nodes), p, [n]);
      p := p + [n];
    }
  }

  /** The number of waves is the length of a longest dependency chain. */
  lemma WaveCountIsLongestChain(nodes: Nodes, waves: seq<seq<NodeId>>)
    requires IsSchedule(nodes, waves) && nodes != map[]
    ensures exists p :: IsPath(EdgesOf(nodes), p) && |p| == |waves|
    ensures forall p | IsPath(EdgesOf(nodes), p) :: |p| <= |waves|
  {
    var some :| some in nodes;
    assert some in SetOf(Dispatched(waves));
    var last := |waves| - 1;
    var n := waves[last][0];
    var chain := ChainInto(nodes, waves, n, last);
    forall p | IsPath(EdgesOf(nodes), p)
      ensures |p| <= |waves|
    {
      if |p| > 1 {
        assert (p[|p| - 2], p[|p| - 1]) in EdgesOf(nodes);
        assert p[|p| - 1] in SetOf(Dispatched(waves));
        var k := WaveOf(waves, p[|p| - 1]);
        ChainFits(nodes, waves, p, k);
      }
    }
  }

  lemma {:induction false} WavesGrow(log: Log, i: nat, k: nat)
    requires i <= k <= |log|
    ensures |WavesOf(log[..i])| <= |WavesOf(log[..k])|
  {
    if i < k {
      WavesGrow(log, i, k - 1);
      assert log[..k][..k - 1] == log[..k - 1];
    }
  }

  /** A submission that comes after an answer belongs to a later wave. */
  lemma {:induction false} LaterWave(log: Log, i: nat, k: nat)
    requires i < k < |log| && log[i].Joined? && log[k].Submitted?
    ensures |WavesOf(log[..i + 1])| < |WavesOf(log[..k + 1])|
  {
    assert log[..k + 1][..k] == log[..k];
    if log[k - 1].Joined? {
      WavesGrow(log, i + 1, k);
    } else {
      LaterWave(log, i, k - 1);
      WavesGrow(log, k, k + 1);
    }
  }

  lemma SubmittedAt(log: Log, n: NodeId) returns (k: nat)
    requires n in Started(log)
    ensures k < |log| && log[k].Submitted? && log[k].id == n
  {
    k :| 0 <= k < |log| && log[k].Submitted? && log[k].id == n;
  }

  lemma JoinedAt(log: Log, k: nat, d: NodeId) returns (i: nat)
    requires k <= |log| && d in Ended(log[..k])
    ensures i < k && log[i].Joined? && log[i].id == d
  {
    i :| 0 <= i < k && log[..k][i].Joined? && log[..k][i].id == d;
  }

  lemma AllowedAt(nodes: Nodes, respond: Response, log: Log, i: nat)
    requires Orderly(nodes, respond, log) && i < |log|
    ensures Allowed(nodes, respond, log[..i], log[i])
  {
  }

  /** A dependency is submitted and answered, in a wave of its own, before the node is submitted. */
  lemma DependencyBefore(nodes: Nodes, respond: Response, log: Log, d: NodeId, n: NodeId) returns (i: nat)
    requires Orderly(nodes, respond, log) && n in Started(log) && n in nodes && d in nodes[n].dependsOn
    ensures i < |log| && Orderly(nodes, respond, log[..i]) && d in Started(log[..i])
    ensures |WavesOf(log[..i])| < |WavesOf(log)|
  {
    hide Orderly, WavesOf, Started, Ended;
    var k := SubmittedAt(log, n);
    AllowedAt(nodes, respond, log, k);
    assert d in SetOf(nodes[n].dependsOn);
    i := JoinedAt(log, k, d);
    AllowedAt(nodes, respond, log, i);
    OrderlyBefore(nodes, respond, log, i);
    WavesGrow(log, i, i + 1);
    LaterWave(log, i, k);
    WavesGrow(log, k + 1, |log|);
    assert log[..|log|] == log;
  }

  lemma {:induction false} ChainNeedsWaves(nodes: Nodes, respond: Response, log: Log, p: seq<NodeId>)
    requires Orderly(nodes, respond, log) && IsPath(EdgesOf(nodes), p) && p[|p| - 1] in Started(log)
    ensures |p| <= |WavesOf(log)|
  {
    var n := |p| - 1;
    if n > 0 {
      assert (p[n - 1], p[n]) in EdgesOf(nodes);
      var i := DependencyBefore(nodes, respond, log, p[n - 1], p[n]);
      hide Orderly, Started, WavesOf;
      ChainNeedsWaves(nodes, respond, log[..i], p[..n]);
    } else {
      SomeWave(log, p[0]);
    }
  }

  lemma SomeWave(log: Log, n: NodeId)
    requires n in Started(log)
    ensures |WavesOf(log)| > 0
  {
    var k :| 0 <= k < |log| && log[k].Submitted? && log[k].id == n;
    WavesGrow(log, k + 1, |log|);
    assert log[..k + 1][..k] == log[..k] && log[..|log|] == log;
  }

  lemma OrderlyBefore(nodes: Nodes, respond: Response, log: Log, n: nat)
    requires Orderly(nodes, respond, log) && n <= |log|
    ensures Orderly(nodes, respond, log[..n])
  {
    hide Allowed;
    var log' := log[..n];
    forall i | 0 <= i < |log'|
      ensures Allowed(nodes, respond, log'[..i], log'[i])
    {
      assert log'[..i] == log[..i];
    }
  }

  /** No orderly way of answering all nodes, in whatever waves, takes fewer than a schedule. */
  lemma ScheduleIsShortest(nodes: Nodes, respond: Response, waves: seq<seq<NodeId>>, log: Log)
    requires IsSchedule(nodes, waves) && nodes != map[]
    requires Orderly(nodes, respond, log) && Started(log) == nodes.Keys
    ensures |waves| <= |WavesOf(log)|
  {
    var last := |waves| - 1;
    var some :| some in nodes;
    assert some in SetOf(Dispatched(waves));
    var n := waves[last][0];
    var chain := ChainInto(nodes, waves, n, last);
    assert RightWave(nodes, waves, last, n);
    ChainNeedsWaves(nodes, respond, log, chain);
  }

  // ---------- the wave loop ----------

  /**
    Between waves: the finished nodes are the dispatched ones, the others remain, and (after
    the first wave) each remaining node had an unfinished dependency one wave earlier.
   */
  ghost predicate BetweenWaves(nodes: Nodes, waves: seq<seq<NodeId>>, remaining: seq<NodeId>)
  {
    && Distinct(Dispatched(waves) + remaining)
    && SetOf(Dispatched(waves)) + SetOf(remaining) == nodes.Keys
    && RightWaves(nodes, waves)
    && (|waves| > 0 ==> forall n | n in remaining ::
          !(SetOf(nodes[n].dependsOn) <= SetOf(Dispatched(waves[..|waves| - 1]))))
  }

  /** `ready` and `waiting` split `remaining` by whether all dependencies are in `done`. */
  ghost predicate Split(nodes: Nodes, done: set<NodeId>, remaining: seq<NodeId>,
                        ready: seq<NodeId>, waiting: seq<NodeId>)
  {
    && Distinct(ready) && Distinct(waiting) && SetOf(ready) !! SetOf(waiting)
    && SetOf(ready) + SetOf(waiting) == SetOf(remaining)
    && SetOf(remaining) <= nodes.Keys
    && (forall n | n in ready :: SetOf(nodes[n].dependsOn) <= done)
    && forall n | n in waiting :: !(SetOf(nodes[n].dependsOn) <= done)
  }

  /** The wave splits the same way in the whole graph; it is empty only when all nodes wait. */
  lemma SplitOfWhole(nodes: Nodes, nodesMap: Nodes, done: set<NodeId>, remaining: seq<NodeId>,
                     ready: seq<NodeId>, waiting: seq<NodeId>)
    requires Split(nodesMap, done, remaining, ready, waiting)
    requires forall n | n in nodesMap :: n in nodes && nodesMap[n] == nodes[n]
    ensures Split(nodes, done, remaining, ready, waiting)
    ensures remaining != [] && waiting == [] ==> ready != []
    ensures ready != [] ==> |nodesMap - SetOf(ready)| < |nodesMap|
  {
    forall n | n in ready + waiting
      ensures n in nodesMap
    {
      assert n in SetOf(ready) + SetOf(waiting);
    }
    assert remaining != [] ==> remaining[0] in SetOf(remaining);
    if ready != [] {
      assert ready[0] in SetOf(ready);
      SubsetSize((nodesMap - SetOf(ready)).Keys, nodesMap.Keys);
      assert ready[0] !in (nodesMap - SetOf(ready)).Keys;
    }
  }

  lemma SplitStep(nodes: Nodes, done: set<NodeId>, remaining: seq<NodeId>,
                  ready: seq<NodeId>, waiting: seq<NodeId>, n: NodeId)
    requires Split(nodes, done, remaining, ready, waiting) && n in nodes && n !in remaining
    ensures if SetOf(nodes[n].dependsOn) <= done
            then Split(nodes, done, remaining + [n], ready + [n], waiting)
            else Split(nodes, done, remaining + [n], ready, waiting + [n])
  {
    assert n !in SetOf(remaining);
    SetOfAppend(remaining, [n]);
    SetOfAppend(ready, [n]);
    SetOfAppend(waiting, [n]);
    assert n !in SetOf(ready) && n !in SetOf(waiting);
  }

  lemma NextWave(nodes: Nodes, waves: seq<seq<NodeId>>, remaining: seq<NodeId>,
                 ready: seq<NodeId>, waiting: seq<NodeId>)
    requires BetweenWaves(nodes, waves, remaining) && ready != []
    requires Split(nodes, SetOf(Dispatched(waves)), remaining, ready, waiting)
    ensures BetweenWaves(nodes, waves + [ready], waiting)
    ensures SetOf(Dispatched(waves + [ready])) == SetOf(Dispatched(waves)) + SetOf(ready)
  {
    var done := Dispatched(waves);
    var waves' := waves + [ready];
    assert waves'[..|waves|] == waves;
    assert Dispatched(waves') == done + ready;
    SetOfAppend(done, ready);
    DisjointParts(done, remaining, ready, waiting);
    assert RightWaves(nodes, waves') by {
      forall k | 0 <= k < |waves'|
        ensures waves'[k] != [] && forall n | n in waves'[k] :: RightWave(nodes, waves', k, n)
      {
        assert waves'[..k] == waves[..k];
        forall n | n in waves'[k]
          ensures RightWave(nodes, waves', k, n)
        {
          if k < |waves| {
            assert RightWave(nodes, waves, k, n);
          } else {
            assert n in SetOf(remaining);
            ReadyNow(nodes, waves, remaining, n);
          }
        }
      }
    }
  }

  lemma DisjointParts(done: seq<NodeId>, remaining: seq<NodeId>, ready: seq<NodeId>, waiting: seq<NodeId>)
    requires Distinct(done + remaining) && Distinct(ready) && Distinct(waiting)
    requires SetOf(ready) !! SetOf(waiting) && SetOf(ready) + SetOf(waiting) == SetOf(remaining)
    ensures Distinct((done + ready) + waiting)
  {
    SetOfSize(done + remaining);
    SetOfAppend(done, remaining);
    SetOfSize(done);
    SetOfSize(remaining);
    SetOfSize(ready);
    SetOfSize(waiting);
    assert |SetOf(remaining)| == |ready| + |waiting|;
    SetOfAppend(done, ready);
    SetOfAppend(done + ready, waiting);
    assert SetOf((done + ready) + waiting) == SetOf(done) + SetOf(remaining);
    assert done + remaining == done + remaining[..];
    DistinctSizes(done, remaining);
    SetOfSize((done + ready) + waiting);
  }

  lemma DistinctSizes(a: seq<NodeId>, b: seq<NodeId>)
    requires Distinct(a + b)
    ensures |SetOf(a) + SetOf(b)| == |SetOf(a)| + |SetOf(b)| == |a| + |b|
    ensures |SetOf(b)| == |b|
  {
    SetOfSize(a + b);
    SetOfAppend(a, b);
    SetOfSize(a);
    SetOfSize(b);
    assert |SetOf(a) + SetOf(b)| <= |SetOf(a)| + |SetOf(b)|;
  }

  lemma ReadyNow(nodes: Nodes, waves: seq<seq<NodeId>>, remaining: seq<NodeId>, n: NodeId)
    requires BetweenWaves(nodes, waves, remaining) && n in remaining
    requires SetOf(nodes[n].dependsOn) <= SetOf(Dispatched(waves))
    ensures |waves| > 0 ==> exists d :: d in nodes[n].dependsOn && d in waves[|waves| - 1]
  {
  }

  /** In an acyclic graph some remaining node is always ready. */
  lemma SomeNodeIsReady(nodes: Nodes, done: set<NodeId>, remaining: seq<NodeId>, waiting: seq<NodeId>)
    requires Acyclic(EdgesOf(nodes)) && Closed(nodes)
    requires done + SetOf(remaining) == nodes.Keys && Split(nodes, done, remaining, [], waiting)
    ensures remaining == []
  {
    if remaining != [] {
      var S := SetOf(remaining);
      assert remaining[0] in S;
      forall n | n in S
        ensures HasPredecessorIn(EdgesOf(nodes), S, n)
      {
        assert n in SetOf(waiting);
        var d :| d in SetOf(nodes[n].dependsOn) && d !in done;
        assert d in nodes && (d, n) in EdgesOf(nodes);
      }
      NoSourceMeansCycle(EdgesOf(nodes), S);
    }
  }

  ghost function OutputOf(nodes: Nodes, respond: Response, n: NodeId): seq<Output>
    requires n in nodes
  {
    respond(nodes[n].job).GetOr([])
  }

  ghost function DroppedNodes(nodes: Nodes, respond: Response, done: set<NodeId>): set<NodeId>
  {
    set n | n in done && n in nodes && respond(nodes[n].job).None?
  }

  lemma DroppedStep(nodes: Nodes, respond: Response, done: set<NodeId>, n: NodeId)
    requires n in nodes && n !in done
    ensures |DroppedNodes(nodes, respond, done + {n})| ==
            |DroppedNodes(nodes, respond, done)| + if respond(nodes[n].job).None? then 1 else 0
  {
    var before, after := DroppedNodes(nodes, respond, done), DroppedNodes(nodes, respond, done + {n});
    if respond(nodes[n].job).None? {
      assert after == before + {n};
    } else {
      assert after == before;
    }
  }

  lemma NothingDropped(nodes: Nodes, respond: Response)
    ensures Collected(nodes, respond, SetOf(Dispatched([])), map[], 0)
  {
  }

  /** A nonempty topologically ordered graph ends in a leaf. */
  lemma SomeLeaf(nodes: Nodes, order: seq<NodeId>)
    requires IsTopological(EdgesOf(nodes), order) && SetOf(order) == nodes.Keys && nodes != map[]
    ensures Leaves(nodes) != {}
  {
    var m :| m in nodes;
    assert m in SetOf(order);
    var n := |order| - 1;
    var last := order[n];
    assert last in SetOf(order);
    forall b | b in nodes
      ensures last !in nodes[b].dependsOn
    {
      assert b in SetOf(order);
      var k :| 0 <= k < |order| && order[k] == b;
      assert ForwardInto(EdgesOf(nodes), order, order[k], k);
      assert last !in order[..k];
      assert last in nodes[b].dependsOn ==> (last, b) in EdgesOf(nodes);
    }
    assert last in Leaves(nodes);
  }

  lemma LeafMeaning(nodes: Nodes, n: NodeId)
    ensures n in Leaves(nodes) <==> n in nodes && forall v :: (n, v) !in EdgesOf(nodes)
  {
    assert forall v | v in nodes :: n in nodes[v].dependsOn <==> (n, v) in EdgesOf(nodes);
  }

  /** Walks along edges until a leaf, or for k steps. */
  lemma {:induction false} WalkOn(nodes: Nodes, n: NodeId, k: nat) returns (p: seq<NodeId>)
    requires n in nodes
    ensures IsPath(EdgesOf(nodes), p) && p[0] == n && SetOf(p) <= nodes.Keys
    ensures p[|p| - 1] in Leaves(nodes) || |p| == k + 1
    decreases k
  {
    if k == 0 || n in Leaves(nodes) {
      p := [n];
    } else {
      LeafMeaning(nodes, n);
      var v :| (n, v) in EdgesOf(nodes);
      var q := WalkOn(nodes, v, k - 1);
      Join(EdgesOf(nodes), [n], q);
      p := [n] + q;
      SetOfAppend([n], q);
    }
  }

  /** In an acyclic graph every node leads to a leaf, so the leaf outputs stand for all work. */
  lemma EveryNodeReachesLeaf(nodes: Nodes, n: NodeId)
    requires Acyclic(EdgesOf(nodes)) && n in nodes
    ensures exists leaf :: leaf in Leaves(nodes) && Reaches(EdgesOf(nodes), n, leaf)
  {
    var E := EdgesOf(nodes);
    var p := WalkOn(nodes, n, |nodes.Keys|);
    if p[|p| - 1] in Leaves(nodes) {
      assert IsPathFromTo(E, p, n, p[|p| - 1]);
    } else {
      var i, j := Repeats(p, nodes.Keys);
      RepeatCloses(E, p, i, j);
    }
  }

  lemma DistinctParts(a: seq<NodeId>, b: seq<NodeId>)
    requires Distinct(a + b)
    ensures Distinct(b) && SetOf(a) !! SetOf(b)
  {
    assert b == (a + b)[|a|..];
    forall n | n in a
      ensures n !in b
    {
      var i :| 0 <= i < |a| && a[i] == n;
      forall j | 0 <= j < |b|
        ensures b[j] != n
      {
        assert (a + b)[i] == n && (a + b)[|a| + j] == b[j];
      }
    }
  }

  lemma RemainingNodes(nodes: Nodes, waves: seq<seq<NodeId>>, remaining: seq<NodeId>)
    requires BetweenWaves(nodes, waves, remaining)
    ensures Distinct(remaining) && SetOf(remaining) <= nodes.Keys
    ensures SetOf(remaining) !! SetOf(Dispatched(waves))
    ensures SetOf(Dispatched(waves)) + SetOf(remaining) == nodes.Keys
  {
    hide Dispatched, RightWaves;
    DistinctParts(Dispatched(waves), remaining);
  }

  lemma Start(nodes: Nodes, topo: seq<NodeId>)
    requires IsTopological(EdgesOf(nodes), topo) && SetOf(topo) == nodes.Keys
    ensures BetweenWaves(nodes, [], topo)
  {
  }

  lemma Stop(nodes: Nodes, waves: seq<seq<NodeId>>)
    requires BetweenWaves(nodes, waves, [])
    ensures IsSchedule(nodes, waves) && SetOf(Dispatched(waves)) == nodes.Keys
  {
    assert Dispatched(waves) + [] == Dispatched(waves);
  }

  /** What the executor has collected once the nodes of `done` have run. */
  ghost predicate Collected(nodes: Nodes, respond: Response, done: set<NodeId>,
                            completed: map<NodeId, seq<Output>>, dropped: nat)
  {
    && completed.Keys == done <= nodes.Keys
    && (forall n | n in done :: completed[n] == OutputOf(nodes, respond, n))
    && dropped == |DroppedNodes(nodes, respond, done)|
  }

  lemma CollectedKeys(nodes: Nodes, respond: Response, done: set<NodeId>,
                      completed: map<NodeId, seq<Output>>, dropped: nat)
    requires Collected(nodes, respond, done, completed, dropped)
    ensures completed.Keys == done
  {
  }

  lemma SplitParts(nodes: Nodes, done: set<NodeId>, remaining: seq<NodeId>, ready: seq<NodeId>, waiting: seq<NodeId>)
    requires Split(nodes, done, remaining, ready, waiting)
    ensures SetOf(ready) + SetOf(waiting) == SetOf(remaining) && SetOf(ready) !! SetOf(waiting)
    ensures Distinct(ready) && forall n | n in ready :: SetOf(nodes[n].dependsOn) <= done
  {
  }

  lemma CollectOne(nodes: Nodes, respond: Response, done: set<NodeId>,
                   completed: map<NodeId, seq<Output>>, dropped: nat, n: NodeId)
    requires Collected(nodes, respond, done, completed, dropped) && n in nodes && n !in done
    ensures var result := respond(nodes[n].job);
            Collected(nodes, respond, done + {n}, completed[n := result.GetOr([])],
                      if result.None? then dropped + 1 else dropped)
  {
    DroppedStep(nodes, respond, done, n);
  }

  /** While a wave is being joined: the answers of `done` are collected, the others still to come. */
  ghost predicate Collecting(nodes: Nodes, respond: Response, log: Log, waves: seq<seq<NodeId>>,
                             completed: map<NodeId, seq<Output>>, dropped: nat, joinSet: map<NodeId, Job>)
  {
    && Collected(nodes, respond, completed.Keys, completed, dropped)
    && Answering(nodes, respond, log, completed.Keys, waves, joinSet.Keys)
    && completed.Keys !! joinSet.Keys
    && forall n | n in joinSet :: n in nodes && joinSet[n] == nodes[n].job
  }

  lemma CollectNext(nodes: Nodes, respond: Response, log: Log, waves: seq<seq<NodeId>>,
                    completed: map<NodeId, seq<Output>>, dropped: nat, joinSet: map<NodeId, Job>, n: NodeId)
    requires Collecting(nodes, respond, log, waves, completed, dropped, joinSet) && n in joinSet
    ensures var result := respond(joinSet[n]);
            Collecting(nodes, respond, log + [Joined(n, result)], waves, completed[n := result.GetOr([])],
                       if result.None? then dropped + 1 else dropped, joinSet - {n})
    ensures completed.Keys + joinSet.Keys == (completed.Keys + {n}) + (joinSet - {n}).Keys
  {
    hide Collected, Answering;
    JoinNext(nodes, respond, log, completed.Keys, waves, joinSet.Keys, n);
    CollectOne(nodes, respond, completed.Keys, completed, dropped, n);
    assert (joinSet - {n}).Keys == joinSet.Keys - {n};
    assert completed[n := respond(joinSet[n]).GetOr([])].Keys == completed.Keys + {n};
  }

  lemma AllSpawned(nodes: Nodes, respond: Response, log: Log, waves: seq<seq<NodeId>>,
                   completed: map<NodeId, seq<Output>>, dropped: nat, joinSet: map<NodeId, Job>)
    requires Collected(nodes, respond, completed.Keys, completed, dropped)
    requires Answering(nodes, respond, log, completed.Keys, waves, joinSet.Keys)
    requires completed.Keys !! joinSet.Keys && forall n | n in joinSet :: n in nodes && joinSet[n] == nodes[n].job
    ensures Collecting(nodes, respond, log, waves, completed, dropped, joinSet)
  {
  }

  lemma AllCollected(nodes: Nodes, respond: Response, log: Log, waves: seq<seq<NodeId>>,
                     completed: map<NodeId, seq<Output>>, dropped: nat)
    requires Collecting(nodes, respond, log, waves, completed, dropped, map[])
    ensures Collected(nodes, respond, completed.Keys, completed, dropped)
    ensures Answering(nodes, respond, log, completed.Keys, waves, {})
  {
    var none: map<NodeId, Job> := map[];
    assert none.Keys == {};
  }

  ghost predicate IsResult(nodes: Nodes, respond: Response, result: DagResult)
  {
    && result.allOutputs == (map n | n in nodes :: OutputOf(nodes, respond, n))
    && result.leafOutputs == (map n | n in Leaves(nodes) :: OutputOf(nodes, respond, n))
    && result.nodesExecuted == |nodes|
    && result.nodesDropped == |DroppedNodes(nodes, respond, nodes.Keys)|
  }

  lemma Finish(nodes: Nodes, respond: Response, completed: map<NodeId, seq<Output>>, dropped: nat,
               leafOutputs: map<NodeId, seq<Output>>)
    requires Collected(nodes, respond, nodes.Keys, completed, dropped)
    requires leafOutputs == map n | n in completed && n in Leaves(nodes) :: completed[n]
    ensures IsResult(nodes, respond, DagResult(completed, leafOutputs, |completed|, dropped))
  {
  }

  /** The error cases exactly, and what success means. */
  ghost predicate IsOutcome(nodes: Nodes, respond: Response, r: Result<DagResult>)
  {
    && (r == Err(EmptyDag) <==> nodes == map[])
    && (nodes != map[] ==> (r.Ok? <==> DuplicateFree(nodes)))
    && (r.Err? && nodes != map[] ==> r == Err(CycleDetected(0, 0)))
    && (r.Ok? ==> IsResult(nodes, respond, r.value) && Leaves(nodes) != {})
  }

  /**
    The documentation promises that a dropped job fails the execution with JobDropped. This
    holds exactly when the router drops no job of the graph; any failure at all comes with a
    dropped job exactly when, besides, some edge is repeated and so nothing is submitted.
   */
  lemma DroppedJobsFailExactly(nodes: Nodes, respond: Response, r: Result<DagResult>)
    requires IsOutcome(nodes, respond, r)
    ensures var dropped := DroppedNodes(nodes, respond, nodes.Keys);
            && ((dropped != {} ==> r.Err? && r.error.JobDropped?) <==> dropped == {})
            && ((dropped != {} ==> r.Err?) <==> dropped == {} || !DuplicateFree(nodes))
  {
  }

  class DagExecutor {
    const router: Router

    constructor (router: Router)
      ensures this.router == router
    {
      this.router := router;
    }

    method Execute(dag: JobDag) returns (r: Result<DagResult>, ghost log: Log)
      requires dag.Valid()
      modifies router
      ensures IsOutcome(dag.nodes, router.respond, r)
      ensures router.log == old(router.log) + log && (r.Err? ==> log == [])
      // Each node is submitted and answered once, never before its dependencies are answered,
      // and the submissions come in the fewest waves.
      ensures r.Ok? ==>
                        && Orderly(dag.nodes, router.respond, log)
                        && Started(log) == Ended(log) == dag.nodes.Keys
                        && IsSchedule(dag.nodes, WavesOf(log))
    {
      hide IsTopological, BetweenWaves, IsSchedule, Dispatched, Acyclic, DuplicateFree, Closed, Leaves;
      hide IsResult, Split, Collected, DroppedNodes, Answering, Orderly, Started, Ended, WavesOf, SetOf, Distinct;
      var nodes := dag.nodes;
      ghost var waves: seq<seq<NodeId>>, respond := [], router.respond;
      log := [];
      assert router.log == old(router.log) + log;
      if |nodes| == 0 {
        return Err(EmptyDag), log;
      }
      var topo := dag.TopologicalOrder();
      if topo.None? {
        return Err(CycleDetected(0, 0)), log;
      }
      var leafSet := dag.LeafNodes();
      SomeLeaf(nodes, topo.value);
      var completed: map<NodeId, seq<Output>> := map[];
      var nodesDropped := 0;
      var remaining := topo.value;
      var nodesMap := nodes;
      Start(nodes, topo.value);
      RemainingNodes(nodes, waves, remaining);
      NothingDropped(nodes, respond);
      NothingSubmitted(nodes, respond);
      while remaining != []
        invariant BetweenWaves(nodes, waves, remaining)
        invariant Collected(nodes, respond, SetOf(Dispatched(waves)), completed, nodesDropped)
        invariant nodesMap.Keys == SetOf(remaining)
        invariant forall n | n in nodesMap :: n in nodes && nodesMap[n] == nodes[n]
        invariant router.log == old(router.log) + log
        invariant Answering(nodes, respond, log, SetOf(Dispatched(waves)), waves, {})
        decreases |nodesMap|
      {
        RemainingNodes(nodes, waves, remaining);
        CollectedKeys(nodes, respond, SetOf(Dispatched(waves)), completed, nodesDropped);
        var wave, nextRemaining := SplitReady(nodesMap, remaining, completed);
        SplitOfWhole(nodes, nodesMap, completed.Keys, remaining, wave, nextRemaining);
        SplitParts(nodes, completed.Keys, remaining, wave, nextRemaining);
        if wave == [] && nextRemaining != [] {
          SomeNodeIsReady(nodes, completed.Keys, remaining, nextRemaining);
          break;
        }
        NextWave(nodes, waves, remaining, wave, nextRemaining);
        completed, nodesDropped, nodesMap, log :=
          RunWave(nodesMap, wave, completed, nodesDropped, nodes, waves, old(router.log), log);
        waves := waves + [wave];
        remaining := nextRemaining;
      }
      Stop(nodes, waves);
      CollectedKeys(nodes, respond, SetOf(Dispatched(waves)), completed, nodesDropped);
      AllAnswered(nodes, respond, log, SetOf(Dispatched(waves)), waves);
      var leafOutputs := map n | n in completed && n in leafSet :: completed[n];
      Finish(nodes, respond, completed, nodesDropped, leafOutputs);
      r := Ok(DagResult(completed, leafOutputs, |completed|, nodesDropped));
    }

    /** Splits the remaining nodes into those whose dependencies have completed and the rest. */
    method SplitReady(nodesMap: Nodes, remaining: seq<NodeId>, completed: map<NodeId, seq<Output>>)
      returns (wave: seq<NodeId>, nextRemaining: seq<NodeId>)
      requires Distinct(remaining) && SetOf(remaining) == nodesMap.Keys
      ensures Split(nodesMap, completed.Keys, remaining, wave, nextRemaining)
    {
      wave, nextRemaining := [], [];
      for i := 0 to |remaining|
        invariant Split(nodesMap, completed.Keys, remaining[..i], wave, nextRemaining)
      {
        var id := remaining[i];
        assert id in SetOf(remaining);
        SplitStep(nodesMap, completed.Keys, remaining[..i], wave, nextRemaining, id);
        assert remaining[..i + 1] == remaining[..i] + [id];
        if forall dep | dep in nodesMap[id].dependsOn :: dep in completed {
          wave := wave + [id];
        } else {
          nextRemaining := nextRemaining + [id];
        }
      }
      assert remaining[..|remaining|] == remaining;
    }

    /** Submits the wave's jobs and collects their results in any order of completion. */
    method RunWave(nodesMap: Nodes, wave: seq<NodeId>, completed: map<NodeId, seq<Output>>, dropped: nat,
                   ghost nodes: Nodes, ghost waves: seq<seq<NodeId>>, ghost earlier: Log, ghost log: Log)
      returns (completed': map<NodeId, seq<Output>>, dropped': nat, nodesMap': Nodes, ghost log': Log)
      requires Collected(nodes, router.respond, completed.Keys, completed, dropped)
      requires wave != [] && Distinct(wave) && SetOf(wave) <= nodesMap.Keys && SetOf(wave) !! completed.Keys
      requires forall n | n in nodesMap :: n in nodes && nodesMap[n] == nodes[n]
      requires forall n | n in wave :: SetOf(nodes[n].dependsOn) <= completed.Keys
      requires router.log == earlier + log && Answering(nodes, router.respond, log, completed.Keys, waves, {})
      modifies router
      ensures Collected(nodes, router.respond, completed.Keys + SetOf(wave), completed', dropped')
      ensures nodesMap' == nodesMap - SetOf(wave)
      ensures router.log == earlier + log'
      ensures Answering(nodes, router.respond, log', completed.Keys + SetOf(wave), waves + [wave], {})
    {
      hide Collected, Answering, Collecting, SetOf, Distinct;
      ghost var respond := router.respond;
      var joinSet;
      joinSet, log' := SpawnWave(nodesMap, wave, nodes, completed.Keys, waves, earlier, log);
      completed', dropped', nodesMap' := completed, dropped, nodesMap - SetOf(wave);
      AllSpawned(nodes, respond, log', waves + [wave], completed, dropped, joinSet);
      while joinSet != map[]
        invariant completed'.Keys + joinSet.Keys == completed.Keys + SetOf(wave)
        invariant router.log == earlier + log'
        invariant Collecting(nodes, respond, log', waves + [wave], completed', dropped', joinSet)
        decreases joinSet.Keys
      {
        var id :| id in joinSet;
        CollectNext(nodes, respond, log', waves + [wave], completed', dropped', joinSet, id);
        var result := router.Join(id, joinSet[id]);
        LogAppend(earlier, log', Joined(id, result));
        log' := log' + [Joined(id, result)];
        joinSet := joinSet - {id};
        match result {
          case Some(outputs) =>
            completed' := completed'[id := outputs];
          case None =>
            dropped' := dropped' + 1;
            completed' := completed'[id := []];
        }
      }
      assert completed'.Keys == completed.Keys + SetOf(wave);
      AllCollected(nodes, respond, log', waves + [wave], completed', dropped');
    }

    /** Spawns a task for each node of the wave before any answer is taken. */
    method SpawnWave(nodesMap: Nodes, wave: seq<NodeId>, ghost nodes: Nodes, ghost done: set<NodeId>,
                     ghost waves: seq<seq<NodeId>>, ghost earlier: Log, ghost log: Log)
      returns (joinSet: map<NodeId, Job>, ghost log': Log)
      requires wave != [] && Distinct(wave) && SetOf(wave) <= nodesMap.Keys && SetOf(wave) !! done
      requires forall n | n in nodesMap :: n in nodes && nodesMap[n] == nodes[n]
      requires forall n | n in wave :: SetOf(nodes[n].dependsOn) <= done
      requires router.log == earlier + log && Answering(nodes, router.respond, log, done, waves, {})
      modifies router
      ensures joinSet.Keys == SetOf(wave) && forall n | n in joinSet :: n in nodes && joinSet[n] == nodes[n].job
      ensures router.log == earlier + log'
      ensures Answering(nodes, router.respond, log', done, waves + [wave], SetOf(wave))
    {
      hide Submitting, Answering, SetOf, Distinct;
      joinSet, log' := map[], log;
      BeginWave(nodes, router.respond, log, done, waves);
      EmptyPrefix(wave);
      for i := 0 to |wave|
        invariant joinSet.Keys == SetOf(wave[..i])
        invariant forall n | n in joinSet :: n in nodes && joinSet[n] == nodes[n].job
        invariant router.log == earlier + log'
        invariant Submitting(nodes, router.respond, log', done, waves, wave[..i])
      {
        var id := wave[i];
        PrefixNext(wave, i);
        SubmitNext(nodes, router.respond, log', done, waves, wave[..i], id);
        router.Spawn(id, nodesMap[id].job);
        LogAppend(earlier, log', Submitted(id, nodesMap[id].job));
        log' := log' + [Submitted(id, nodesMap[id].job)];
        joinSet := joinSet[id := nodesMap[id].job];
      }
      assert wave[..|wave|] == wave;
      EndWave(nodes, router.respond, log', done, waves, wave);
    }
  }

  lemma EmptyPrefix(wave: seq<NodeId>)
    ensures wave[..0] == [] && SetOf(wave[..0]) == {}
  {
  }

  lemma PrefixNext(wave: seq<NodeId>, i: nat)
    requires Distinct(wave) && i < |wave|
    ensures wave[i] in SetOf(wave) && wave[i] !in wave[..i]
    ensures wave[..i + 1] == wave[..i] + [wave[i]]
    ensures SetOf(wave[..i + 1]) == SetOf(wave[..i]) + {wave[i]}
  {
    SetOfAppend(wave[..i], [wave[i]]);
    assert SetOf([wave[i]]) == {wave[i]};
    assert wave[..i + 1] == wave[..i] + [wave[i]];
  }

  lemma LogAppend(earlier: Log, log: Log, event: Event)
    ensures (earlier + log) + [event] == earlier + (log + [event])
  {
  }

  lemma AllAnswered(nodes: Nodes, respond: Response, log: Log, done: set<NodeId>, waves: seq<seq<NodeId>>)
    requires Answering(nodes, respond, log, done, waves, {})
    ensures Orderly(nodes, respond, log) && Started(log) == Ended(log) == done && WavesOf(log) == waves
  {
  }

  /**
    A repeated edge is accepted and the graph stays acyclic, but the executor reports a cycle
    and submits nothing.
   */
  method RepeatedEdgeFails(router: Router, job: Job)
    returns (dag: JobDag, first: JobDags.Result<()>, second: JobDags.Result<()>, r: Result<DagResult>)
    modifies router
    ensures fresh(dag) && dag.Valid() && dag.nodes.Keys == {0, 1} && dag.nodes[1].dependsOn == [0, 0]
    ensures first.Ok? && second.Ok?
    ensures Acyclic(EdgesOf(dag.nodes)) && !DuplicateFree(dag.nodes)
    ensures r == Err(CycleDetected(0, 0)) && router.log == old(router.log)
  {
    hide EdgesOf, Reaches, Acyclic, IsSchedule, IsOutcome, Closed, Orderly, Started, Ended, WavesOf, DuplicateFree;
    hide WithEdge;
    dag := new JobDag();
    var a := dag.AddNode(job);
    var b := dag.AddNode(job);
    EdgeTwice(dag.nodes, job);
    first := dag.AddEdge(a, b);
    second := dag.AddEdge(a, b);
    RepeatIsRejected(dag.nodes, router.respond);
    var executor := new DagExecutor(router);
    ghost var log;
    r, log := executor.Execute(dag);
  }

  /** Between two nodes without edges the same edge can be added twice. */
  lemma EdgeTwice(nodes: Nodes, job: Job)
    requires nodes == map[0 := DagNode(job, [], None), 1 := DagNode(job, [], None)]
    ensures Acyclic(EdgesOf(nodes)) && !Reaches(EdgesOf(nodes), 1, 0)
    ensures var once := WithEdge(nodes, 0, 1);
            && once.Keys == {0, 1} && !Reaches(EdgesOf(once), 1, 0)
            && WithEdge(once, 0, 1).Keys == {0, 1} && WithEdge(once, 0, 1)[1].dependsOn == [0, 0]
            && !DuplicateFree(WithEdge(once, 0, 1))
  {
    assert EdgesOf(nodes) == {};
    NoEdgesNoCycle(EdgesOf(nodes));
    NoEdges(EdgesOf(nodes), 1, 0);
    hide Reaches, Acyclic, EdgesOf;
    AlreadyThere(nodes, 0, 1);
    var deps := WithEdge(WithEdge(nodes, 0, 1), 0, 1)[1].dependsOn;
    assert deps == [0, 0] && deps[0] == deps[1];
  }

  lemma RepeatIsRejected(nodes: Nodes, respond: Response)
    requires nodes != map[] && !DuplicateFree(nodes)
    ensures forall r :: IsOutcome(nodes, respond, r) ==> r == Err(CycleDetected(0, 0))
  {
  }

  /** A router that drops everything: the only job is dropped and the execution succeeds. */
  method DroppedJobSucceeds(job: Job) returns (dag: JobDag, r: Result<DagResult>)
    ensures fresh(dag) && dag.nodes == map[0 := DagNode(job, [], None)]
    ensures r == Ok(DagResult(map[0 := []], map[0 := []], 1, 1))
  {
    dag := new JobDag();
    var id := dag.AddNode(job);
    hide EdgesOf, Reaches, Acyclic, IsSchedule, IsOutcome, Closed, Orderly, Started, Ended, WavesOf, DuplicateFree;
    var router := new Router(_ => None);
    var executor := new DagExecutor(router);
    ghost var log;
    r, log := executor.Execute(dag);
    OnlyJobDropped(dag.nodes, router.respond, job, r);
  }

  lemma OnlyJobDropped(nodes: Nodes, respond: Response, job: Job, r: Result<DagResult>)
    requires nodes == map[0 := DagNode(job, [], None)] && respond(job) == None && IsOutcome(nodes, respond, r)
    ensures r == Ok(DagResult(map[0 := []], map[0 := []], 1, 1))
  {
    assert DroppedNodes(nodes, respond, nodes.Keys) == {0};
    assert Leaves(nodes) == {0} && nodes.Keys == {0};
    assert OutputOf(nodes, respond, 0) == [];
    assert r.value.allOutputs == map[0 := []] && r.value.leafOutputs == map[0 := []];
  }

  lemma NoEdges(E: set<(NodeId, NodeId)>, a: NodeId, b: NodeId)
    requires E == {} && a != b
    ensures !Reaches(E, a, b)
  {
    if Reaches(E, a, b) {
      ClosedUnderReach(E, {a}, a, b);
    }
  }

  /** An edge that can be added once can be added again. */
  lemma AlreadyThere(nodes: Nodes, from: NodeId, to: NodeId)
    requires to in nodes && Acyclic(EdgesOf(nodes)) && !Reaches(EdgesOf(nodes), to, from)
    ensures !Reaches(EdgesOf(WithEdge(nodes, from, to)), to, from)
  {
    var E' := EdgesOf(WithEdge(nodes, from, to));
    EdgesWithEdge(nodes, from, to);
    AcyclicAfterEdge(EdgesOf(nodes), from, to);
    if Reaches(E', to, from) {
      ReachBackCloses(E', to, from);
    }
  }
}
