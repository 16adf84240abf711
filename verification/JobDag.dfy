/**
  The job DAG: node and edge insertion with cycle detection and rollback, the depth-first
  cycle search, Kahn's topological order and the leaf set.
 */
module JobDags {
  import opened Types
  import opened Digraph

  type NodeId = nat

  datatype DagNode = DagNode(job: Job, dependsOn: seq<NodeId>, output: Option<seq<Output>>)

  type Nodes = map<NodeId, DagNode>

  /** JobDropped is declared and documented, but no code returns it. */
  datatype DagError =
    | CycleDetected(from: NodeId, to: NodeId)
    | UnknownNode(id: NodeId)
    | EmptyDag
    | JobDropped(id: NodeId)

  datatype Result<+T> = Ok(value: T) | Err(error: DagError)

  /** The edge (a, b) says that a must complete before b can start. */
  ghost function EdgesOf(nodes: Nodes): set<(NodeId, NodeId)>
  {
    set b, a | b in nodes && a in nodes[b].dependsOn :: (a, b)
  }

  ghost predicate Closed(nodes: Nodes)
  {
    forall b, a | b in nodes && a in nodes[b].dependsOn :: a in nodes
  }

  ghost predicate DuplicateFree(nodes: Nodes)
  {
    forall b | b in nodes :: Distinct(nodes[b].dependsOn)
  }

  // ---------- the depth-first cycle search ----------

  /** The nodes of B are finished: their successors are in B and no cycle passes through B. */
  ghost predicate Finished(E: set<(NodeId, NodeId)>, B: set<NodeId>)
  {
    ClosedUnder(E, B) && forall p | IsPath(E, p) && |p| > 1 && p[0] in B :: p[0] != p[|p| - 1]
  }

  lemma FinishNode(E: set<(NodeId, NodeId)>, B: set<NodeId>, n: NodeId)
    requires Finished(E, B) && n !in B
    requires forall v | (n, v) in E :: v in B
    ensures Finished(E, B + {n})
  {
    forall p | IsPath(E, p) && |p| > 1 && p[0] in B + {n}
      ensures p[0] != p[|p| - 1]
    {
      if p[0] == n {
        assert (p[0], p[1]) in E;
        StaysInside(E, B, p[1..]);
        assert p[|p| - 1] in SetOf(p[1..]);
      }
    }
  }

  method DfsHasCycle(node: NodeId, nodes: Nodes, visited: set<NodeId>, inStack: set<NodeId>)
    returns (found: bool, visited': set<NodeId>, inStack': set<NodeId>)
    requires node in nodes && node !in visited && inStack <= visited <= nodes.Keys
    requires forall s | s in inStack :: Reaches(EdgesOf(nodes), s, node)
    requires Finished(EdgesOf(nodes), visited - inStack)
    ensures found ==> !Acyclic(EdgesOf(nodes))
    ensures !found ==> visited + {node} <= visited' <= nodes.Keys && inStack' == inStack
    ensures !found ==> Finished(EdgesOf(nodes), visited' - inStack')
    decreases nodes.Keys - visited
  {
    ghost var E := EdgesOf(nodes);
    visited' := visited + {node};
    inStack' := inStack + {node};
    assert visited' - inStack' == visited - inStack;
    ReachesItself(E, node);
    var todo := nodes.Keys;
    while todo != {}
      invariant todo <= nodes.Keys
      invariant visited + {node} <= visited' <= nodes.Keys && inStack' == inStack + {node}
      invariant Finished(E, visited' - inStack')
      invariant forall v | v in nodes.Keys - todo && (node, v) in E :: v in visited' - inStack'
      decreases todo
    {
      var other :| other in todo;
      todo := todo - {other};
      if node in nodes[other].dependsOn {
        assert (node, other) in E;
        if other !in visited' {
          forall s | s in inStack'
            ensures Reaches(E, s, other)
          {
            ReachThenEdge(E, s, node, other);
          }
          var deeper;
          ghost var before := visited' - inStack';
          deeper, visited', inStack' := DfsHasCycle(other, nodes, visited', inStack');
          if deeper {
            return true, visited', inStack';
          }
          assert before <= visited' - inStack';
        } else if other in inStack' {
          ReachBackCloses(E, other, node);
          return true, visited', inStack';
        }
      }
    }
    FinishNode(E, visited' - inStack', node);
    assert visited' - inStack == (visited' - inStack') + {node};
    inStack' := inStack' - {node};
    assert inStack' == inStack;
    found := false;
  }

  // ---------- building the graph ----------

  /** The list without any copy of x, in the same order. */
  function Without(s: seq<NodeId>, x: NodeId): seq<NodeId>
  {
    if s == [] then []
    else Without(s[..|s| - 1], x) + if s[|s| - 1] == x then [] else [s[|s| - 1]]
  }

  lemma {:induction false} WithoutAbsent(s: seq<NodeId>, x: NodeId)
    requires x !in s
    ensures Without(s, x) == s
  {
    if s != [] {
      var n := |s| - 1;
      assert s == s[..n] + [s[n]];
      assert x !in s[..n] && s[n] != x;
      WithoutAbsent(s[..n], x);
    }
  }

  lemma WithoutLast(s: seq<NodeId>, x: NodeId)
    requires x !in s
    ensures Without(s + [x], x) == s
  {
    WithoutAbsent(s, x);
    assert (s + [x])[..|s|] == s;
  }

  function WithEdge(nodes: Nodes, from: NodeId, to: NodeId): Nodes
    requires to in nodes
  {
    nodes[to := nodes[to].(dependsOn := nodes[to].dependsOn + [from])]
  }

  function WithoutEdges(nodes: Nodes, from: NodeId, to: NodeId): Nodes
    requires to in nodes
  {
    nodes[to := nodes[to].(dependsOn := Without(nodes[to].dependsOn, from))]
  }

  lemma EdgesWithEdge(nodes: Nodes, from: NodeId, to: NodeId)
    requires to in nodes
    ensures EdgesOf(WithEdge(nodes, from, to)) == EdgesOf(nodes) + {(from, to)}
  {
  }

  lemma EdgesWithNode(nodes: Nodes, id: NodeId, job: Job)
    requires id !in nodes
    ensures EdgesOf(nodes[id := DagNode(job, [], None)]) == EdgesOf(nodes)
  {
  }

  lemma ClosedWithEdge(nodes: Nodes, from: NodeId, to: NodeId)
    requires Closed(nodes) && from in nodes && to in nodes
    ensures Closed(WithEdge(nodes, from, to)) && WithEdge(nodes, from, to).Keys == nodes.Keys
  {
  }

  lemma KnownEdge(nodes: Nodes, from: NodeId, to: NodeId)
    requires to in nodes && from in nodes[to].dependsOn
    ensures EdgesOf(WithEdge(nodes, from, to)) == EdgesOf(nodes)
  {
  }

  /**
    Removing every copy of the rejected edge restores the graph: the graph was acyclic
    before, so the edge cannot have been there already.
   */
  lemma RollbackRestores(nodes: Nodes, from: NodeId, to: NodeId)
    requires to in nodes && Acyclic(EdgesOf(nodes))
    requires !Acyclic(EdgesOf(WithEdge(nodes, from, to)))
    ensures WithoutEdges(WithEdge(nodes, from, to), from, to) == nodes
  {
    var d := nodes[to].dependsOn;
    assert from !in d by {
      if from in d {
        KnownEdge(nodes, from, to);
      }
    }
    WithoutLast(d, from);
    assert nodes[to].(dependsOn := d) == nodes[to];
  }

  /** Either the edge keeps the graph acyclic, or taking it back restores the graph. */
  lemma EdgeOrRollback(nodes: Nodes, from: NodeId, to: NodeId)
    requires Closed(nodes) && Acyclic(EdgesOf(nodes)) && from in nodes && to in nodes
    ensures var nodes' := WithEdge(nodes, from, to);
            && nodes'.Keys == nodes.Keys && Closed(nodes')
            && (Acyclic(EdgesOf(nodes')) <==> !Reaches(EdgesOf(nodes), to, from))
            && (!Acyclic(EdgesOf(nodes')) ==> WithoutEdges(nodes', from, to) == nodes)
  {
    hide EdgesOf, Acyclic, Reaches, Closed, WithEdge, WithoutEdges;
    EdgesWithEdge(nodes, from, to);
    AcyclicAfterEdge(EdgesOf(nodes), from, to);
    ClosedWithEdge(nodes, from, to);
    if !Acyclic(EdgesOf(WithEdge(nodes, from, to))) {
      RollbackRestores(nodes, from, to);
    }
  }

  // ---------- Kahn's algorithm ----------

  /**
    The counter Kahn's algorithm keeps for a node: the length of its list, repeats included,
    less one for each dependency already listed, repeats not included.
   */
  ghost function Pending(deps: seq<NodeId>, listed: set<NodeId>): int
  {
    |deps| - |SetOf(deps) * listed|
  }

  lemma PendingZero(deps: seq<NodeId>, listed: set<NodeId>)
    ensures Pending(deps, listed) >= 0
    ensures Pending(deps, listed) == 0 <==> Distinct(deps) && SetOf(deps) <= listed
  {
    SetOfSize(deps);
    SubsetSize(SetOf(deps) * listed, SetOf(deps));
    if SetOf(deps) <= listed {
      assert SetOf(deps) * listed == SetOf(deps);
    }
  }

  lemma PendingStep(deps: seq<NodeId>, listed: set<NodeId>, n: NodeId)
    requires n !in listed
    ensures Pending(deps, listed + {n}) == Pending(deps, listed) - if n in deps then 1 else 0
  {
    var now := SetOf(deps) * (listed + {n});
    if n in deps {
      assert now == SetOf(deps) * listed + {n};
    } else {
      assert now == SetOf(deps) * listed;
    }
  }

  lemma ListNext(nodes: Nodes, order: seq<NodeId>, n: NodeId)
    requires IsTopological(EdgesOf(nodes), order) && n !in order
    requires n in nodes && SetOf(nodes[n].dependsOn) <= SetOf(order)
    ensures IsTopological(EdgesOf(nodes), order + [n])
  {
    var order' := order + [n];
    forall i | 0 <= i < |order'|
      ensures ForwardInto(EdgesOf(nodes), order', order'[i], i)
    {
      if i < |order| {
        assert ForwardInto(EdgesOf(nodes), order, order[i], i);
        assert order'[..i] == order[..i];
      } else {
        assert order'[..i] == order;
        forall u | (u, n) in EdgesOf(nodes)
          ensures u in order
        {
          assert u in SetOf(nodes[n].dependsOn);
        }
      }
    }
  }

  /**
    The counters while `node` is being subtracted from them; the nodes of `todo` have not
    been visited yet.
   */
  ghost predicate Counted(nodes: Nodes, degree: map<NodeId, nat>,
                          listed: set<NodeId>, node: NodeId, todo: set<NodeId>)
  {
    && degree.Keys == nodes.Keys
    && forall n | n in nodes ::
         degree[n] == Pending(nodes[n].dependsOn, if n in todo then listed else listed + {node})
  }

  /** The order so far followed by the queue: exactly the nodes whose counter is zero. */
  ghost predicate Queued(nodes: Nodes, degree: map<NodeId, nat>, all: seq<NodeId>)
  {
    && degree.Keys == nodes.Keys
    && (forall n :: n in all <==> n in nodes && degree[n] == 0)
    && IsTopological(EdgesOf(nodes), all)
  }

  lemma CountStep(nodes: Nodes, degree: map<NodeId, nat>,
                  listed: set<NodeId>, node: NodeId, todo: set<NodeId>, other: NodeId)
    requires Counted(nodes, degree, listed, node, todo) && other in todo && other in nodes && node !in listed
    ensures node !in nodes[other].dependsOn ==> Counted(nodes, degree, listed, node, todo - {other})
    ensures node in nodes[other].dependsOn ==>
              degree[other] > 0 && Counted(nodes, degree[other := degree[other] - 1], listed, node, todo - {other})
    ensures node in nodes[other].dependsOn ==> degree[other] - 1 == Pending(nodes[other].dependsOn, listed + {node})
    ensures degree.Keys == nodes.Keys
  {
    PendingStep(nodes[other].dependsOn, listed, node);
    PendingZero(nodes[other].dependsOn, listed + {node});
  }

  /** The counter of a node falls to d; when d is zero the node joins the queue. */
  lemma QueueStep(nodes: Nodes, degree: map<NodeId, nat>, order: seq<NodeId>, queue: seq<NodeId>,
                  other: NodeId, d: nat)
    requires Queued(nodes, degree, order + queue) && other in nodes && degree[other] == d + 1
    requires d == Pending(nodes[other].dependsOn, SetOf(order))
    ensures Queued(nodes, degree[other := d], order + if d == 0 then queue + [other] else queue)
  {
    if d == 0 {
      assert order + (queue + [other]) == (order + queue) + [other];
      assert SetOf(nodes[other].dependsOn) <= SetOf(order + queue) by {
        PendingZero(nodes[other].dependsOn, SetOf(order));
        SetOfAppend(order, queue);
      }
      ListNext(nodes, order + queue, other);
    }
  }

  /** Kahn's algorithm leaves nodes over only because of a cycle, a repeat or an unknown node. */
  lemma LeftOver(nodes: Nodes, listed: set<NodeId>)
    requires listed < nodes.Keys && DuplicateFree(nodes) && Closed(nodes)
    requires forall n | n in nodes && n !in listed :: Pending(nodes[n].dependsOn, listed) != 0
    ensures !Acyclic(EdgesOf(nodes))
  {
    var S := nodes.Keys - listed;
    var m :| m in nodes.Keys && m !in listed;
    assert m in S;
    forall n | n in S
      ensures HasPredecessorIn(EdgesOf(nodes), S, n)
    {
      PendingZero(nodes[n].dependsOn, listed);
      var u :| u in SetOf(nodes[n].dependsOn) && u !in listed;
      assert (u, n) in EdgesOf(nodes);
    }
    NoSourceMeansCycle(EdgesOf(nodes), S);
  }

  lemma AllListed(nodes: Nodes, order: seq<NodeId>)
    requires IsTopological(EdgesOf(nodes), order) && SetOf(order) == nodes.Keys
    requires forall n | n in nodes :: Pending(nodes[n].dependsOn, SetOf(order)) == 0
    ensures Acyclic(EdgesOf(nodes)) && DuplicateFree(nodes) && Closed(nodes)
  {
    forall n | n in nodes
      ensures Distinct(nodes[n].dependsOn) && SetOf(nodes[n].dependsOn) <= nodes.Keys
    {
      PendingZero(nodes[n].dependsOn, SetOf(order));
    }
    forall b, a | b in nodes && a in nodes[b].dependsOn
      ensures a in nodes
    {
      assert a in SetOf(nodes[b].dependsOn);
    }
    forall u, v | (u, v) in EdgesOf(nodes)
      ensures v in order
    {
      assert v in SetOf(order);
    }
    TopologicalIsAcyclic(EdgesOf(nodes), order);
  }

  lemma QueueInitially(nodes: Nodes, degree: map<NodeId, nat>, queue: seq<NodeId>)
    requires degree.Keys == nodes.Keys && Distinct(queue)
    requires forall n | n in nodes :: degree[n] == |nodes[n].dependsOn|
    requires forall n :: n in queue <==> n in nodes && degree[n] == 0
    ensures Queued(nodes, degree, queue)
  {
  }

  lemma CountInitially(nodes: Nodes, degree: map<NodeId, nat>)
    requires degree.Keys == nodes.Keys && forall n | n in nodes :: degree[n] == |nodes[n].dependsOn|
    ensures Counted(nodes, degree, SetOf([]), 0, nodes.Keys)
  {
  }

  lemma QueuedBound(nodes: Nodes, degree: map<NodeId, nat>, order: seq<NodeId>, queue: seq<NodeId>)
    requires Queued(nodes, degree, order + queue)
    ensures |order| <= |nodes|
    ensures if |order| == |nodes| then SetOf(order) == nodes.Keys else SetOf(order) < nodes.Keys
  {
    forall x | x in order
      ensures x in nodes
    {
      assert x in order + queue;
    }
    assert SetOf(order) <= nodes.Keys;
    assert Distinct(order) by {
      assert order == (order + queue)[..|order|];
    }
    SetOfSize(order);
    assert |SetOf(order)| == |order| && |nodes.Keys| == |nodes|;
    SubsetSize(SetOf(order), nodes.Keys);
    assert |order| < |nodes| ==> SetOf(order) != nodes.Keys;
  }

  lemma PopFront(nodes: Nodes, degree: map<NodeId, nat>, order: seq<NodeId>, queue: seq<NodeId>)
    requires Queued(nodes, degree, order + queue) && queue != []
    ensures (order + [queue[0]]) + queue[1..] == order + queue
    ensures SetOf(order + [queue[0]]) == SetOf(order) + {queue[0]}
    ensures queue[0] !in order
  {
    var all := order + queue;
    assert all[|order|] == queue[0];
    forall i | 0 <= i < |order|
      ensures order[i] != queue[0]
    {
      assert all[i] == order[i];
    }
  }

  lemma KahnEnd(nodes: Nodes, degree: map<NodeId, nat>, order: seq<NodeId>)
    requires Counted(nodes, degree, SetOf(order), 0, nodes.Keys) && Queued(nodes, degree, order)
    ensures |order| == |nodes| <==> Acyclic(EdgesOf(nodes)) && DuplicateFree(nodes) && Closed(nodes)
    ensures |order| == |nodes| ==> SetOf(order) == nodes.Keys
  {
    assert order + [] == order;
    QueuedBound(nodes, degree, order, []);
    if |order| == |nodes| {
      forall n | n in nodes
        ensures Pending(nodes[n].dependsOn, SetOf(order)) == 0
      {
        assert n in SetOf(order);
      }
      AllListed(nodes, order);
    } else if DuplicateFree(nodes) && Closed(nodes) {
      LeftOver(nodes, SetOf(order));
    }
  }

  /** Both halves of the invariant while `node`, the last of the order, is being subtracted. */
  ghost predicate Working(nodes: Nodes, degree: map<NodeId, nat>, order: seq<NodeId>, queue: seq<NodeId>,
                          listed: set<NodeId>, node: NodeId, todo: set<NodeId>)
  {
    && Counted(nodes, degree, listed, node, todo)
    && Queued(nodes, degree, order + queue)
    && node !in listed && SetOf(order) == listed + {node}
  }

  ghost predicate Between(nodes: Nodes, degree: map<NodeId, nat>, order: seq<NodeId>, queue: seq<NodeId>) {
    Counted(nodes, degree, SetOf(order), 0, nodes.Keys) && Queued(nodes, degree, order + queue)
  }

  lemma BeginNode(nodes: Nodes, degree: map<NodeId, nat>, order: seq<NodeId>, queue: seq<NodeId>)
    requires Between(nodes, degree, order, queue) && queue != []
    ensures Working(nodes, degree, order + [queue[0]], queue[1..], SetOf(order), queue[0], nodes.Keys)
    ensures |order| < |nodes|
  {
    PopFront(nodes, degree, order, queue);
    QueuedBound(nodes, degree, order + [queue[0]], queue[1..]);
  }

  lemma VisitNode(nodes: Nodes, degree: map<NodeId, nat>, order: seq<NodeId>, queue: seq<NodeId>,
                  listed: set<NodeId>, node: NodeId, todo: set<NodeId>, other: NodeId)
    requires Working(nodes, degree, order, queue, listed, node, todo) && other in todo && other in nodes
    ensures degree.Keys == nodes.Keys
    ensures node !in nodes[other].dependsOn ==>
              Working(nodes, degree, order, queue, listed, node, todo - {other})
    ensures node in nodes[other].dependsOn ==>
              var d := SaturatingSub(degree[other], 1);
              Working(nodes, degree[other := d], order, if d == 0 then queue + [other] else queue,
                      listed, node, todo - {other})
  {
    hide Counted, Queued, Pending, SetOf;
    CountStep(nodes, degree, listed, node, todo, other);
    if node in nodes[other].dependsOn {
      var d := degree[other] - 1;
      QueueStep(nodes, degree, order, queue, other, d);
    }
  }

  lemma EndNode(nodes: Nodes, degree: map<NodeId, nat>, order: seq<NodeId>, queue: seq<NodeId>,
                listed: set<NodeId>, node: NodeId)
    requires Working(nodes, degree, order, queue, listed, node, {})
    ensures Between(nodes, degree, order, queue)
  {
  }

  lemma WorkDone(nodes: Nodes, degree: map<NodeId, nat>, order: seq<NodeId>)
    requires Between(nodes, degree, order, [])
    ensures |order| == |nodes| <==> Acyclic(EdgesOf(nodes)) && DuplicateFree(nodes) && Closed(nodes)
    ensures |order| == |nodes| ==> SetOf(order) == nodes.Keys
    ensures IsTopological(EdgesOf(nodes), order)
  {
    assert order + [] == order;
    KahnEnd(nodes, degree, order);
  }

  /** The nodes that no node depends on. */
  ghost function Leaves(nodes: Nodes): set<NodeId>
  {
    set n | n in nodes && forall b | b in nodes :: n !in nodes[b].dependsOn
  }

  class JobDag {
    var nodes: Nodes
    var nextId: nat

    ghost predicate Valid()
      reads this
    {
      && (forall id: nat :: id in nodes <==> id < nextId)
      && Closed(nodes)
      && Acyclic(EdgesOf(nodes))
    }

    constructor ()
      ensures Valid() && nodes == map[] && nextId == 0
    {
      nodes := map[];
      nextId := 0;
      new;
      NoEdgesNoCycle(EdgesOf(nodes));
    }

    method AddNode(job: Job) returns (id: NodeId)
      requires Valid()
      modifies this
      ensures Valid()
      ensures id !in old(nodes) && id == old(nextId) && nextId == id + 1
      ensures nodes == old(nodes)[id := DagNode(job, [], None)]
    {
      id := nextId;
      nextId := nextId + 1;
      nodes := nodes[id := DagNode(job, [], None)];
      assert EdgesOf(nodes) == EdgesOf(old(nodes));
    }

    method AddEdge(from: NodeId, to: NodeId) returns (r: Result<()>)
      requires Valid()
      modifies this`nodes
      ensures Valid()
      ensures r.Ok? <==> from in old(nodes) && to in old(nodes) && !Reaches(EdgesOf(old(nodes)), to, from)
      ensures r.Ok? ==> nodes == WithEdge(old(nodes), from, to)
      ensures r.Err? ==> nodes == old(nodes)
      ensures r == Err(CycleDetected(from, to)) <==>
              from in old(nodes) && to in old(nodes) && Reaches(EdgesOf(old(nodes)), to, from)
      ensures from !in old(nodes) ==> r == Err(UnknownNode(from))
      ensures from in old(nodes) && to !in old(nodes) ==> r == Err(UnknownNode(to))
    {
      if from !in nodes {
        return Err(UnknownNode(from));
      }
      if to !in nodes {
        return Err(UnknownNode(to));
      }
      EdgeOrRollback(nodes, from, to);
      hide EdgesOf, Acyclic, Reaches, Closed, WithEdge, WithoutEdges;
      nodes := WithEdge(nodes, from, to);
      var cyclic := HasCycle();
      if cyclic {
        nodes := WithoutEdges(nodes, from, to);
        return Err(CycleDetected(from, to));
      }
      return Ok(());
    }

    method HasCycle() returns (found: bool)
      ensures found <==> !Acyclic(EdgesOf(nodes))
    {
      ghost var E := EdgesOf(nodes);
      var visited: set<NodeId>, inStack: set<NodeId> := {}, {};
      var todo := nodes.Keys;
      while todo != {}
        invariant todo <= nodes.Keys && inStack == {} && nodes.Keys - todo <= visited <= nodes.Keys
        invariant Finished(E, visited)
        decreases todo
      {
        var start :| start in todo;
        todo := todo - {start};
        if start !in visited {
          assert visited - inStack == visited;
          found, visited, inStack := DfsHasCycle(start, nodes, visited, inStack);
          if found {
            return;
          }
          assert visited - inStack == visited;
        }
      }
      found := false;
      forall p | IsPath(E, p) && |p| > 1
        ensures p[0] != p[|p| - 1]
      {
        assert (p[|p| - 2], p[|p| - 1]) in E;
      }
    }

    /**
      Duplicates count in the initial degree but a predecessor is subtracted once, so a
      repeated edge makes this fail on an acyclic graph.
     */
    method TopologicalOrder() returns (r: Option<seq<NodeId>>)
      ensures r.Some? <==> Acyclic(EdgesOf(nodes)) && DuplicateFree(nodes) && Closed(nodes)
      ensures r.Some? ==> IsTopological(EdgesOf(nodes), r.value) && SetOf(r.value) == nodes.Keys
    {
      ghost var E := EdgesOf(nodes);
      var inDegree: map<NodeId, nat> := map n | n in nodes :: |nodes[n].dependsOn|;
      var queue: seq<NodeId> := [];
      var todo := nodes.Keys;
      while todo != {}
        invariant todo <= nodes.Keys && Distinct(queue)
        invariant forall n :: n in queue <==> n in nodes.Keys - todo && inDegree[n] == 0
        decreases todo
      {
        var n :| n in todo;
        todo := todo - {n};
        if inDegree[n] == 0 {
          queue := queue + [n];
        }
      }
      QueueInitially(nodes, inDegree, queue);
      var order: seq<NodeId> := [];
      assert order + queue == queue;
      CountInitially(nodes, inDegree);
      hide EdgesOf, IsTopological, Acyclic, DuplicateFree, Closed, Counted, Queued, Distinct;
      assert Between(nodes, inDegree, order, queue);
      hide Between, Working;
      while queue != []
        invariant Between(nodes, inDegree, order, queue)
        decreases |nodes| - |order|
      {
        BeginNode(nodes, inDegree, order, queue);
        var node := queue[0];
        ghost var listed := SetOf(order);
        queue := queue[1..];
        order := order + [node];
        todo := nodes.Keys;
        while todo != {}
          invariant todo <= nodes.Keys
          invariant Working(nodes, inDegree, order, queue, listed, node, todo)
          decreases todo
        {
          var other :| other in todo;
          VisitNode(nodes, inDegree, order, queue, listed, node, todo, other);
          todo := todo - {other};
          if node in nodes[other].dependsOn {
            var d := SaturatingSub(inDegree[other], 1);
            inDegree := inDegree[other := d];
            if d == 0 {
              queue := queue + [other];
            }
          }
        }
        EndNode(nodes, inDegree, order, queue, listed, node);
      }
      WorkDone(nodes, inDegree, order);
      r := if |order| == |nodes| then Some(order) else None;
    }

    method LeafNodes() returns (leaves: set<NodeId>)
      ensures leaves == Leaves(nodes)
    {
      var nonLeaves := set b, a | b in nodes && a in nodes[b].dependsOn :: a;
      leaves := set n | n in nodes && n !in nonLeaves;
    }
  }

  // ---------- whole runs ----------

  datatype BuildStep = Node(job: Job) | Edge(from: NodeId, to: NodeId)

  ghost function AcceptedEdges(steps: seq<BuildStep>, accepted: seq<bool>): set<(NodeId, NodeId)>
    requires |steps| == |accepted|
  {
    set i | 0 <= i < |steps| && steps[i].Edge? && accepted[i] :: (steps[i].from, steps[i].to)
  }

  /** The nodes inserted so far; their ids count up from zero. */
  function NodeCount(steps: seq<BuildStep>): nat
  {
    if steps == [] then 0
    else NodeCount(steps[..|steps| - 1]) + if steps[|steps| - 1].Node? then 1 else 0
  }

  /** Whether a step may be accepted after the earlier ones. */
  ghost predicate Admissible(steps: seq<BuildStep>, accepted: seq<bool>, step: BuildStep)
    requires |steps| == |accepted|
  {
    match step
    case Node(_) => true
    case Edge(from, to) =>
      from < NodeCount(steps) && to < NodeCount(steps) && !Reaches(AcceptedEdges(steps, accepted), to, from)
  }

  /** Every insertion is judged by the nodes and the accepted edges before it. */
  ghost predicate RightlyAccepted(steps: seq<BuildStep>, accepted: seq<bool>)
  {
    && |steps| == |accepted|
    && forall i | 0 <= i < |steps| :: accepted[i] <==> Admissible(steps[..i], accepted[..i], steps[i])
  }

  /** The graph that the accepted steps describe. */
  ghost function GraphAfter(steps: seq<BuildStep>, accepted: seq<bool>): Nodes
    requires |steps| == |accepted|
  {
    if steps == [] then map[]
    else
      var n := |steps| - 1;
      var before := GraphAfter(steps[..n], accepted[..n]);
      match steps[n]
      case Node(job) => before[NodeCount(steps[..n]) := DagNode(job, [], None)]
      case Edge(from, to) => if accepted[n] && to in before then WithEdge(before, from, to) else before
  }

  lemma RightlyAcceptedBefore(steps: seq<BuildStep>, accepted: seq<bool>, n: nat)
    requires RightlyAccepted(steps, accepted) && n <= |steps|
    ensures RightlyAccepted(steps[..n], accepted[..n])
  {
    hide Admissible;
    assert forall i | 0 <= i < n :: steps[..n][..i] == steps[..i] && accepted[..n][..i] == accepted[..i];
  }

  lemma LastAccepted(steps: seq<BuildStep>, accepted: seq<bool>, n: nat)
    requires RightlyAccepted(steps, accepted) && |steps| == n + 1
    ensures RightlyAccepted(steps[..n], accepted[..n])
    ensures accepted[n] <==> Admissible(steps[..n], accepted[..n], steps[n])
    ensures AcceptedEdges(steps, accepted) ==
            AcceptedEdges(steps[..n], accepted[..n]) +
            if steps[n].Edge? && accepted[n] then {(steps[n].from, steps[n].to)} else {}
  {
    RightlyAcceptedBefore(steps, accepted, n);
    hide Admissible;
    NextAccepted(steps, accepted[..n], n, accepted[n]);
    assert steps[..n + 1] == steps && accepted[..n] + [accepted[n]] == accepted;
  }

  lemma {:induction false} AcceptanceIsUnique(steps: seq<BuildStep>, a: seq<bool>, b: seq<bool>)
    requires RightlyAccepted(steps, a) && RightlyAccepted(steps, b)
    ensures a == b
  {
    if steps != [] {
      var n := |steps| - 1;
      LastAccepted(steps, a, n);
      LastAccepted(steps, b, n);
      hide RightlyAccepted, Admissible;
      AcceptanceIsUnique(steps[..n], a[..n], b[..n]);
      assert a == a[..n] + [a[n]] && b == b[..n] + [b[n]];
    }
  }

  /** Whatever is asked for, the accepted edges never form a cycle. */
  lemma {:induction false} AcceptedIsAcyclic(steps: seq<BuildStep>, accepted: seq<bool>)
    requires RightlyAccepted(steps, accepted)
    ensures Acyclic(AcceptedEdges(steps, accepted))
  {
    if steps == [] {
      NoEdgesNoCycle(AcceptedEdges(steps, accepted));
    } else {
      var n := |steps| - 1;
      LastAccepted(steps, accepted, n);
      AcceptedIsAcyclic(steps[..n], accepted[..n]);
      hide AcceptedEdges, Reaches, Acyclic, RightlyAccepted;
      if steps[n].Edge? {
        AcyclicAfterEdge(AcceptedEdges(steps[..n], accepted[..n]), steps[n].from, steps[n].to);
      }
    }
  }

  lemma NoEdgesNoCycle(E: set<(NodeId, NodeId)>)
    requires E == {}
    ensures Acyclic(E)
  {
    assert forall p: seq<NodeId> | IsPath(E, p) && |p| > 1 :: (p[0], p[1]) in E;
  }

  /**
    Any sequence of insertions builds the graph of the rightly accepted ones: exactly their
    edges, no cycle, and a rejected insertion leaves no trace.
   */
  method Build(steps: seq<BuildStep>) returns (dag: JobDag, accepted: seq<bool>)
    ensures fresh(dag) && dag.Valid() && RightlyAccepted(steps, accepted)
    ensures dag.nodes == GraphAfter(steps, accepted) && dag.nextId == NodeCount(steps)
    ensures EdgesOf(dag.nodes) == AcceptedEdges(steps, accepted)
  {
    dag := new JobDag();
    accepted := [];
    assert steps[..0] == [];
    for i := 0 to |steps|
      invariant fresh(dag) && dag.Valid() && RightlyAccepted(steps[..i], accepted)
      invariant dag.nodes == GraphAfter(steps[..i], accepted) && dag.nextId == NodeCount(steps[..i])
      invariant EdgesOf(dag.nodes) == AcceptedEdges(steps[..i], accepted)
    {
      hide EdgesOf, Acyclic, Closed, Reaches, GraphAfter, NodeCount, AcceptedEdges, WithEdge, RightlyAccepted;
      ghost var before := dag.nodes;
      var ok := true;
      match steps[i] {
        case Node(job) =>
          var id := dag.AddNode(job);
          EdgesWithNode(before, id, job);
        case Edge(from, to) =>
          var r := dag.AddEdge(from, to);
          ok := r.Ok?;
          if ok {
            EdgesWithEdge(before, from, to);
          }
      }
      BuiltNext(steps, accepted, i, ok);
      accepted := accepted + [ok];
    }
    assert steps[..|steps|] == steps;
  }

  lemma BuiltNext(steps: seq<BuildStep>, accepted: seq<bool>, i: nat, ok: bool)
    requires i == |accepted| < |steps| && RightlyAccepted(steps[..i], accepted)
    requires ok <==> Admissible(steps[..i], accepted, steps[i])
    ensures RightlyAccepted(steps[..i + 1], accepted + [ok])
    ensures NodeCount(steps[..i + 1]) == NodeCount(steps[..i]) + if steps[i].Node? then 1 else 0
    ensures GraphAfter(steps[..i + 1], accepted + [ok]) ==
            var before := GraphAfter(steps[..i], accepted);
            match steps[i]
            case Node(job) => before[NodeCount(steps[..i]) := DagNode(job, [], None)]
            case Edge(from, to) => if ok && to in before then WithEdge(before, from, to) else before
    ensures AcceptedEdges(steps[..i + 1], accepted + [ok]) ==
            AcceptedEdges(steps[..i], accepted) +
            if steps[i].Edge? && ok then {(steps[i].from, steps[i].to)} else {}
  {
    RightNext(steps, accepted, i, ok);
    NextAccepted(steps, accepted, i, ok);
    hide Admissible, AcceptedEdges, RightlyAccepted;
    assert steps[..i + 1][..i] == steps[..i] && (accepted + [ok])[..i] == accepted;
  }

  lemma RightNext(steps: seq<BuildStep>, accepted: seq<bool>, i: nat, ok: bool)
    requires i == |accepted| < |steps| && RightlyAccepted(steps[..i], accepted)
    requires ok <==> Admissible(steps[..i], accepted, steps[i])
    ensures RightlyAccepted(steps[..i + 1], accepted + [ok])
  {
    hide Admissible;
    var steps', accepted' := steps[..i + 1], accepted + [ok];
    forall k | 0 <= k < |steps'|
      ensures accepted'[k] <==> Admissible(steps'[..k], accepted'[..k], steps'[k])
    {
      assert accepted'[..k] == accepted[..k];
      if k < i {
        assert accepted[k] <==> Admissible(steps[..i][..k], accepted[..k], steps[..i][k]);
        assert steps'[..k] == steps[..i][..k];
      } else {
        assert steps'[..k] == steps[..i] && accepted[..k] == accepted;
      }
    }
  }

  lemma NextAccepted(steps: seq<BuildStep>, accepted: seq<bool>, i: nat, ok: bool)
    requires i == |accepted| < |steps|
    ensures AcceptedEdges(steps[..i + 1], accepted + [ok]) ==
            AcceptedEdges(steps[..i], accepted) +
            if steps[i].Edge? && ok then {(steps[i].from, steps[i].to)} else {}
  {
  }
}
