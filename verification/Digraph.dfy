/**
  Paths, reachability and cycles of a finite directed graph given as its set of edges.
  The job DAG and the service dependency graph are both read as such a graph.
 */
module Digraph {

  ghost predicate IsPath<V>(E: set<(V, V)>, p: seq<V>)
  {
    |p| > 0 && forall i, j | 0 <= i && j == i + 1 && j < |p| :: (p[i], p[j]) in E
  }

  ghost predicate IsPathFromTo<V>(E: set<(V, V)>, p: seq<V>, a: V, b: V)
  {
    IsPath(E, p) && p[0] == a && p[|p| - 1] == b
  }

  ghost predicate Reaches<V(!new)>(E: set<(V, V)>, a: V, b: V)
  {
    exists p :: IsPathFromTo(E, p, a, b)
  }

  ghost predicate Acyclic<V(!new)>(E: set<(V, V)>)
  {
    forall p :: IsPath(E, p) && |p| > 1 ==> p[0] != p[|p| - 1]
  }

  ghost predicate Distinct<V>(p: seq<V>)
  {
    forall i, j | 0 <= i < j < |p| :: p[i] != p[j]
  }

  function SetOf<V>(p: seq<V>): set<V>
  {
    set x | x in p
  }

  /** The nodes of S have all their successors in S. */
  ghost predicate ClosedUnder<V(!new)>(E: set<(V, V)>, S: set<V>)
  {
    forall u, v :: (u, v) in E && u in S ==> v in S
  }

  // ---------- finite sequences as sets ----------

  lemma SetOfAppend<V>(p: seq<V>, q: seq<V>)
    ensures SetOf(p + q) == SetOf(p) + SetOf(q)
  {
  }

  lemma {:induction false} SetOfSize<V>(p: seq<V>)
    ensures |SetOf(p)| <= |p|
    ensures |SetOf(p)| == |p| <==> Distinct(p)
  {
    if p != [] {
      var n := |p| - 1;
      SetOfSize(p[..n]);
      assert p == p[..n] + [p[n]];
      assert SetOf(p) == SetOf(p[..n]) + {p[n]};
    }
  }

  lemma SubsetSize<V>(s: set<V>, t: set<V>)
    requires s <= t
    ensures |s| <= |t|
    ensures |s| == |t| ==> s == t
  {
    assert t == s + (t - s);
  }

  lemma Repeats<V>(p: seq<V>, S: set<V>) returns (i: nat, j: nat)
    requires SetOf(p) <= S && |p| > |S|
    ensures i < j < |p| && p[i] == p[j]
  {
    SetOfSize(p);
    SubsetSize(SetOf(p), S);
    assert !Distinct(p);
    i, j :| i < j < |p| && p[i] == p[j];
  }

  // ---------- paths ----------

  lemma Join<V>(E: set<(V, V)>, p: seq<V>, q: seq<V>)
    requires IsPath(E, p) && IsPath(E, q) && (p[|p| - 1], q[0]) in E
    ensures IsPath(E, p + q)
  {
  }

  lemma EdgeThenReach<V(!new)>(E: set<(V, V)>, a: V, b: V, c: V)
    requires (a, b) in E && Reaches(E, b, c)
    ensures Reaches(E, a, c)
  {
    var p :| IsPathFromTo(E, p, b, c);
    Join(E, [a], p);
    assert IsPathFromTo(E, [a] + p, a, c);
  }

  lemma ReachThenEdge<V(!new)>(E: set<(V, V)>, a: V, b: V, c: V)
    requires Reaches(E, a, b) && (b, c) in E
    ensures Reaches(E, a, c)
  {
    var p :| IsPathFromTo(E, p, a, b);
    Join(E, p, [c]);
    assert IsPathFromTo(E, p + [c], a, c);
  }

  lemma ReachTransitive<V(!new)>(E: set<(V, V)>, a: V, b: V, c: V)
    requires Reaches(E, a, b) && Reaches(E, b, c)
    ensures Reaches(E, a, c)
  {
    var p :| IsPathFromTo(E, p, a, b);
    var q :| IsPathFromTo(E, q, b, c);
    if |q| > 1 {
      Join(E, p, q[1..]);
      assert IsPathFromTo(E, p + q[1..], a, c);
    }
  }

  lemma ReachesItself<V(!new)>(E: set<(V, V)>, a: V)
    ensures Reaches(E, a, a)
  {
    assert IsPathFromTo(E, [a], a, a);
  }

  lemma ReachBackCloses<V(!new)>(E: set<(V, V)>, a: V, b: V)
    requires Reaches(E, a, b) && (b, a) in E
    ensures !Acyclic(E)
  {
    var p :| IsPathFromTo(E, p, a, b);
    Join(E, p, [a]);
    assert IsPath(E, p + [a]) && |p + [a]| > 1;
  }

  lemma {:induction false} StaysInside<V(!new)>(E: set<(V, V)>, S: set<V>, p: seq<V>)
    requires ClosedUnder(E, S) && IsPath(E, p) && p[0] in S
    ensures SetOf(p) <= S
  {
    if |p| > 1 {
      var n := |p| - 1;
      StaysInside(E, S, p[..n]);
      assert p[n - 1] in SetOf(p[..n]) && (p[n - 1], p[n]) in E;
      assert p == p[..n] + [p[n]];
    }
  }

  lemma {:induction false} ClosedUnderReach<V(!new)>(E: set<(V, V)>, S: set<V>, a: V, b: V)
    requires ClosedUnder(E, S) && Reaches(E, a, b) && a in S
    ensures b in S
  {
    var p :| IsPathFromTo(E, p, a, b);
    StaysInside(E, S, p);
    assert b in SetOf(p);
  }

  // ---------- exploring backwards ----------

  ghost predicate ReachesSome<V(!new)>(E: set<(V, V)>, a: V, S: set<V>)
  {
    exists b :: b in S && Reaches(E, a, b)
  }

  /**
    A backward search from `start`: everything visited reaches the start, and the sources of
    the edges into a visited node are visited unless the node is still pending.
   */
  ghost predicate Exploring<V(!new)>(E: set<(V, V)>, start: set<V>, visited: set<V>, pending: set<V>)
  {
    && start <= visited
    && (forall v | v in visited :: ReachesSome(E, v, start))
    && forall u, v :: (u, v) in E && v in visited && v !in pending ==> u in visited
  }

  lemma ExploreFrom<V(!new)>(E: set<(V, V)>, start: set<V>)
    ensures Exploring(E, start, start, start)
  {
    forall v | v in start
      ensures ReachesSome(E, v, start)
    {
      ReachesItself(E, v);
    }
  }

  lemma Visit<V(!new)>(E: set<(V, V)>, start: set<V>, visited: set<V>, pending: set<V>, u: V, v: V)
    requires Exploring(E, start, visited, pending) && (u, v) in E && v in visited
    ensures Exploring(E, start, visited + {u}, pending + {u})
  {
    assert ReachesSome(E, v, start);
    var b :| b in start && Reaches(E, v, b);
    EdgeThenReach(E, u, v, b);
  }

  lemma Push<V(!new)>(E: set<(V, V)>, start: set<V>, visited: set<V>, work: seq<V>, current: V, u: V)
    requires Exploring(E, start, visited, SetOf(work) + {current}) && SetOf(work) + {current} <= visited
    requires (u, current) in E
    ensures Exploring(E, start, visited + {u}, SetOf(work + [u]) + {current})
    ensures SetOf(work + [u]) + {current} <= visited + {u}
  {
    Visit(E, start, visited, SetOf(work) + {current}, u, current);
    SetOfAppend(work, [u]);
    assert SetOf(work) + {current} + {u} == SetOf(work + [u]) + {current};
  }

  lemma Pop<V(!new)>(E: set<(V, V)>, start: set<V>, visited: set<V>, work: seq<V>, work': seq<V>, current: V)
    requires Exploring(E, start, visited, SetOf(work)) && SetOf(work) <= visited
    requires work == work' + [current] || work == [current] + work'
    ensures Exploring(E, start, visited, SetOf(work') + {current}) && SetOf(work') + {current} <= visited
  {
  }

  lemma Expanded<V(!new)>(E: set<(V, V)>, start: set<V>, visited: set<V>, pending: set<V>, v: V)
    requires Exploring(E, start, visited, pending + {v})
    requires forall u | (u, v) in E :: u in visited
    ensures Exploring(E, start, visited, pending)
  {
  }

  lemma {:induction false} BackInto<V(!new)>(E: set<(V, V)>, start: set<V>, visited: set<V>, p: seq<V>)
    requires Exploring(E, start, visited, {}) && IsPath(E, p) && p[|p| - 1] in visited
    ensures p[0] in visited
  {
    if |p| > 1 {
      assert (p[0], p[1]) in E;
      BackInto(E, start, visited, p[1..]);
    }
  }

  lemma ExploredAll<V(!new)>(E: set<(V, V)>, start: set<V>, visited: set<V>)
    requires Exploring(E, start, visited, {})
    ensures forall v :: v in visited <==> ReachesSome(E, v, start)
  {
    forall v | ReachesSome(E, v, start)
      ensures v in visited
    {
      var b :| b in start && Reaches(E, v, b);
      var p :| IsPathFromTo(E, p, v, b);
      BackInto(E, start, visited, p);
    }
  }

  // ---------- adding one edge ----------

  lemma UsesNewEdge<V>(E: set<(V, V)>, a: V, b: V, p: seq<V>) returns (i: nat)
    requires IsPath(E + {(a, b)}, p) && !IsPath(E, p)
    ensures 0 < i < |p| && p[i - 1] == a && p[i] == b
  {
    var k, j :| 0 <= k && j == k + 1 && j < |p| && (p[k], p[j]) !in E;
    i := j;
  }

  /** A path of the enlarged graph from the new edge's head to its tail needs no new edge. */
  lemma {:induction false} NewEdgeNotNeeded<V(!new)>(E: set<(V, V)>, a: V, b: V, p: seq<V>)
    requires IsPathFromTo(E + {(a, b)}, p, b, a)
    ensures Reaches(E, b, a)
    decreases |p|
  {
    if IsPath(E, p) {
      assert IsPathFromTo(E, p, b, a);
    } else {
      var i := UsesNewEdge(E, a, b, p);
      NewEdgeNotNeeded(E, a, b, p[..i]);
    }
  }

  /** One more edge keeps a graph acyclic exactly when its head did not reach its tail. */
  lemma {:induction false} AcyclicAfterEdge<V(!new)>(E: set<(V, V)>, a: V, b: V)
    requires Acyclic(E)
    ensures Acyclic(E + {(a, b)}) <==> !Reaches(E, b, a)
  {
    var E' := E + {(a, b)};
    if Reaches(E, b, a) {
      var p :| IsPathFromTo(E, p, b, a);
      assert IsPathFromTo(E', p, b, a);
      ReachBackCloses(E', b, a);
    }
    if !Acyclic(E') {
      var p :| IsPath(E', p) && |p| > 1 && p[0] == p[|p| - 1];
      var i := UsesNewEdge(E, a, b, p);
      // Start the cycle at the new edge's head instead.
      var q := p[i..] + p[1..i];
      assert IsPathFromTo(E', q, b, a);
      NewEdgeNotNeeded(E, a, b, q);
    }
  }

  // ---------- orders and sources ----------

  /** Every edge goes forward in `order`, from a node that `order` lists. */
  ghost predicate ForwardInto<V(!new)>(E: set<(V, V)>, order: seq<V>, v: V, n: nat)
    requires n <= |order|
  {
    forall u | (u, v) in E :: u in order[..n]
  }

  /** `order` lists each node once and after every node with an edge into it. */
  ghost predicate IsTopological<V(!new)>(E: set<(V, V)>, order: seq<V>)
  {
    Distinct(order) && forall k {:trigger ForwardInto(E, order, order[k], k)} | 0 <= k < |order| ::
      ForwardInto(E, order, order[k], k)
  }

  lemma {:induction false} TopologicalPathRises<V(!new)>(E: set<(V, V)>, order: seq<V>, p: seq<V>, k: nat)
    requires IsTopological(E, order) && IsPath(E, p) && k < |order| && p[|p| - 1] == order[k]
    ensures SetOf(p) <= SetOf(order[..k + 1])
    ensures Distinct(p)
  {
    var n := |p| - 1;
    if n > 0 {
      assert (p[n - 1], p[n]) in E;
      assert ForwardInto(E, order, order[k], k);
      var m :| 0 <= m < k && order[m] == p[n - 1];
      TopologicalPathRises(E, order, p[..n], m);
      assert SetOf(order[..m + 1]) <= SetOf(order[..k]);
      assert p[n] !in order[..k];
      forall i | 0 <= i < n
        ensures p[i] in order[..k] && p[i] != p[n]
      {
        assert p[i] in SetOf(p[..n]);
      }
    }
    assert p[n] in order[..k + 1];
    forall i | 0 <= i < |p|
      ensures p[i] in order[..k + 1]
    {
      if i < n {
        assert p[i] in SetOf(order[..k]);
      }
    }
  }

  lemma TopologicalIsAcyclic<V(!new)>(E: set<(V, V)>, order: seq<V>)
    requires IsTopological(E, order)
    requires forall u, v | (u, v) in E :: v in order
    ensures Acyclic(E)
  {
    forall p | IsPath(E, p) && |p| > 1
      ensures p[0] != p[|p| - 1]
    {
      assert (p[|p| - 2], p[|p| - 1]) in E;
      var k :| 0 <= k < |order| && order[k] == p[|p| - 1];
      TopologicalPathRises(E, order, p, k);
    }
  }

  ghost predicate HasPredecessorIn<V(!new)>(E: set<(V, V)>, S: set<V>, v: V)
  {
    exists u :: u in S && (u, v) in E
  }

  ghost predicate NoSource<V(!new)>(E: set<(V, V)>, S: set<V>)
  {
    forall v | v in S :: HasPredecessorIn(E, S, v)
  }

  /** Walk backwards n steps inside a set in which every node has a predecessor. */
  lemma {:induction false} WalkBack<V(!new)>(E: set<(V, V)>, S: set<V>, v: V, n: nat) returns (p: seq<V>)
    requires v in S && NoSource(E, S)
    ensures IsPath(E, p) && |p| == n + 1 && SetOf(p) <= S && p[n] == v
  {
    if n == 0 {
      p := [v];
    } else {
      assert HasPredecessorIn(E, S, v);
      var u :| u in S && (u, v) in E;
      var q := WalkBack(E, S, u, n - 1);
      Join(E, q, [v]);
      p := q + [v];
      SetOfAppend(q, [v]);
    }
  }

  /** A nonempty finite set without a source contains a cycle. */
  lemma NoSourceMeansCycle<V(!new)>(E: set<(V, V)>, S: set<V>)
    requires S != {} && NoSource(E, S)
    ensures !Acyclic(E)
  {
    var v :| v in S;
    var p := WalkBack(E, S, v, |S|);
    var i, j := Repeats(p, S);
    RepeatCloses(E, p, i, j);
  }

  lemma RepeatCloses<V(!new)>(E: set<(V, V)>, p: seq<V>, i: nat, j: nat)
    requires IsPath(E, p) && i < j < |p| && p[i] == p[j]
    ensures !Acyclic(E)
  {
    var c := p[i..j + 1];
    assert IsPath(E, c) && |c| > 1 && c[0] == c[|c| - 1];
  }
}
