/** The service graph: nodes with health, typed edges, and failure propagation. */
module DependencyGraphs {
  import opened Types
  import opened Digraph
  import opened Services
  import opened ServiceOrder
  import Lexicographic

  ghost function FailedIds(nodes: Nodes): set<Id> {
    set id | id in nodes && nodes[id].health.Failed?
  }

  /** Not failed itself, but hard-dependent through some chain on a failed service. */
  ghost predicate Impacted(nodes: Nodes, adjacency: Adjacency, id: Id) {
    id !in FailedIds(nodes) && ReachesSome(EdgesOf(adjacency, true), id, FailedIds(nodes))
  }

  function MarkAll(nodes: Nodes, ids: set<Id>): Nodes {
    map id | id in nodes :: if id in ids then nodes[id].(health := Failed("propagated failure")) else nodes[id]
  }

  /** Impact in plain terms: not marked failed, and a chain of hard edges leads to what is. */
  lemma ImpactMeaning(nodes: Nodes, adjacency: Adjacency, id: Id)
    ensures Impacted(nodes, adjacency, id) <==>
            && !(id in nodes && nodes[id].health.Failed?)
            && exists f, p :: f in nodes && nodes[f].health.Failed? && IsPathFromTo(EdgesOf(adjacency, true), p, id, f)
  {
    if Impacted(nodes, adjacency, id) {
      var f :| f in FailedIds(nodes) && Reaches(EdgesOf(adjacency, true), id, f);
      var p :| IsPathFromTo(EdgesOf(adjacency, true), p, id, f);
    }
    if f, p :| f in nodes && nodes[f].health.Failed? && IsPathFromTo(EdgesOf(adjacency, true), p, id, f) {
      assert f in FailedIds(nodes) && Reaches(EdgesOf(adjacency, true), id, f);
    }
  }

  lemma MarkedOnce(nodes: Nodes, ids: set<Id>, unknown: set<Id>)
    requires unknown !! nodes.Keys
    ensures MarkAll(MarkAll(nodes, ids), unknown) == MarkAll(nodes, ids)
  {
  }

  /** The other services from which `id` can be reached through edges of any type. */
  ghost function Dependents(adjacency: Adjacency, id: Id): set<Id> {
    set v | v in Sources(EdgesOf(adjacency, false)) && v != id && Reaches(EdgesOf(adjacency, false), v, id)
  }

  lemma DependentsAreReaching(adjacency: Adjacency, id: Id)
    ensures forall v :: v in Dependents(adjacency, id) <==>
                        v != id && ReachesSome(EdgesOf(adjacency, false), v, {id})
  {
    var E := EdgesOf(adjacency, false);
    forall v | v != id && ReachesSome(E, v, {id})
      ensures v in Sources(E) && Reaches(E, v, id)
    {
      var p :| IsPathFromTo(E, p, v, id);
      assert (p[0], p[1]) in E;
    }
    forall v | v in Dependents(adjacency, id)
      ensures ReachesSome(E, v, {id})
    {
      assert id in {id} && Reaches(E, v, id);
    }
  }

  /** The reverse adjacency: for each target, the services with an edge to it. */
  ghost predicate IsReverse(E: set<(Id, Id)>, reverse: map<Id, seq<Id>>) {
    forall u, v :: (u, v) in E <==> v in reverse && u in reverse[v]
  }

  /**
    Propagating twice: the second call returns exactly the ids that the first returned
    without being able to mark them, because they are not registered.
   */
  lemma PropagateAgain(nodes: Nodes, adjacency: Adjacency, ids: set<Id>)
    requires forall id :: id in ids <==> Impacted(nodes, adjacency, id)
    ensures forall id :: Impacted(MarkAll(nodes, ids), adjacency, id) <==> id in ids && id !in nodes
  {
    var E := EdgesOf(adjacency, true);
    var F, F' := FailedIds(nodes), FailedIds(MarkAll(nodes, ids));
    assert F' == F + (ids * nodes.Keys);
    forall id
      ensures ReachesSome(E, id, F') <==> ReachesSome(E, id, F)
    {
      if ReachesSome(E, id, F') {
        var b :| b in F' && Reaches(E, id, b);
        if b !in F {
          assert ReachesSome(E, b, F);
          var c :| c in F && Reaches(E, b, c);
          ReachTransitive(E, id, b, c);
        }
      }
      if ReachesSome(E, id, F) {
        var b :| b in F && Reaches(E, id, b);
        assert b in F';
      }
    }
    forall id
      ensures Impacted(MarkAll(nodes, ids), adjacency, id) <==> id in ids && id !in nodes
    {
      if id in ids {
        assert ReachesSome(E, id, F);
      }
      ReachesItself(E, id);
    }
  }

  lemma AddedEdge(before: Adjacency, after: Adjacency, e: DependencyEdge, hardOnly: bool)
    requires after == before[e.from := (if e.from in before then before[e.from] else []) + [e]]
    ensures EdgesOf(after, hardOnly) == EdgesOf(before, hardOnly) + if Counts(e, hardOnly) then {(e.from, e.to)} else {}
  {
    forall f, x | f in before && x in before[f]
      ensures f in after && x in after[f]
    {
    }
    forall p
      ensures p in EdgesOf(after, hardOnly) <==>
              p in EdgesOf(before, hardOnly) || (Counts(e, hardOnly) && p == (e.from, e.to))
    {
      if p in EdgesOf(before, hardOnly) {
        var f, x :| f in before && x in before[f] && Counts(x, hardOnly) && p == (f, x.to);
        assert f in after && x in after[f];
      }
      if Counts(e, hardOnly) && p == (e.from, e.to) {
        assert e.from in after && e in after[e.from];
      }
    }
  }

  lemma SortKeeps(s: seq<Id>)
    requires Distinct(s)
    ensures Distinct(Lexicographic.Sort(s)) && SetOf(Lexicographic.Sort(s)) == SetOf(s)
    ensures forall id :: id in Lexicographic.Sort(s) <==> id in s
  {
    var t := Lexicographic.Sort(s);
    hide Lexicographic.Sort, Lexicographic.Sorted, Distinct;
    forall x
      ensures x in s <==> x in t
    {
      assert x in s <==> x in multiset(s);
      assert x in t <==> x in multiset(t);
    }
    assert |t| == |multiset(t)| == |multiset(s)| == |s|;
    assert SetOf(t) == SetOf(s);
    SetOfSize(s);
    SetOfSize(t);
  }

  /** The list holds exactly what has been visited beyond the start, once each. */
  ghost predicate IsNews(start: set<Id>, visited: set<Id>, news: seq<Id>) {
    Distinct(news) && SetOf(news) !! start && visited == start + SetOf(news)
  }

  lemma NoNews(start: set<Id>)
    ensures IsNews(start, start, [])
  {
  }

  lemma MoreNews(start: set<Id>, visited: set<Id>, news: seq<Id>, id: Id)
    requires IsNews(start, visited, news) && id !in visited
    ensures IsNews(start, visited + {id}, news + [id])
  {
  }

  lemma ReverseEntries(E: set<(Id, Id)>, reverse: map<Id, seq<Id>>, v: Id, dependents: seq<Id>)
    requires IsReverse(E, reverse) && dependents == if v in reverse then reverse[v] else []
    ensures forall j | 0 <= j < |dependents| :: (dependents[j], v) in E && dependents[j] in Sources(E)
    ensures forall u | (u, v) in E :: u in SetOf(dependents)
  {
    forall j | 0 <= j < |dependents|
      ensures (dependents[j], v) in E && dependents[j] in Sources(E)
    {
      assert (dependents[j], v) in E;
    }
  }

  lemma ReachingAreNews(E: set<(Id, Id)>, start: set<Id>, visited: set<Id>, news: seq<Id>)
    requires Exploring(E, start, visited, {}) && IsNews(start, visited, news)
    ensures Distinct(news)
    ensures forall id :: id in news <==> id !in start && ReachesSome(E, id, start)
  {
    ExploredAll(E, start, visited);
    assert forall id :: id in news <==> id in SetOf(news);
  }

  lemma VisitedAreDependents(adjacency: Adjacency, id: Id, visited: set<Id>)
    requires Exploring(EdgesOf(adjacency, false), {id}, visited, {})
    ensures |visited| == |Dependents(adjacency, id)| + 1
  {
    hide EdgesOf, Dependents, Reaches, ReachesSome;
    assert id in visited;
    hide Exploring;
    ExploredAll(EdgesOf(adjacency, false), {id}, visited);
    DependentsAreReaching(adjacency, id);
    assert visited == Dependents(adjacency, id) + {id};
  }

  /** The elements of a hash set in the arbitrary order of its iterator. */
  method ListOf(ids: set<Id>) returns (list: seq<Id>)
    ensures Distinct(list) && SetOf(list) == ids
  {
    list := [];
    var todo := ids;
    while todo != {}
      invariant todo <= ids && Distinct(list) && SetOf(list) == ids - todo
      decreases todo
    {
      var id :| id in todo;
      todo := todo - {id};
      assert id !in SetOf(list);
      SetOfAppend(list, [id]);
      list := list + [id];
    }
  }

  // ---------- critical path ----------

  function Reverse(s: seq<Id>): (r: seq<Id>)
    ensures |r| == |s|
  {
    if s == [] then [] else [s[|s| - 1]] + Reverse(s[..|s| - 1])
  }

  lemma NoTargets(hardOnly: bool)
    ensures Targets([], hardOnly) == []
  {
  }

  lemma TableKeys(keys: set<Id>, E: set<(Id, Id)>, dp: map<Id, Entry>, done: set<Id>, current: Option<Id>, tos: seq<Id>)
    requires Table(keys, E, dp, done, current, tos)
    ensures dp.Keys == keys
  {
  }

  lemma FreshTable(keys: set<Id>, E: set<(Id, Id)>, dp: map<Id, Entry>)
    requires dp.Keys == keys && forall v | v in keys :: dp[v] == Entry(0, None)
    ensures Table(keys, E, dp, {}, None, [])
  {
  }

  lemma RootEntry(keys: set<Id>, E: set<(Id, Id)>, dp: map<Id, Entry>, done: set<Id>, v: Id)
    requires Table(keys, E, dp, done, None, []) && v in dp && dp[v].pred.None?
    ensures dp[v].len == 0
  {
  }

  lemma NoChains(E: set<(Id, Id)>)
    ensures forall q :: !GroundedChain({}, E, q)
  {
    forall q | IsPath(E, q)
      ensures !(SetOf(q) <= {})
    {
      assert q[0] in SetOf(q);
    }
  }

  lemma EdgesGoForward(E: set<(Id, Id)>, order: seq<Id>, m: nat, to: Id)
    requires IsTopological(E, order) && m < |order| && (order[m], to) in E
    ensures to !in SetOf(order[..m]) && to != order[m]
  {
    forall j | 0 <= j <= m
      ensures order[j] != to
    {
      assert ForwardInto(E, order, order[j], j);
    }
  }

  /** The targets, sorted or not, are the services into which the popped one has an edge. */
  lemma NeighboursAre(adjacency: Adjacency, u: Id, hardOnly: bool, targets: seq<Id>, neighbours: seq<Id>)
    requires targets == TargetsOf(adjacency, u, hardOnly) && multiset(neighbours) == multiset(targets)
    ensures forall v :: v in neighbours <==> (u, v) in EdgesOf(adjacency, hardOnly)
  {
    forall v
      ensures v in neighbours <==> (u, v) in EdgesOf(adjacency, hardOnly)
    {
      TargetsAreEdges(adjacency, u, hardOnly, v);
      assert v in neighbours <==> v in multiset(neighbours);
      assert v in targets <==> v in multiset(targets);
    }
  }

  method InitialQueue(degree: map<Id, nat>, sorted: bool) returns (queue: seq<Id>)
    ensures Distinct(queue) && SetOf(queue) == ZeroDegree(degree)
    ensures sorted ==> Lexicographic.Sorted(queue)
  {
    queue := ListOf(set id | id in degree && degree[id] == 0);
    if sorted {
      SortKeeps(queue);
      queue := Lexicographic.Sort(queue);
    }
  }

  method LongestEntry(dp: map<Id, Entry>) returns (end: Id)
    requires dp.Keys != {}
    ensures end in dp && forall v | v in dp :: dp[v].len <= dp[end].len
  {
    end :| end in dp;
    var todo := dp.Keys;
    while todo != {}
      invariant todo <= dp.Keys && end in dp
      invariant forall v | v in dp.Keys - todo :: dp[v].len <= dp[end].len
      decreases todo
    {
      var v :| v in todo;
      todo := todo - {v};
      if dp[v].len >= dp[end].len {
        end := v;
      }
    }
  }

  // ---------- recovery order ----------

  /** The grounded services in ranked topological order, then the others in byte order. */
  ghost predicate RecoverySplit(keys: set<Id>, E: set<(Id, Id)>, grounded: seq<Id>, others: seq<Id>) {
    && IsTopological(E, grounded) && Ranked(E, grounded)
    && (forall v :: v in grounded <==> v in keys && Grounded(keys, E, v))
    && Distinct(others) && Lexicographic.Sorted(others)
    && forall v :: v in others <==> v in keys && !Grounded(keys, E, v)
  }

  ghost predicate IsRecoveryOrder(keys: set<Id>, E: set<(Id, Id)>, order: seq<Id>) {
    exists grounded, others :: RecoverySplit(keys, E, grounded, others) && order == grounded + others
  }

  /** In the list, `a` comes before `b`. */
  ghost predicate Before(order: seq<Id>, a: Id, b: Id) {
    exists i, j :: 0 <= i < j < |order| && order[i] == a && order[j] == b
  }

  lemma BeforeIsOneWay(order: seq<Id>, a: Id, b: Id)
    requires Distinct(order) && Before(order, a, b)
    ensures !Before(order, b, a)
  {
  }

  lemma OrderIsComplete(keys: set<Id>, E: set<(Id, Id)>, order: seq<Id>)
    requires IsRecoveryOrder(keys, E, order)
    ensures Distinct(order) && SetOf(order) == keys
  {
    var grounded, others :| RecoverySplit(keys, E, grounded, others) && order == grounded + others;
    SetOfAppend(grounded, others);
    forall v
      ensures v in SetOf(order) <==> v in keys
    {
      assert v in SetOf(order) <==> v in grounded || v in others;
    }
    forall i, j | 0 <= i < |grounded| && 0 <= j < |others|
      ensures grounded[i] != others[j]
    {
      assert grounded[i] in grounded && others[j] in others;
    }
  }

  /**
    Where the grounded services stand: by the position of the last service with an edge into
    them, and in byte order where that is the same.
   */
  ghost predicate ByLastDependency(keys: set<Id>, E: set<(Id, Id)>, order: seq<Id>) {
    forall v, w | v in keys && w in keys && v != w && Grounded(keys, E, v) && Grounded(keys, E, w) ::
      Before(order, v, w) <==> Precedes(E, order, v, w)
  }

  lemma PlaceOfGrounded(keys: set<Id>, E: set<(Id, Id)>, order: seq<Id>)
    requires IsRecoveryOrder(keys, E, order)
    ensures ByLastDependency(keys, E, order)
  {
    var grounded, others :| RecoverySplit(keys, E, grounded, others) && order == grounded + others;
    OrderIsComplete(keys, E, order);
    forall v, w | v in keys && w in keys && v != w && Grounded(keys, E, v) && Grounded(keys, E, w)
      ensures Before(order, v, w) <==> Precedes(E, order, v, w)
    {
      assert v in grounded && w in grounded;
      var i: nat :| i < |grounded| && grounded[i] == v;
      var j: nat :| j < |grounded| && grounded[j] == w;
      LastAmongGrounded(E, grounded, others, i);
      LastAmongGrounded(E, grounded, others, j);
      assert order[i] == v && order[j] == w;
      if i < j {
        assert Precedes(E, grounded, grounded[i], grounded[j]);
      } else {
        assert Precedes(E, grounded, grounded[j], grounded[i]);
        assert Before(order, w, v);
        BeforeIsOneWay(order, w, v);
        if Lexicographic.Le(v, w) && Lexicographic.Le(w, v) {
          Lexicographic.LeAntisymmetric(v, w);
        }
      }
    }
  }

  lemma LastAmongGrounded(E: set<(Id, Id)>, grounded: seq<Id>, others: seq<Id>, i: nat)
    requires IsTopological(E, grounded) && i < |grounded| && Distinct(grounded + others)
    ensures LastInto(E, grounded + others, grounded[i]) == LastInto(E, grounded, grounded[i])
  {
    assert ForwardInto(E, grounded, grounded[i], i);
    assert (grounded + others)[..|grounded|] == grounded;
    LastAmong(E, grounded + others, |grounded|, grounded[i]);
  }

  /** The recovery order is determined by the graph: no trace of hash or insertion order is left. */
  lemma RecoveryOrderIsUnique(keys: set<Id>, E: set<(Id, Id)>, a: seq<Id>, b: seq<Id>)
    requires IsRecoveryOrder(keys, E, a) && IsRecoveryOrder(keys, E, b)
    ensures a == b
  {
    var ga, oa :| RecoverySplit(keys, E, ga, oa) && a == ga + oa;
    var gb, ob :| RecoverySplit(keys, E, gb, ob) && b == gb + ob;
    hide Grounded, IsTopological, Ranked;
    SameElements(ga, gb);
    SameElements(oa, ob);
    RankedIsUnique(E, ga, gb, |ga|);
    assert ga[..|ga|] == ga && gb[..|gb|] == gb;
    DistinctMultiset(oa);
    DistinctMultiset(ob);
    Lexicographic.SortedIsUnique(oa, ob);
  }

  lemma SameElements(a: seq<Id>, b: seq<Id>)
    requires forall v :: v in a <==> v in b
    ensures SetOf(a) == SetOf(b)
  {
  }

  /** An edge that leaves a grounded service goes forward in the recovery order. */
  lemma GroundedEdgesGoForward(keys: set<Id>, E: set<(Id, Id)>, order: seq<Id>, u: Id, v: Id)
    requires IsRecoveryOrder(keys, E, order)
    requires (u, v) in E && v in keys && u in keys && Grounded(keys, E, u)
    ensures Before(order, u, v)
  {
    var grounded, others :| RecoverySplit(keys, E, grounded, others) && order == grounded + others;
    if v in grounded {
      var j :| 0 <= j < |grounded| && grounded[j] == v;
      assert ForwardInto(E, grounded, grounded[j], j);
      assert u in grounded[..j];
      var i :| 0 <= i < j && grounded[i] == u;
      assert order[i] == u && order[j] == v;
    } else {
      assert v in others && u in grounded;
      var j :| 0 <= j < |others| && others[j] == v;
      var i :| 0 <= i < |grounded| && grounded[i] == u;
      assert order[i] == u && order[|grounded| + j] == v;
    }
  }

  /** Two services that are not grounded come in byte order. */
  lemma OthersInByteOrder(keys: set<Id>, E: set<(Id, Id)>, order: seq<Id>, u: Id, v: Id)
    requires IsRecoveryOrder(keys, E, order) && u in keys && v in keys && u != v
    requires !Grounded(keys, E, u) && !Grounded(keys, E, v)
    ensures Before(order, u, v) <==> Lexicographic.Le(u, v)
  {
    var grounded, others :| RecoverySplit(keys, E, grounded, others) && order == grounded + others;
    var i :| 0 <= i < |others| && others[i] == u;
    var j :| 0 <= j < |others| && others[j] == v;
    assert order[|grounded| + i] == u && order[|grounded| + j] == v;
    OrderIsComplete(keys, E, order);
    if i < j {
      assert Lexicographic.Le(others[i], others[j]);
      assert Before(order, u, v);
    } else {
      assert Lexicographic.Le(others[j], others[i]);
      assert Before(order, v, u);
      if Lexicographic.Le(u, v) {
        Lexicographic.LeAntisymmetric(u, v);
      }
    }
  }

  /**
    Without cycles and unregistered sources the recovery order is topological: the `from` of
    every edge precedes its `to`.
   */
  lemma RecoveryIsTopological(keys: set<Id>, E: set<(Id, Id)>, order: seq<Id>)
    requires IsRecoveryOrder(keys, E, order)
    requires SourcesRegistered(keys, E) && Acyclic(Inner(keys, E))
    ensures forall u, v | (u, v) in Inner(keys, E) :: Before(order, u, v)
  {
    AllGrounded(keys, E);
    forall u, v | (u, v) in Inner(keys, E)
      ensures Before(order, u, v)
    {
      GroundedEdgesGoForward(keys, E, order, u, v);
    }
  }

  /**
    On any graph the recovery order is topological exactly when every edge that leaves a
    service that is not grounded leads to one with a larger id.
   */
  lemma RecoveryIsTopologicalExactly(keys: set<Id>, E: set<(Id, Id)>, order: seq<Id>)
    requires IsRecoveryOrder(keys, E, order)
    ensures (forall u, v | (u, v) in Inner(keys, E) :: Before(order, u, v)) <==>
            forall u, v | (u, v) in Inner(keys, E) ::
              Grounded(keys, E, u) || (u != v && Lexicographic.Le(u, v))
  {
    OrderIsComplete(keys, E, order);
    forall u, v | (u, v) in Inner(keys, E)
      ensures Before(order, u, v) <==> Grounded(keys, E, u) || (u != v && Lexicographic.Le(u, v))
    {
      if Grounded(keys, E, u) {
        GroundedEdgesGoForward(keys, E, order, u, v);
      } else if u != v {
        if Grounded(keys, E, v) {
          GroundedBackwards(keys, E, u, v);
        }
        OthersInByteOrder(keys, E, order, u, v);
      }
    }
  }

  /** What the documentation promises: the service depended on is recovered first. */
  ghost predicate DependenciesFirst(keys: set<Id>, E: set<(Id, Id)>, order: seq<Id>) {
    forall u, v | (u, v) in Inner(keys, E) :: Before(order, v, u)
  }

  lemma GroundedBackwards(keys: set<Id>, E: set<(Id, Id)>, u: Id, v: Id)
    requires (u, v) in E && Grounded(keys, E, v)
    ensures Grounded(keys, E, u)
  {
    forall p | IsPath(E, p) && p[|p| - 1] == u
      ensures SetOf(p) <= keys && Distinct(p)
    {
      Join(E, p, [v]);
      var q := p + [v];
      SetOfAppend(p, [v]);
      assert p == q[..|p|];
    }
  }

  /**
    The documented order is met exactly when no edge leaves a grounded service and every
    other edge happens to lead to a service with a smaller id.
   */
  lemma DependenciesFirstExactly(keys: set<Id>, E: set<(Id, Id)>, order: seq<Id>)
    requires IsRecoveryOrder(keys, E, order)
    ensures DependenciesFirst(keys, E, order) <==>
            forall u, v | (u, v) in Inner(keys, E) ::
              !Grounded(keys, E, u) && u != v && Lexicographic.Le(v, u)
  {
    OrderIsComplete(keys, E, order);
    forall u, v | (u, v) in Inner(keys, E)
      ensures Before(order, v, u) <==> !Grounded(keys, E, u) && u != v && Lexicographic.Le(v, u)
    {
      if Grounded(keys, E, u) {
        GroundedEdgesGoForward(keys, E, order, u, v);
        BeforeIsOneWay(order, u, v);
      } else if u == v {
      } else {
        if Grounded(keys, E, v) {
          GroundedBackwards(keys, E, u, v);
        }
        OthersInByteOrder(keys, E, order, v, u);
      }
    }
  }

  /** Without cycles and unregistered sources the critical path is a longest hard chain. */
  lemma CriticalPathIsLongest(keys: set<Id>, E: set<(Id, Id)>, path: seq<Id>)
    requires forall q | GroundedChain(keys, E, q) :: |q| <= |path|
    requires SourcesRegistered(keys, E) && Acyclic(Inner(keys, E))
    ensures forall q | IsPath(E, q) && q[|q| - 1] in keys :: |q| <= |path|
  {
    AllGrounded(keys, E);
    forall q | IsPath(E, q) && q[|q| - 1] in keys
      ensures |q| <= |path|
    {
      InnerPath(keys, E, q);
      forall i | 0 <= i < |q| - 1
        ensures Grounded(keys, E, q[i])
      {
        assert q[i] in SetOf(q);
      }
      assert GroundedChain(keys, E, q);
    }
  }

  /** A chain of registered services that repeats none of them. */
  ghost predicate SimpleChain(keys: set<Id>, E: set<(Id, Id)>, q: seq<Id>) {
    IsPath(E, q) && SetOf(q) <= keys && Distinct(q)
  }

  ghost predicate MatchedByGrounded(keys: set<Id>, E: set<(Id, Id)>, n: nat) {
    exists g :: GroundedChain(keys, E, g) && |g| >= n
  }

  /**
    On any graph the critical path is a longest chain of registered services exactly when
    chains through ungrounded services are no longer than those through grounded ones.
   */
  lemma CriticalPathIsLongestExactly(keys: set<Id>, E: set<(Id, Id)>, path: seq<Id>)
    requires IsCriticalPath(keys, E, path)
    ensures (path == [] || SimpleChain(keys, E, path)) && (forall q | SimpleChain(keys, E, q) :: |q| <= |path|) <==>
            forall q | SimpleChain(keys, E, q) :: MatchedByGrounded(keys, E, |q|)
  {
    hide Grounded;
    forall q | SimpleChain(keys, E, q)
      ensures |q| <= |path| <==> MatchedByGrounded(keys, E, |q|)
    {
      assert q[0] in SetOf(q);
    }
  }

  // ---------- where the critical path starts ----------

  /** What may be returned as the critical path; the iteration order of the maps picks one. */
  ghost predicate IsCriticalPath(keys: set<Id>, E: set<(Id, Id)>, path: seq<Id>) {
    && (path == [] <==> keys == {})
    && (path != [] ==> GroundedChain(keys, E, path) && Distinct(path))
    && forall q | GroundedChain(keys, E, q) :: |q| <= |path|
  }

  ghost predicate IsRoot(E: set<(Id, Id)>, v: Id) {
    forall u :: (u, v) !in E
  }

  /** A path of more than one service starts at a root: otherwise it could be made longer. */
  lemma LongPathStartsAtRoot(keys: set<Id>, E: set<(Id, Id)>, path: seq<Id>)
    requires GroundedChain(keys, E, path) && |path| > 1
    requires forall q | GroundedChain(keys, E, q) :: |q| <= |path|
    ensures IsRoot(E, path[0])
  {
    forall u
      ensures (u, path[0]) !in E
    {
      if (u, path[0]) in E {
        LongerChain(keys, E, path, u);
      }
    }
  }

  lemma LongerChain(keys: set<Id>, E: set<(Id, Id)>, path: seq<Id>, u: Id)
    requires GroundedChain(keys, E, path) && |path| > 1 && (u, path[0]) in E
    ensures GroundedChain(keys, E, [u] + path)
  {
    GroundedBackwards(keys, E, u, path[0]);
    GroundedIsRegistered(keys, E, u);
    hide Grounded;
    Join(E, [u], path);
    SetOfAppend([u], path);
    assert SetOf([u]) == {u};
    var q := [u] + path;
    forall i | 0 <= i < |q| - 1
      ensures Grounded(keys, E, q[i])
    {
      assert i > 0 ==> q[i] == path[i - 1];
    }
  }

  lemma GroundedIsRegistered(keys: set<Id>, E: set<(Id, Id)>, v: Id)
    requires Grounded(keys, E, v)
    ensures v in keys
  {
    assert IsPath(E, [v]) && v in SetOf([v]);
  }

  /** Some edge between registered services leaves a grounded one. */
  ghost predicate HasGroundedEdge(keys: set<Id>, E: set<(Id, Id)>) {
    exists u, v :: (u, v) in Inner(keys, E) && Grounded(keys, E, u)
  }

  lemma GroundedEdgeIsChain(keys: set<Id>, E: set<(Id, Id)>)
    ensures HasGroundedEdge(keys, E) <==> exists q :: GroundedChain(keys, E, q) && |q| > 1
  {
    hide Grounded;
    if HasGroundedEdge(keys, E) {
      var u, v :| (u, v) in Inner(keys, E) && Grounded(keys, E, u);
      var q := [u, v];
      assert SetOf(q) == {u, v};
      assert GroundedChain(keys, E, q) && |q| > 1;
    }
    if q :| GroundedChain(keys, E, q) && |q| > 1 {
      assert q[0] in SetOf(q) && q[1] in SetOf(q) && (q[0], q[1]) in E;
      assert (q[0], q[1]) in Inner(keys, E) && Grounded(keys, E, q[0]);
    }
  }

  lemma OneServiceIsChain(keys: set<Id>, E: set<(Id, Id)>, v: Id)
    requires v in keys
    ensures GroundedChain(keys, E, [v]) && Distinct([v])
  {
  }

  /**
    The critical path is documented to start at a service into which no hard edge leads. This
    holds of every path that may be returned exactly when some edge leaves a grounded service
    or all services are such roots; otherwise a single service is returned, any one of them.
   */
  lemma StartsAtRootExactly(keys: set<Id>, E: set<(Id, Id)>)
    ensures (forall path | IsCriticalPath(keys, E, path) && path != [] :: IsRoot(E, path[0])) <==>
            HasGroundedEdge(keys, E) || forall v | v in keys :: IsRoot(E, v)
  {
    hide Grounded, IsRoot, GroundedChain, HasGroundedEdge, Distinct;
    GroundedEdgeIsChain(keys, E);
    if HasGroundedEdge(keys, E) || forall v | v in keys :: IsRoot(E, v) {
      forall path | IsCriticalPath(keys, E, path) && path != []
        ensures IsRoot(E, path[0])
      {
        if |path| > 1 {
          LongPathStartsAtRoot(keys, E, path);
        } else {
          ChainIsRegistered(keys, E, path);
        }
      }
    } else {
      var v :| v in keys && !IsRoot(E, v);
      OneServiceIsChain(keys, E, v);
      assert IsCriticalPath(keys, E, [v]);
    }
  }

  lemma ChainIsRegistered(keys: set<Id>, E: set<(Id, Id)>, path: seq<Id>)
    requires GroundedChain(keys, E, path)
    ensures path[0] in keys
  {
    assert path[0] in SetOf(path);
  }

  /** "a" depends on itself, "b" stands alone: "a" may be returned although "b" is the only root. */
  lemma CycleMayBeReturned(keys: set<Id>, E: set<(Id, Id)>)
    requires keys == {"a", "b"} && E == {("a", "a")}
    ensures IsCriticalPath(keys, E, ["a"]) && !IsRoot(E, "a") && IsRoot(E, "b")
  {
    GroundedEdgeIsChain(keys, E);
    assert !Grounded(keys, E, "a") by {
      var p := ["a", "a"];
      assert IsPath(E, p) && p[0] == p[1] && p[|p| - 1] == "a";
    }
    OneServiceIsChain(keys, E, "a");
  }

  /** Only a source of a hard edge can be impacted. */
  lemma ImpactedIsSource(nodes: Nodes, adjacency: Adjacency, id: Id)
    requires Impacted(nodes, adjacency, id)
    ensures exists v :: (id, v) in EdgesOf(adjacency, true)
  {
    var E := EdgesOf(adjacency, true);
    var b :| b in FailedIds(nodes) && Reaches(E, id, b);
    var p :| IsPathFromTo(E, p, id, b);
    assert (p[0], p[1]) in E;
  }

  class DependencyGraph {
    var nodes: Nodes
    var adjacency: Adjacency

    constructor ()
      ensures nodes == map[] && adjacency == map[]
    {
      nodes, adjacency := map[], map[];
    }

    method AddService(node: ServiceNode)
      modifies this`nodes
      ensures nodes == old(nodes)[node.id := node]
    {
      nodes := nodes[node.id := node];
    }

    method AddDependency(from: Id, to: Id, edgeType: EdgeType, weight: real)
      modifies this`adjacency
      ensures forall hardOnly: bool ::
                EdgesOf(adjacency, hardOnly) == EdgesOf(old(adjacency), hardOnly) +
                if hardOnly && !edgeType.HardDependency? then {} else {(from, to)}
    {
      var edge := DependencyEdge(from, to, edgeType, weight);
      var before := if from in adjacency then adjacency[from] else [];
      adjacency := adjacency[from := before + [edge]];
      forall hardOnly: bool
        ensures EdgesOf(adjacency, hardOnly) == EdgesOf(old(adjacency), hardOnly) +
                if hardOnly && !edgeType.HardDependency? then {} else {(from, to)}
      {
        AddedEdge(old(adjacency), adjacency, edge, hardOnly);
      }
    }

    method MarkFailed(id: Id, reason: string)
      modifies this`nodes
      ensures nodes == if id !in old(nodes) then old(nodes)
                       else old(nodes)[id := old(nodes)[id].(health := Failed(reason))]
    {
      if id in nodes {
        nodes := nodes[id := nodes[id].(health := Failed(reason))];
      }
    }

    method BuildReverse(hardOnly: bool) returns (reverse: map<Id, seq<Id>>)
      ensures IsReverse(EdgesOf(adjacency, hardOnly), reverse)
    {
      reverse := map[];
      var todo := adjacency.Keys;
      ghost var done: set<(Id, Id)> := {};
      while todo != {}
        invariant todo <= adjacency.Keys && IsReverse(done, reverse)
        invariant forall f, t :: (f, t) in done <==> f !in todo && (f, t) in EdgesOf(adjacency, hardOnly)
        decreases todo
      {
        var from :| from in todo;
        todo := todo - {from};
        var edges := adjacency[from];
        ghost var before := done;
        for i := 0 to |edges|
          invariant IsReverse(done, reverse)
          invariant done == before + set e | e in edges[..i] && Counts(e, hardOnly) :: (from, e.to)
        {
          var to := edges[i].to;
          assert edges[..i + 1] == edges[..i] + [edges[i]];
          if Counts(edges[i], hardOnly) {
            reverse := reverse[to := (if to in reverse then reverse[to] else []) + [from]];
            done := done + {(from, to)};
          }
        }
        assert edges[..|edges|] == edges;
      }
    }

    /** Depth-first search from the failed services through the reversed hard edges. */
    method CollectImpacted(initiallyFailed: set<Id>) returns (newlyImpacted: seq<Id>)
      ensures Distinct(newlyImpacted)
      ensures forall id :: id in newlyImpacted <==>
                           id !in initiallyFailed && ReachesSome(EdgesOf(adjacency, true), id, initiallyFailed)
    {
      hide Exploring, ReachesSome, IsReverse, Distinct, IsNews, EdgesOf;
      ghost var E := EdgesOf(adjacency, true);
      var reverse := BuildReverse(true);
      newlyImpacted := [];
      var visited := initiallyFailed;
      var stack := ListOf(initiallyFailed);
      ExploreFrom(E, initiallyFailed);
      NoNews(initiallyFailed);
      while stack != []
        invariant Exploring(E, initiallyFailed, visited, SetOf(stack)) && SetOf(stack) <= visited
        invariant visited <= initiallyFailed + Sources(E)
        invariant IsNews(initiallyFailed, visited, newlyImpacted)
        decreases initiallyFailed + Sources(E) - visited, |stack|
      {
        var current := stack[|stack| - 1];
        Pop(E, initiallyFailed, visited, stack, stack[..|stack| - 1], current);
        stack := stack[..|stack| - 1];
        var dependents := if current in reverse then reverse[current] else [];
        ReverseEntries(E, reverse, current, dependents);
        ghost var seen, height := visited, |stack|;
        for i := 0 to |dependents|
          invariant Exploring(E, initiallyFailed, visited, SetOf(stack) + {current})
          invariant SetOf(stack) + {current} <= visited <= initiallyFailed + Sources(E)
          invariant IsNews(initiallyFailed, visited, newlyImpacted)
          invariant SetOf(dependents[..i]) <= visited
          invariant seen <= visited && (seen == visited ==> |stack| == height)
        {
          var dep := dependents[i];
          assert dependents[..i + 1] == dependents[..i] + [dep];
          if dep !in visited {
            Push(E, initiallyFailed, visited, stack, current, dep);
            MoreNews(initiallyFailed, visited, newlyImpacted, dep);
            visited := visited + {dep};
            newlyImpacted := newlyImpacted + [dep];
            stack := stack + [dep];
          }
        }
        assert dependents[..|dependents|] == dependents;
        Expanded(E, initiallyFailed, visited, SetOf(stack), current);
      }
      assert SetOf(stack) == {};
      ReachingAreNews(E, initiallyFailed, visited, newlyImpacted);
    }

    method PropagateFailures() returns (impacted: seq<Id>)
      modifies this`nodes
      ensures forall id :: id in impacted <==> Impacted(old(nodes), adjacency, id)
      ensures Distinct(impacted) && Lexicographic.Sorted(impacted)
      ensures nodes == MarkAll(old(nodes), SetOf(impacted))
      ensures nodes.Keys == old(nodes).Keys && forall id | id in nodes ::
                nodes[id] == if id in impacted then old(nodes)[id].(health := Failed("propagated failure"))
                             else old(nodes)[id]
    {
      var initiallyFailed := set id | id in nodes && nodes[id].health.Failed?;
      if initiallyFailed == {} {
        assert FailedIds(nodes) == {};
        assert MarkAll(nodes, SetOf([])) == nodes;
        return [];
      }
      assert initiallyFailed == FailedIds(nodes);
      var newlyImpacted := CollectImpacted(initiallyFailed);
      MarkPropagated(newlyImpacted);
      SortKeeps(newlyImpacted);
      impacted := Lexicographic.Sort(newlyImpacted);
    }

    method MarkPropagated(ids: seq<Id>)
      modifies this`nodes
      ensures nodes == MarkAll(old(nodes), SetOf(ids))
    {
      assert ids[..0] == [];
      for i := 0 to |ids|
        invariant nodes == MarkAll(old(nodes), SetOf(ids[..i]))
      {
        var id := ids[i];
        assert ids[..i + 1] == ids[..i] + [id];
        if id in nodes {
          nodes := nodes[id := nodes[id].(health := Failed("propagated failure"))];
        }
      }
      assert ids[..|ids|] == ids;
    }

    method ImpactRadius(id: Id) returns (radius: nat)
      ensures radius == |Dependents(adjacency, id)|
    {
      hide Exploring, ReachesSome, Dependents, IsReverse, EdgesOf, Sources;
      ghost var E := EdgesOf(adjacency, false);
      var reverse := BuildReverse(false);
      var visited := {id};
      var queue := [id];
      ExploreFrom(E, {id});
      assert SetOf(queue) == {id};
      while queue != []
        invariant Exploring(E, {id}, visited, SetOf(queue)) && SetOf(queue) <= visited <= {id} + Sources(E)
        decreases {id} + Sources(E) - visited, |queue|
      {
        var current := queue[0];
        Pop(E, {id}, visited, queue, queue[1..], current);
        queue := queue[1..];
        var dependents := if current in reverse then reverse[current] else [];
        ReverseEntries(E, reverse, current, dependents);
        ghost var seen, length := visited, |queue|;
        for i := 0 to |dependents|
          invariant Exploring(E, {id}, visited, SetOf(queue) + {current})
          invariant SetOf(queue) + {current} <= visited <= {id} + Sources(E)
          invariant SetOf(dependents[..i]) <= visited
          invariant seen <= visited && (seen == visited ==> |queue| == length)
        {
          var dep := dependents[i];
          assert dependents[..i + 1] == dependents[..i] + [dep];
          if dep !in visited {
            Push(E, {id}, visited, queue, current, dep);
            visited := visited + {dep};
            queue := queue + [dep];
          }
        }
        assert dependents[..|dependents|] == dependents;
        Expanded(E, {id}, visited, SetOf(queue), current);
      }
      assert SetOf(queue) == {};
      VisitedAreDependents(adjacency, id, visited);
      radius := SaturatingSub(|visited|, 1);
    }

    /** In-degrees over the counted edges, parallel edges included, registered targets only. */
    method InDegrees(hardOnly: bool) returns (degree: map<Id, nat>)
      ensures Counted(nodes.Keys, adjacency, hardOnly, degree, adjacency.Keys, [])
    {
      hide InCount, Counted, Targets;
      degree := map id | id in nodes :: 0;
      var todo := adjacency.Keys;
      assert adjacency.Keys - todo == {};
      NothingCounted(nodes.Keys, adjacency, hardOnly, degree);
      while todo != {}
        invariant todo <= adjacency.Keys && degree.Keys == nodes.Keys
        invariant Counted(nodes.Keys, adjacency, hardOnly, degree, adjacency.Keys - todo, [])
        decreases todo
      {
        var from :| from in todo;
        var edges := adjacency[from];
        ghost var S := adjacency.Keys - todo;
        NoTargets(hardOnly);
        for i := 0 to |edges|
          invariant Counted(nodes.Keys, adjacency, hardOnly, degree, S, Targets(edges[..i], hardOnly))
          invariant degree.Keys == nodes.Keys
        {
          var to := edges[i].to;
          TargetsNext(edges, i, hardOnly);
          if Counts(edges[i], hardOnly) {
            CountMore(nodes.Keys, adjacency, hardOnly, degree, S, Targets(edges[..i], hardOnly), to);
            if to in degree {
              degree := degree[to := degree[to] + 1];
            }
          }
        }
        assert edges[..|edges|] == edges;
        CountNodeBack(nodes.Keys, adjacency, hardOnly, degree, S, from);
        todo := todo - {from};
        assert S + {from} == adjacency.Keys - todo;
      }
      assert adjacency.Keys - todo == adjacency.Keys;
    }

    /**
      Kahn's algorithm on hard edges or on all edges; when `sorted`, the first queue and each
      node's targets are taken in byte order instead of hash and insertion order.
     */
    method KahnOrder(hardOnly: bool, sorted: bool) returns (order: seq<Id>)
      ensures IsTopological(EdgesOf(adjacency, hardOnly), order) && SetOf(order) <= nodes.Keys
      ensures forall v :: v in order <==> v in nodes && Grounded(nodes.Keys, EdgesOf(adjacency, hardOnly), v)
      ensures sorted ==> Ranked(EdgesOf(adjacency, hardOnly), order)
    {
      hide InCount, Counted, EdgesOf, IsTopological, Grounded, Distinct, ZeroDegree, Working, Ranked;
      var degree := InDegrees(hardOnly);
      CountedKeys(nodes.Keys, adjacency, hardOnly, degree, adjacency.Keys, []);
      var queue := InitialQueue(degree, sorted);
      WorkingInitially(nodes.Keys, adjacency, hardOnly, degree, queue);
      if sorted {
        RankedInitially(nodes.Keys, adjacency, hardOnly, degree, queue);
      }
      order := DrainQueue(degree, queue, hardOnly, sorted);
    }

    method DrainQueue(degree0: map<Id, nat>, queue0: seq<Id>, hardOnly: bool, sorted: bool) returns (order: seq<Id>)
      requires Working(nodes.Keys, adjacency, hardOnly, degree0, [], queue0, [])
      requires sorted ==> Ranked(EdgesOf(adjacency, hardOnly), [] + queue0)
      ensures IsTopological(EdgesOf(adjacency, hardOnly), order) && SetOf(order) <= nodes.Keys
      ensures forall v :: v in order <==> v in nodes && Grounded(nodes.Keys, EdgesOf(adjacency, hardOnly), v)
      ensures sorted ==> Ranked(EdgesOf(adjacency, hardOnly), order)
    {
      hide Working, EdgesOf, IsTopological, Grounded, TargetsOf, Ranked;
      ghost var keys := nodes.Keys;
      var degree, queue := degree0, queue0;
      order := [];
      while queue != []
        invariant |order| <= |keys|
        invariant Working(keys, adjacency, hardOnly, degree, order, queue, [])
        invariant sorted ==> Ranked(EdgesOf(adjacency, hardOnly), order + queue)
        decreases |keys| - |order|
      {
        PopNode(keys, adjacency, hardOnly, degree, order, queue);
        assert order + queue == (order + [queue[0]]) + queue[1..];
        var node := queue[0];
        order, queue := order + [node], queue[1..];
        degree, queue := Subtract(degree, order, queue, TargetsOf(adjacency, node, hardOnly), hardOnly, sorted);
      }
      assert order + queue == order;
      WorkDone(keys, adjacency, hardOnly, degree, order);
    }

    /** Subtracts the edges of the last popped service and queues what they release. */
    method Subtract(degree: map<Id, nat>, ghost order: seq<Id>, queue: seq<Id>, targets: seq<Id>,
                    hardOnly: bool, sorted: bool)
      returns (degree': map<Id, nat>, queue': seq<Id>)
      requires Working(nodes.Keys, adjacency, hardOnly, degree, order, queue, targets)
      requires order != [] && targets == TargetsOf(adjacency, order[|order| - 1], hardOnly)
      requires sorted ==> Ranked(EdgesOf(adjacency, hardOnly), order + queue)
      ensures Working(nodes.Keys, adjacency, hardOnly, degree', order, queue', [])
      ensures sorted ==> Ranked(EdgesOf(adjacency, hardOnly), order + queue')
    {
      ghost var keys, E := nodes.Keys, EdgesOf(adjacency, hardOnly);
      var neighbours := if sorted then Lexicographic.Sort(targets) else targets;
      hide Working, InCount, Counted, Queued, EdgesOf, Ranked, TargetsOf;
      WorkingReordered(keys, adjacency, hardOnly, degree, order, queue, targets, neighbours);
      NeighboursAre(adjacency, order[|order| - 1], hardOnly, targets, neighbours);
      degree', queue' := degree, queue;
      assert neighbours[0..] == neighbours;
      for i := 0 to |neighbours|
        invariant Working(keys, adjacency, hardOnly, degree', order, queue', neighbours[i..])
        invariant sorted ==> Ranked(E, order + queue')
      {
        var to := neighbours[i];
        SubtractOne(keys, adjacency, hardOnly, degree', order, queue', neighbours, i);
        if to in degree' {
          var d := SaturatingSub(degree'[to], 1);
          ghost var before := degree';
          degree' := degree'[to := d];
          if d == 0 {
            if sorted {
              RankTarget(keys, adjacency, hardOnly, before, degree', order, queue', neighbours, i);
            }
            queue' := queue' + [to];
          }
        }
      }
      assert neighbours[|neighbours|..] == [];
    }

    /** Longest hard-dependency chains into every service, along the topological order. */
    method LongestChains(order: seq<Id>) returns (dp: map<Id, Entry>)
      requires IsTopological(EdgesOf(adjacency, true), order) && SetOf(order) <= nodes.Keys
      ensures Table(nodes.Keys, EdgesOf(adjacency, true), dp, SetOf(order), None, [])
    {
      hide EdgesOf, IsTopological, Targets, Table, InCount;
      ghost var keys, E := nodes.Keys, EdgesOf(adjacency, true);
      dp := map id | id in nodes :: Entry(0, None);
      FreshTable(keys, E, dp);
      assert SetOf(order[..0]) == {};
      for m := 0 to |order|
        invariant Table(keys, E, dp, SetOf(order[..m]), None, [])
      {
        assert order[m] in SetOf(order);
        assert order[..m + 1] == order[..m] + [order[m]];
        assert SetOf(order[..m + 1]) == SetOf(order[..m]) + {order[m]};
        dp := ApplyEdges(order, m, dp, order[m]);
      }
      assert order[..|order|] == order;
    }

    /** Offers the chain through the m-th service of the order to all its hard targets. */
    method ApplyEdges(ghost order: seq<Id>, ghost m: nat, dp: map<Id, Entry>, node: Id) returns (dp': map<Id, Entry>)
      requires IsTopological(EdgesOf(adjacency, true), order)
      requires m < |order| && node == order[m] && node in nodes
      requires Table(nodes.Keys, EdgesOf(adjacency, true), dp, SetOf(order[..m]), None, [])
      ensures Table(nodes.Keys, EdgesOf(adjacency, true), dp', SetOf(order[..m]) + {node}, None, [])
    {
      hide EdgesOf, IsTopological, Targets, Table;
      ghost var keys, E := nodes.Keys, EdgesOf(adjacency, true);
      dp' := dp;
      ghost var done := SetOf(order[..m]);
      TableStart(keys, E, dp', done, node);
      TableKeys(keys, E, dp', done, Some(node), []);
      var targets := TargetsOf(adjacency, node, true);
      var currentLen := dp'[node].len;
      for i := 0 to |targets|
        invariant Table(keys, E, dp', done, Some(node), targets[..i])
        invariant dp'.Keys == keys && dp'[node].len == currentLen
      {
        var to := targets[i];
        assert targets[..i + 1] == targets[..i] + [to];
        TargetsAreEdges(adjacency, node, true, to);
        EdgesGoForward(E, order, m, to);
        TableStep(keys, E, dp', done, node, targets[..i], to);
        if to in dp' {
          if currentLen + 1 > dp'[to].len {
            dp' := dp'[to := Entry(currentLen + 1, Some(node))];
          }
        }
      }
      assert targets[..|targets|] == targets;
      forall v | (node, v) in E
        ensures v in targets
      {
        TargetsAreEdges(adjacency, node, true, v);
      }
      TableNext(keys, E, dp', done, node, targets);
    }

    /** On any graph: a longest chain of hard dependencies whose inner services are grounded. */
    method CriticalPath() returns (path: seq<Id>)
      ensures IsCriticalPath(nodes.Keys, EdgesOf(adjacency, true), path)
      ensures |path| > 1 ==> IsRoot(EdgesOf(adjacency, true), path[0])
    {
      ghost var keys, E := nodes.Keys, EdgesOf(adjacency, true);
      hide EdgesOf, IsTopological, Grounded, Distinct, GroundedChain, Table, IsRoot;
      var order := KahnOrder(true, false);
      var dp := LongestChains(order);
      TableKeys(keys, E, dp, SetOf(order), None, []);
      if dp.Keys == {} {
        NoChains(E);
        return [];
      }
      var end := LongestEntry(dp);
      var current := end;
      path := [current];
      ghost var done := SetOf(order);
      while dp[current].pred.Some?
        invariant path != [] && path[|path| - 1] == current && current in dp
        invariant PathTail(keys, E, dp, done, Reverse(path)) && Reverse(path)[0] == current
        invariant Reverse(path)[|path| - 1] == end && |Reverse(path)| == |path|
        invariant |path| + dp[current].len == dp[end].len + 1
        decreases dp[current].len
      {
        ExtendTail(keys, E, dp, done, Reverse(path), dp[current].pred.value);
        current := dp[current].pred.value;
        ghost var before := path;
        path := path + [current];
        assert path[..|before|] == before;
      }
      RootEntry(keys, E, dp, done, current);
      TailIsLongest(keys, E, dp, done, Reverse(path));
      path := Reverse(path);
      if |path| > 1 {
        LongPathStartsAtRoot(keys, E, path);
      }
    }

    method RecoveryOrder() returns (order: seq<Id>)
      ensures IsRecoveryOrder(nodes.Keys, EdgesOf(adjacency, false), order)
      ensures ByLastDependency(nodes.Keys, EdgesOf(adjacency, false), order)
    {
      ghost var keys, E := nodes.Keys, EdgesOf(adjacency, false);
      hide EdgesOf, IsTopological, Grounded, Ranked;
      order := KahnOrder(false, true);
      var remaining := ListOf(set id | id in nodes && id !in order);
      assert SetOf(remaining) == keys - SetOf(order);
      SortKeeps(remaining);
      remaining := Lexicographic.Sort(remaining);
      assert forall id :: id in remaining <==> id in SetOf(remaining);
      assert RecoverySplit(keys, E, order, remaining);
      order := order + remaining;
      PlaceOfGrounded(keys, E, order);
    }

    /** A second propagation right after the first finds only what could not be marked. */
    method PropagateTwice() returns (first: seq<Id>, second: seq<Id>)
      modifies this`nodes
      ensures forall id :: id in first <==> Impacted(old(nodes), adjacency, id)
      ensures forall id :: id in second <==> id in first && id !in old(nodes)
      ensures Distinct(first) && Distinct(second) && nodes == MarkAll(old(nodes), SetOf(first))
      ensures second == [] <==> forall id | Impacted(old(nodes), adjacency, id) :: id in old(nodes)
      ensures (forall u, v | (u, v) in EdgesOf(adjacency, true) :: u in old(nodes)) ==> second == []
    {
      hide Impacted, EdgesOf;
      first := PropagateFailures();
      PropagateAgain(old(nodes), adjacency, SetOf(first));
      second := PropagateFailures();
      MarkedOnce(old(nodes), SetOf(first), SetOf(second));
      if second != [] {
        assert second[0] in second;
        ImpactedIsSource(old(nodes), adjacency, second[0]);
      }
    }
  }

  /**
    An edge from an unregistered service hides the chain a -> b of registered services: the
    critical path has one service.
   */
  method UnregisteredSourceHidesChain(a: ServiceNode, b: ServiceNode) returns (graph: DependencyGraph, path: seq<Id>)
    requires a.id == "a" && b.id == "b"
    ensures fresh(graph) && graph.nodes.Keys == {"a", "b"}
    ensures EdgesOf(graph.adjacency, true) == {("ghost", "a"), ("a", "b")}
    ensures SimpleChain(graph.nodes.Keys, EdgesOf(graph.adjacency, true), ["a", "b"])
    ensures IsCriticalPath(graph.nodes.Keys, EdgesOf(graph.adjacency, true), path) && |path| == 1
  {
    graph := new DependencyGraph();
    graph.AddService(a);
    graph.AddService(b);
    graph.AddDependency("ghost", "a", HardDependency, 1.0);
    graph.AddDependency("a", "b", HardDependency, 1.0);
    ghost var keys, E := graph.nodes.Keys, EdgesOf(graph.adjacency, true);
    path := graph.CriticalPath();
    OnlyChain(keys, E, path);
  }

  /** With the hard edge ghost -> a and "a" failed, propagation returns "ghost" again and again. */
  method GhostStaysImpacted(a: ServiceNode)
    returns (graph: DependencyGraph, first: seq<Id>, second: seq<Id>)
    requires a.id == "a"
    ensures fresh(graph) && graph.nodes.Keys == {"a"} && EdgesOf(graph.adjacency, true) == {("ghost", "a")}
    ensures first == second == ["ghost"]
  {
    hide EdgesOf, Impacted;
    graph := new DependencyGraph();
    NoEdgesYet(graph.adjacency);
    graph.AddService(a);
    graph.AddDependency("ghost", "a", HardDependency, 1.0);
    graph.MarkFailed("a", "down");
    OnlyGhost(graph.nodes, graph.adjacency);
    first, second := graph.PropagateTwice();
    OnlyElement(first, "ghost");
    OnlyElement(second, "ghost");
  }

  lemma OnlyElement(s: seq<Id>, x: Id)
    requires Distinct(s) && forall id :: id in s <==> id == x
    ensures s == [x]
  {
    assert SetOf(s) == {x};
    SetOfSize(s);
    assert s[0] in s;
  }

  lemma OnlyGhost(nodes: Nodes, adjacency: Adjacency)
    requires nodes.Keys == {"a"} && nodes["a"].health.Failed? && EdgesOf(adjacency, true) == {("ghost", "a")}
    ensures forall id :: Impacted(nodes, adjacency, id) <==> id == "ghost"
  {
    var E := EdgesOf(adjacency, true);
    forall id | Impacted(nodes, adjacency, id)
      ensures id == "ghost"
    {
      ImpactedIsSource(nodes, adjacency, id);
    }
    assert "a" in FailedIds(nodes) && "ghost" !in FailedIds(nodes);
    ReachesItself(E, "a");
    EdgeThenReach(E, "ghost", "a", "a");
  }

  /**
    With one edge, from the service "a" that depends to the service "b" it depends on, the
    recovery order is the reverse of the documented one.
   */
  method DependentRecoveredFirst(a: ServiceNode, b: ServiceNode) returns (graph: DependencyGraph, order: seq<Id>)
    requires a.id == "a" && b.id == "b"
    ensures fresh(graph) && graph.nodes.Keys == {"a", "b"} && EdgesOf(graph.adjacency, false) == {("a", "b")}
    ensures IsRecoveryOrder(graph.nodes.Keys, EdgesOf(graph.adjacency, false), order) && order == ["a", "b"]
    ensures !DependenciesFirst(graph.nodes.Keys, EdgesOf(graph.adjacency, false), order)
  {
    graph := new DependencyGraph();
    graph.AddService(a);
    graph.AddService(b);
    graph.AddDependency("a", "b", HardDependency, 1.0);
    order := graph.RecoveryOrder();
    OneEdgeRecovery(graph.nodes.Keys, EdgesOf(graph.adjacency, false), order);
  }

  /**
    An edge from an unregistered service reverses the order of z -> a: both services come in
    byte order, although the edges between them have no cycle.
   */
  method UnregisteredSourceReversesOrder(a: ServiceNode, z: ServiceNode)
    returns (graph: DependencyGraph, order: seq<Id>)
    requires a.id == "a" && z.id == "z"
    ensures fresh(graph) && graph.nodes.Keys == {"a", "z"}
    ensures EdgesOf(graph.adjacency, false) == {("ghost", "z"), ("z", "a")}
    ensures IsRecoveryOrder(graph.nodes.Keys, EdgesOf(graph.adjacency, false), order) && order == ["a", "z"]
    ensures Acyclic(Inner(graph.nodes.Keys, EdgesOf(graph.adjacency, false))) && !Before(order, "z", "a")
  {
    hide EdgesOf, IsRecoveryOrder, Acyclic, Before, ByLastDependency;
    graph := new DependencyGraph();
    NoEdgesYet(graph.adjacency);
    graph.AddService(a);
    graph.AddService(z);
    graph.AddDependency("ghost", "z", HardDependency, 1.0);
    graph.AddDependency("z", "a", HardDependency, 1.0);
    order := graph.RecoveryOrder();
    ReversedOrder(graph.nodes.Keys, EdgesOf(graph.adjacency, false), order);
  }

  lemma NoEdgesYet(adjacency: Adjacency)
    requires adjacency == map[]
    ensures forall hardOnly: bool :: EdgesOf(adjacency, hardOnly) == {}
  {
  }

  lemma ReversedOrder(keys: set<Id>, E: set<(Id, Id)>, order: seq<Id>)
    requires keys == {"a", "z"} && E == {("ghost", "z"), ("z", "a")} && IsRecoveryOrder(keys, E, order)
    ensures order == ["a", "z"] && Acyclic(Inner(keys, E)) && !Before(order, "z", "a")
  {
    OrderIsComplete(keys, E, order);
    assert !Grounded(keys, E, "z") by {
      var p := ["ghost", "z"];
      assert IsPath(E, p) && p[0] in SetOf(p);
    }
    assert !Grounded(keys, E, "a") by {
      if Grounded(keys, E, "a") {
        GroundedBackwards(keys, E, "z", "a");
      }
    }
    OthersInByteOrder(keys, E, order, "a", "z");
    BeforeIsOneWay(order, "a", "z");
    SetOfSize(order);
    assert |order| == 2;
    var inner := Inner(keys, E);
    assert inner == {("z", "a")};
    forall p | IsPath(inner, p) && |p| > 1
      ensures p[0] != p[|p| - 1]
    {
      assert (p[0], p[1]) in inner && (p[|p| - 2], p[|p| - 1]) in inner;
    }
  }

  lemma StartIsGrounded(keys: set<Id>, E: set<(Id, Id)>, v: Id)
    requires v in keys && forall e | e in E :: e.1 != v
    ensures Grounded(keys, E, v)
  {
    forall p | IsPath(E, p) && p[|p| - 1] == v
      ensures SetOf(p) <= keys && Distinct(p)
    {
      LastStep(E, p);
    }
  }

  lemma LastStep(E: set<(Id, Id)>, p: seq<Id>)
    requires IsPath(E, p)
    ensures |p| == 1 || exists e :: e in E && e.1 == p[|p| - 1]
  {
    if |p| > 1 {
      assert (p[|p| - 2], p[|p| - 1]) in E;
    }
  }

  lemma OneEdgeRecovery(keys: set<Id>, E: set<(Id, Id)>, order: seq<Id>)
    requires keys == {"a", "b"} && E == {("a", "b")} && IsRecoveryOrder(keys, E, order)
    ensures order == ["a", "b"] && !DependenciesFirst(keys, E, order)
  {
    OrderIsComplete(keys, E, order);
    StartIsGrounded(keys, E, "a");
    GroundedEdgesGoForward(keys, E, order, "a", "b");
    SetOfSize(order);
    assert |order| == 2;
    DependenciesFirstExactly(keys, E, order);
    assert ("a", "b") in Inner(keys, E);
  }

  lemma NotGrounded(keys: set<Id>, E: set<(Id, Id)>)
    requires keys == {"a", "b"} && E == {("ghost", "a"), ("a", "b")}
    ensures !Grounded(keys, E, "a")
  {
    var p := ["ghost", "a"];
    assert IsPath(E, p) && "ghost" in SetOf(p);
  }

  lemma OnlyChain(keys: set<Id>, E: set<(Id, Id)>, path: seq<Id>)
    requires keys == {"a", "b"} && E == {("ghost", "a"), ("a", "b")}
    requires GroundedChain(keys, E, path)
    ensures |path| <= 1
  {
    if |path| > 1 {
      assert (path[0], path[1]) in E && path[0] in SetOf(path);
      assert path[0] == "a";
      NotGrounded(keys, E);
    }
  }
}
