/**
  Kahn's algorithm over the service graph, where parallel edges count and edges may name
  unregistered services, and the longest-chain table computed along its order.
 */
module ServiceOrder {
  import opened Types
  import opened Digraph
  import opened Services
  import Lexicographic

  /** The targets of the counted edges, in order and with repeats. */
  function Targets(edges: seq<DependencyEdge>, hardOnly: bool): seq<Id>
  {
    if edges == [] then []
    else Targets(edges[..|edges| - 1], hardOnly) +
         if Counts(edges[|edges| - 1], hardOnly) then [edges[|edges| - 1].to] else []
  }

  /** The targets of the edges stored under one service. */
  function TargetsOf(adjacency: Adjacency, u: Id, hardOnly: bool): seq<Id> {
    if u in adjacency then Targets(adjacency[u], hardOnly) else []
  }

  lemma {:induction false} TargetsAre(edges: seq<DependencyEdge>, hardOnly: bool, v: Id)
    ensures v in Targets(edges, hardOnly) <==> exists e :: e in edges && Counts(e, hardOnly) && e.to == v
  {
    if edges != [] {
      var n := |edges| - 1;
      TargetsAre(edges[..n], hardOnly, v);
      assert edges == edges[..n] + [edges[n]];
      if v in Targets(edges[..n], hardOnly) {
        var e :| e in edges[..n] && Counts(e, hardOnly) && e.to == v;
        assert e in edges;
      }
      assert edges[n] in edges;
    }
  }

  lemma TargetsAreEdges(adjacency: Adjacency, u: Id, hardOnly: bool, v: Id)
    ensures v in TargetsOf(adjacency, u, hardOnly) <==> (u, v) in EdgesOf(adjacency, hardOnly)
  {
    if u in adjacency {
      TargetsAre(adjacency[u], hardOnly, v);
    }
  }

  /** The number of edges into v that are stored under a service of S. */
  ghost function InCount(adjacency: Adjacency, S: set<Id>, hardOnly: bool, v: Id): nat
  {
    if S == {} then 0 else
      var u :| u in S;
      multiset(TargetsOf(adjacency, u, hardOnly))[v] + InCount(adjacency, S - {u}, hardOnly, v)
  }

  lemma {:induction false} InCountWithout(adjacency: Adjacency, S: set<Id>, hardOnly: bool, v: Id, u: Id)
    requires u in S
    ensures InCount(adjacency, S, hardOnly, v) ==
            multiset(TargetsOf(adjacency, u, hardOnly))[v] + InCount(adjacency, S - {u}, hardOnly, v)
  {
    var w :| w in S && InCount(adjacency, S, hardOnly, v) ==
      multiset(TargetsOf(adjacency, w, hardOnly))[v] + InCount(adjacency, S - {w}, hardOnly, v);
    if w != u {
      InCountWithout(adjacency, S - {w}, hardOnly, v, u);
      InCountWithout(adjacency, S - {u}, hardOnly, v, w);
      assert S - {w} - {u} == S - {u} - {w};
    }
  }

  lemma {:induction false} InCountZero(adjacency: Adjacency, S: set<Id>, hardOnly: bool, v: Id)
    ensures InCount(adjacency, S, hardOnly, v) == 0 <==>
            forall u | u in S :: (u, v) !in EdgesOf(adjacency, hardOnly)
  {
    if S != {} {
      var w :| w in S;
      InCountWithout(adjacency, S, hardOnly, v, w);
      InCountZero(adjacency, S - {w}, hardOnly, v);
      TargetsAreEdges(adjacency, w, hardOnly, v);
      assert forall u | u in S :: u == w || u in S - {w};
    }
  }

  // ---------- the invariant of Kahn's algorithm ----------

  /** The counters: edges from the services of S, plus the targets still to be subtracted. */
  ghost predicate Counted(keys: set<Id>, adjacency: Adjacency, hardOnly: bool,
                          degree: map<Id, nat>, S: set<Id>, extra: seq<Id>)
  {
    degree.Keys == keys &&
    forall v | v in keys :: degree[v] == InCount(adjacency, S, hardOnly, v) + multiset(extra)[v]
  }

  /** The order so far followed by the queue: exactly the services whose counter is zero. */
  ghost predicate Queued(keys: set<Id>, E: set<(Id, Id)>, degree: map<Id, nat>, all: seq<Id>)
  {
    && degree.Keys == keys
    && (forall v :: v in all <==> v in keys && degree[v] == 0)
    && IsTopological(E, all)
  }

  lemma CountNode(keys: set<Id>, adjacency: Adjacency, hardOnly: bool, degree: map<Id, nat>, listed: set<Id>, node: Id)
    requires Counted(keys, adjacency, hardOnly, degree, adjacency.Keys - listed, []) && node !in listed
    ensures Counted(keys, adjacency, hardOnly, degree, adjacency.Keys - (listed + {node}),
                    TargetsOf(adjacency, node, hardOnly))
  {
    var S := adjacency.Keys - listed;
    assert S - {node} == adjacency.Keys - (listed + {node});
    if node in S {
      forall v | v in keys
        ensures degree[v] == InCount(adjacency, S - {node}, hardOnly, v) +
                             multiset(TargetsOf(adjacency, node, hardOnly))[v]
      {
        InCountWithout(adjacency, S, hardOnly, v, node);
      }
    } else {
      assert S - {node} == S;
    }
  }

  /** Reordering the targets of a node changes no counter. */
  lemma CountReordered(keys: set<Id>, adjacency: Adjacency, hardOnly: bool, degree: map<Id, nat>, S: set<Id>,
                       extra: seq<Id>, extra': seq<Id>)
    requires Counted(keys, adjacency, hardOnly, degree, S, extra) && multiset(extra) == multiset(extra')
    ensures Counted(keys, adjacency, hardOnly, degree, S, extra')
  {
  }

  lemma WorkingReordered(keys: set<Id>, adjacency: Adjacency, hardOnly: bool, degree: map<Id, nat>,
                         order: seq<Id>, queue: seq<Id>, extra: seq<Id>, extra': seq<Id>)
    requires Working(keys, adjacency, hardOnly, degree, order, queue, extra) && multiset(extra) == multiset(extra')
    ensures Working(keys, adjacency, hardOnly, degree, order, queue, extra')
  {
    hide Queued, EdgesOf;
    CountReordered(keys, adjacency, hardOnly, degree, adjacency.Keys - SetOf(order), extra, extra');
  }

  lemma CountTarget(keys: set<Id>, adjacency: Adjacency, hardOnly: bool, degree: map<Id, nat>, S: set<Id>,
                    extra: seq<Id>, i: nat)
    requires i < |extra| && Counted(keys, adjacency, hardOnly, degree, S, extra[i..])
    ensures if extra[i] in keys
            then degree[extra[i]] > 0 &&
                 Counted(keys, adjacency, hardOnly, degree[extra[i] := degree[extra[i]] - 1], S, extra[i + 1..])
            else Counted(keys, adjacency, hardOnly, degree, S, extra[i + 1..])
  {
    hide InCount;
    forall v
      ensures multiset(extra[i..])[v] == multiset(extra[i + 1..])[v] + if v == extra[i] then 1 else 0
    {
      assert extra[i..] == [extra[i]] + extra[i + 1..];
    }
  }

  lemma CountedKeys(keys: set<Id>, adjacency: Adjacency, hardOnly: bool, degree: map<Id, nat>, S: set<Id>,
                    extra: seq<Id>)
    requires Counted(keys, adjacency, hardOnly, degree, S, extra)
    ensures degree.Keys == keys
  {
  }

  lemma QueueTarget(keys: set<Id>, adjacency: Adjacency, hardOnly: bool, degree: map<Id, nat>,
                    order: seq<Id>, queue: seq<Id>, extra: seq<Id>, to: Id, d: nat)
    requires Queued(keys, EdgesOf(adjacency, hardOnly), degree, order + queue)
    requires to in keys && degree[to] == d + 1
    requires Counted(keys, adjacency, hardOnly, degree[to := d], adjacency.Keys - SetOf(order), extra)
    ensures Queued(keys, EdgesOf(adjacency, hardOnly), degree[to := d],
                   order + if d == 0 then queue + [to] else queue)
  {
    if d == 0 {
      var E := EdgesOf(adjacency, hardOnly);
      assert order + (queue + [to]) == (order + queue) + [to];
      assert degree[to := d][to] == 0;
      InCountZero(adjacency, adjacency.Keys - SetOf(order), hardOnly, to);
      forall u | (u, to) in E
        ensures u in order + queue
      {
        assert u in SetOf(order);
      }
      AppendTopological(E, order + queue, to);
    }
  }

  lemma AppendTopological(E: set<(Id, Id)>, order: seq<Id>, v: Id)
    requires IsTopological(E, order) && v !in order
    requires forall u | (u, v) in E :: u in order
    ensures IsTopological(E, order + [v])
  {
    var order' := order + [v];
    forall k | 0 <= k < |order'|
      ensures ForwardInto(E, order', order'[k], k)
    {
      if k < |order| {
        assert ForwardInto(E, order, order[k], k);
        assert order'[..k] == order[..k];
      } else {
        assert order'[..k] == order;
      }
    }
  }

  lemma QueueInitially(keys: set<Id>, adjacency: Adjacency, hardOnly: bool, degree: map<Id, nat>, queue: seq<Id>)
    requires Counted(keys, adjacency, hardOnly, degree, adjacency.Keys, []) && Distinct(queue)
    requires SetOf(queue) == set v | v in keys && degree[v] == 0
    ensures Queued(keys, EdgesOf(adjacency, hardOnly), degree, queue)
  {
    forall v
      ensures v in queue <==> v in keys && degree[v] == 0
    {
      assert v in queue <==> v in SetOf(queue);
    }
    forall k | 0 <= k < |queue|
      ensures ForwardInto(EdgesOf(adjacency, hardOnly), queue, queue[k], k)
    {
      assert queue[k] in queue;
      InCountZero(adjacency, adjacency.Keys, hardOnly, queue[k]);
    }
  }

  lemma QueuedBound(keys: set<Id>, E: set<(Id, Id)>, degree: map<Id, nat>, order: seq<Id>, queue: seq<Id>)
    requires Queued(keys, E, degree, order + queue)
    ensures SetOf(order) <= keys && |order| <= |keys|
    ensures queue != [] ==> |order| < |keys| && queue[0] !in order
    ensures queue != [] ==> (order + [queue[0]]) + queue[1..] == order + queue
    ensures queue != [] ==> SetOf(order + [queue[0]]) == SetOf(order) + {queue[0]}
  {
    var all := order + queue;
    assert SetOf(all) <= keys;
    SetOfSize(all);
    SubsetSize(SetOf(all), keys);
    SetOfAppend(order, queue);
    if queue != [] {
      assert all[|order|] == queue[0];
      forall i | 0 <= i < |order|
        ensures order[i] != queue[0]
      {
        assert all[i] == order[i];
      }
    }
  }

  lemma CountNodeBack(keys: set<Id>, adjacency: Adjacency, hardOnly: bool, degree: map<Id, nat>, S: set<Id>, node: Id)
    requires Counted(keys, adjacency, hardOnly, degree, S, TargetsOf(adjacency, node, hardOnly)) && node !in S
    ensures Counted(keys, adjacency, hardOnly, degree, S + {node}, [])
  {
    assert S + {node} - {node} == S;
    forall v | v in keys
      ensures degree[v] == InCount(adjacency, S + {node}, hardOnly, v) + multiset([])[v]
    {
      InCountWithout(adjacency, S + {node}, hardOnly, v, node);
    }
  }

  lemma CountMore(keys: set<Id>, adjacency: Adjacency, hardOnly: bool, degree: map<Id, nat>, S: set<Id>,
                  extra: seq<Id>, to: Id)
    requires Counted(keys, adjacency, hardOnly, degree, S, extra)
    ensures if to in keys
            then Counted(keys, adjacency, hardOnly, degree[to := degree[to] + 1], S, extra + [to])
            else Counted(keys, adjacency, hardOnly, degree, S, extra + [to])
  {
  }

  lemma NothingCounted(keys: set<Id>, adjacency: Adjacency, hardOnly: bool, degree: map<Id, nat>)
    requires degree.Keys == keys && forall v | v in keys :: degree[v] == 0
    ensures Counted(keys, adjacency, hardOnly, degree, {}, [])
  {
  }

  lemma TargetsNext(edges: seq<DependencyEdge>, i: nat, hardOnly: bool)
    requires i < |edges|
    ensures Targets(edges[..i + 1], hardOnly) ==
            if Counts(edges[i], hardOnly) then Targets(edges[..i], hardOnly) + [edges[i].to]
            else Targets(edges[..i], hardOnly)
  {
    assert edges[..i + 1][..i] == edges[..i];
    assert Targets(edges[..i], hardOnly) + [] == Targets(edges[..i], hardOnly);
  }

  /** Both halves of the invariant while `extra` is being subtracted. */
  ghost predicate Working(keys: set<Id>, adjacency: Adjacency, hardOnly: bool, degree: map<Id, nat>,
                          order: seq<Id>, queue: seq<Id>, extra: seq<Id>)
  {
    && Counted(keys, adjacency, hardOnly, degree, adjacency.Keys - SetOf(order), extra)
    && Queued(keys, EdgesOf(adjacency, hardOnly), degree, order + queue)
  }

  lemma WorkingInitially(keys: set<Id>, adjacency: Adjacency, hardOnly: bool, degree: map<Id, nat>, queue: seq<Id>)
    requires Counted(keys, adjacency, hardOnly, degree, adjacency.Keys, []) && Distinct(queue)
    requires SetOf(queue) == ZeroDegree(degree)
    ensures Working(keys, adjacency, hardOnly, degree, [], queue, [])
  {
    QueueInitially(keys, adjacency, hardOnly, degree, queue);
    assert [] + queue == queue && adjacency.Keys - SetOf([]) == adjacency.Keys;
  }

  lemma PopNode(keys: set<Id>, adjacency: Adjacency, hardOnly: bool, degree: map<Id, nat>,
                order: seq<Id>, queue: seq<Id>)
    requires Working(keys, adjacency, hardOnly, degree, order, queue, []) && queue != []
    ensures |order| < |keys|
    ensures Working(keys, adjacency, hardOnly, degree, order + [queue[0]], queue[1..],
                    TargetsOf(adjacency, queue[0], hardOnly))
  {
    hide Counted, Queued, InCount, EdgesOf, TargetsOf;
    QueuedBound(keys, EdgesOf(adjacency, hardOnly), degree, order, queue);
    CountNode(keys, adjacency, hardOnly, degree, SetOf(order), queue[0]);
  }

  lemma SubtractOne(keys: set<Id>, adjacency: Adjacency, hardOnly: bool, degree: map<Id, nat>,
                    order: seq<Id>, queue: seq<Id>, extra: seq<Id>, i: nat)
    requires i < |extra| && Working(keys, adjacency, hardOnly, degree, order, queue, extra[i..])
    ensures degree.Keys == keys
    ensures extra[i] !in keys ==> Working(keys, adjacency, hardOnly, degree, order, queue, extra[i + 1..])
    ensures extra[i] in keys ==>
              var d := SaturatingSub(degree[extra[i]], 1);
              Working(keys, adjacency, hardOnly, degree[extra[i] := d], order,
                      if d == 0 then queue + [extra[i]] else queue, extra[i + 1..])
  {
    hide Counted, Queued, InCount, EdgesOf;
    CountedKeys(keys, adjacency, hardOnly, degree, adjacency.Keys - SetOf(order), extra[i..]);
    CountTarget(keys, adjacency, hardOnly, degree, adjacency.Keys - SetOf(order), extra, i);
    if extra[i] in keys {
      QueueTarget(keys, adjacency, hardOnly, degree, order, queue, extra[i + 1..], extra[i], degree[extra[i]] - 1);
    }
  }

  lemma WorkDone(keys: set<Id>, adjacency: Adjacency, hardOnly: bool, degree: map<Id, nat>, order: seq<Id>)
    requires Working(keys, adjacency, hardOnly, degree, order, [], [])
    ensures IsTopological(EdgesOf(adjacency, hardOnly), order) && SetOf(order) <= keys
    ensures forall v :: v in order <==> v in keys && Grounded(keys, EdgesOf(adjacency, hardOnly), v)
  {
    hide Counted, Queued, EdgesOf, Grounded, IsTopological;
    assert order + [] == order;
    KahnEnd(keys, adjacency, hardOnly, degree, order);
  }

  ghost function ZeroDegree(degree: map<Id, nat>): set<Id> {
    set v | v in degree && degree[v] == 0
  }

  // ---------- the place of each service ----------

  /** One plus the last position of a service with an edge into v; 0 if the list has none. */
  ghost function LastInto(E: set<(Id, Id)>, order: seq<Id>, v: Id): (m: nat)
    ensures m <= |order| && (m > 0 ==> (order[m - 1], v) in E)
    ensures forall k | m <= k < |order| :: (order[k], v) !in E
  {
    if order == [] then 0
    else if (order[|order| - 1], v) in E then |order|
    else LastInto(E, order[..|order| - 1], v)
  }

  /** First the one whose last incoming edge leaves an earlier position; in byte order among equals. */
  ghost predicate Precedes(E: set<(Id, Id)>, order: seq<Id>, a: Id, b: Id) {
    var m, n := LastInto(E, order, a), LastInto(E, order, b);
    m < n || (m == n && Lexicographic.Le(a, b))
  }

  ghost predicate Ranked(E: set<(Id, Id)>, order: seq<Id>) {
    forall i, j | 0 <= i < j < |order| :: Precedes(E, order, order[i], order[j])
  }

  /** When all services with an edge into v are among the first n, the others do not matter. */
  lemma LastAmong(E: set<(Id, Id)>, order: seq<Id>, n: nat, v: Id)
    requires Distinct(order) && n <= |order| && forall u | (u, v) in E :: u in order[..n]
    ensures LastInto(E, order, v) == LastInto(E, order[..n], v) <= n
  {
    var m, m' := LastInto(E, order, v), LastInto(E, order[..n], v);
    forall k | n <= k < |order|
      ensures (order[k], v) !in E
    {
      assert order[k] !in order[..n];
    }
    assert m' > 0 ==> (order[m' - 1], v) in E;
    assert m > 0 ==> m <= n && order[m - 1] == order[..n][m - 1];
  }

  lemma LastStays(E: set<(Id, Id)>, order: seq<Id>, n: nat, j: nat)
    requires IsTopological(E, order) && j < n <= |order|
    ensures LastInto(E, order, order[j]) == LastInto(E, order[..n], order[j])
  {
    assert ForwardInto(E, order, order[j], j);
    assert forall u | u in order[..j] :: u in order[..n];
    LastAmong(E, order, n, order[j]);
  }

  lemma RankedAppend(E: set<(Id, Id)>, order: seq<Id>, x: Id)
    requires IsTopological(E, order + [x]) && Ranked(E, order)
    requires forall v | v in order :: Precedes(E, order + [x], v, x)
    ensures Ranked(E, order + [x])
  {
    var order' := order + [x];
    hide LastInto, IsTopological;
    forall i, j | 0 <= i < j < |order'|
      ensures Precedes(E, order', order'[i], order'[j])
    {
      if j < |order| {
        assert order'[..|order|] == order;
        LastStays(E, order', |order|, i);
        LastStays(E, order', |order|, j);
        assert Precedes(E, order, order[i], order[j]);
      } else {
        assert order'[i] in order;
      }
    }
  }

  /** The last popped service is the last one with an edge into what it releases. */
  lemma LastIsPopped(E: set<(Id, Id)>, order: seq<Id>, rest: seq<Id>, v: Id)
    requires order != [] && Distinct(order + rest) && forall u | (u, v) in E :: u in order
    ensures LastInto(E, order + rest, v) <= |order|
    ensures LastInto(E, order + rest, v) == |order| <==> (order[|order| - 1], v) in E
  {
    assert (order + rest)[..|order|] == order;
    LastAmong(E, order + rest, |order|, v);
  }

  /** What is queued or popped has all its dependencies popped, and is no target still to come. */
  lemma ReleasedServices(keys: set<Id>, adjacency: Adjacency, hardOnly: bool, degree: map<Id, nat>,
                         order: seq<Id>, queue: seq<Id>, extra: seq<Id>, v: Id)
    requires Working(keys, adjacency, hardOnly, degree, order, queue, extra) && v in order + queue
    ensures v !in extra && forall u | (u, v) in EdgesOf(adjacency, hardOnly) :: u in order
  {
    var S := adjacency.Keys - SetOf(order);
    InCountZero(adjacency, S, hardOnly, v);
    assert InCount(adjacency, S, hardOnly, v) == 0 && multiset(extra)[v] == 0;
    forall u | (u, v) in EdgesOf(adjacency, hardOnly)
      ensures u in order
    {
      assert u in adjacency.Keys;
      assert u !in S;
    }
  }

  /** Released services join the queue in byte order, behind those released earlier. */
  lemma RankTarget(keys: set<Id>, adjacency: Adjacency, hardOnly: bool, degree: map<Id, nat>, degree': map<Id, nat>,
                   order: seq<Id>, queue: seq<Id>, targets: seq<Id>, i: nat)
    requires i < |targets| && order != [] && Lexicographic.Sorted(targets)
    requires Ranked(EdgesOf(adjacency, hardOnly), order + queue)
    requires Working(keys, adjacency, hardOnly, degree, order, queue, targets[i..])
    requires Working(keys, adjacency, hardOnly, degree', order, queue + [targets[i]], targets[i + 1..])
    requires forall v :: v in targets <==> (order[|order| - 1], v) in EdgesOf(adjacency, hardOnly)
    ensures Ranked(EdgesOf(adjacency, hardOnly), order + (queue + [targets[i]]))
  {
    var E, x := EdgesOf(adjacency, hardOnly), targets[i];
    hide Working, LastInto, EdgesOf, IsTopological, Ranked, Precedes, Lexicographic.Sorted, SetOf, Distinct;
    forall v | v in order + queue
      ensures Precedes(E, order + (queue + [x]), v, x)
    {
      EarlierTarget(keys, adjacency, hardOnly, degree, degree', order, queue, targets, i, v);
    }
    WorkingOrder(keys, adjacency, hardOnly, degree', order, queue + [x], targets[i + 1..]);
    assert order + (queue + [x]) == (order + queue) + [x];
    RankedAppend(E, order + queue, x);
  }

  lemma EarlierTarget(keys: set<Id>, adjacency: Adjacency, hardOnly: bool, degree: map<Id, nat>,
                      degree': map<Id, nat>, order: seq<Id>, queue: seq<Id>, targets: seq<Id>, i: nat, v: Id)
    requires i < |targets| && order != [] && Lexicographic.Sorted(targets) && v in order + queue
    requires Working(keys, adjacency, hardOnly, degree, order, queue, targets[i..])
    requires Working(keys, adjacency, hardOnly, degree', order, queue + [targets[i]], targets[i + 1..])
    requires forall v :: v in targets <==> (order[|order| - 1], v) in EdgesOf(adjacency, hardOnly)
    ensures Precedes(EdgesOf(adjacency, hardOnly), order + (queue + [targets[i]]), v, targets[i])
  {
    var E, x := EdgesOf(adjacency, hardOnly), targets[i];
    hide Working, LastInto, EdgesOf, IsTopological, SetOf, Distinct;
    WorkingOrder(keys, adjacency, hardOnly, degree', order, queue + [x], targets[i + 1..]);
    ReleasedServices(keys, adjacency, hardOnly, degree', order, queue + [x], targets[i + 1..], x);
    LastIsPopped(E, order, queue + [x], x);
    ReleasedServices(keys, adjacency, hardOnly, degree, order, queue, targets[i..], v);
    LastIsPopped(E, order, queue + [x], v);
    assert x in targets;
    if v in targets {
      InByteOrder(targets, i, v);
    }
  }

  lemma InByteOrder(s: seq<Id>, i: nat, v: Id)
    requires Lexicographic.Sorted(s) && i < |s| && v in s && v !in s[i..]
    ensures Lexicographic.Le(v, s[i])
  {
    assert s == s[..i] + s[i..];
    var k :| 0 <= k < i && s[k] == v;
  }

  lemma WorkingOrder(keys: set<Id>, adjacency: Adjacency, hardOnly: bool, degree: map<Id, nat>,
                     order: seq<Id>, queue: seq<Id>, extra: seq<Id>)
    requires Working(keys, adjacency, hardOnly, degree, order, queue, extra)
    ensures IsTopological(EdgesOf(adjacency, hardOnly), order + queue) && Distinct(order + queue)
  {
  }

  /** Without popped services the queue has no edges into it, and is in byte order. */
  lemma RankedInitially(keys: set<Id>, adjacency: Adjacency, hardOnly: bool, degree: map<Id, nat>, queue: seq<Id>)
    requires Working(keys, adjacency, hardOnly, degree, [], queue, []) && Lexicographic.Sorted(queue)
    ensures Ranked(EdgesOf(adjacency, hardOnly), [] + queue)
  {
    var E := EdgesOf(adjacency, hardOnly);
    assert [] + queue == queue;
    forall v | v in queue
      ensures LastInto(E, queue, v) == 0
    {
      ReleasedServices(keys, adjacency, hardOnly, degree, [], queue, [], v);
    }
    assert forall i | 0 <= i < |queue| :: queue[i] in queue;
  }

  /** A set of services has one order that is topological and ranked. */
  lemma {:induction false} RankedIsUnique(E: set<(Id, Id)>, a: seq<Id>, b: seq<Id>, n: nat)
    requires IsTopological(E, a) && Ranked(E, a) && IsTopological(E, b) && Ranked(E, b)
    requires SetOf(a) == SetOf(b) && n <= |a|
    ensures |a| == |b| && a[..n] == b[..n]
  {
    SetOfSize(a);
    SetOfSize(b);
    if n > 0 {
      RankedIsUnique(E, a, b, n - 1);
      hide IsTopological, Ranked, SetOf;
      SameNext(E, a, b, n - 1);
      assert a[..n] == a[..n - 1] + [a[n - 1]] && b[..n] == b[..n - 1] + [b[n - 1]];
    }
  }

  lemma SameNext(E: set<(Id, Id)>, a: seq<Id>, b: seq<Id>, n: nat)
    requires IsTopological(E, a) && Ranked(E, a) && IsTopological(E, b) && Ranked(E, b)
    requires SetOf(a) == SetOf(b) && n < |a| == |b| && a[..n] == b[..n]
    ensures a[n] == b[n]
  {
    var x, y := a[n], b[n];
    if x != y {
      var i := LaterIn(a, b, n);
      var j := LaterIn(b, a, n);
      SameLast(E, a, b, n, i);
      SameLast(E, b, a, n, j);
      hide LastInto, IsTopological;
      assert Precedes(E, a, a[n], a[j]) && Precedes(E, b, b[n], b[i]);
      if Lexicographic.Le(x, y) && Lexicographic.Le(y, x) {
        Lexicographic.LeAntisymmetric(x, y);
      }
    }
  }

  lemma LaterIn(a: seq<Id>, b: seq<Id>, n: nat) returns (i: nat)
    requires Distinct(a) && Distinct(b) && SetOf(a) == SetOf(b) && n < |a| == |b|
    requires a[..n] == b[..n] && a[n] != b[n]
    ensures n < i < |b| && b[i] == a[n]
  {
    assert a[n] in SetOf(b);
    i :| 0 <= i < |b| && b[i] == a[n];
    forall k | 0 <= k < n
      ensures a[k] == b[k]
    {
      assert a[..n][k] == b[..n][k];
    }
  }

  /** While two orders agree, the next service of one has the same last dependency in both. */
  lemma SameLast(E: set<(Id, Id)>, a: seq<Id>, b: seq<Id>, n: nat, i: nat)
    requires IsTopological(E, a) && IsTopological(E, b) && n < |a| && n < i < |b|
    requires a[..n] == b[..n] && b[i] == a[n]
    ensures LastInto(E, a, a[n]) == LastInto(E, b, a[n]) == LastInto(E, a[..n], a[n])
  {
    assert ForwardInto(E, a, a[n], n);
    LastAmong(E, a, n, a[n]);
    LastAmong(E, b, n, b[i]);
  }

  lemma {:induction false} DistinctMultiset(s: seq<Id>)
    requires Distinct(s)
    ensures multiset(s) == multiset(SetOf(s))
  {
    if s != [] {
      var n := |s| - 1;
      DistinctMultiset(s[..n]);
      assert s == s[..n] + [s[n]];
      assert SetOf(s) == SetOf(s[..n]) + {s[n]};
      assert s[n] !in SetOf(s[..n]);
    }
  }

  // ---------- grounded services ----------

  /** Every chain of edges into v stays among registered services and repeats none. */
  ghost predicate Grounded(keys: set<Id>, E: set<(Id, Id)>, v: Id) {
    forall p | IsPath(E, p) && p[|p| - 1] == v :: SetOf(p) <= keys && Distinct(p)
  }

  /** Some source of an edge into v is not listed. */
  ghost predicate Blocked(E: set<(Id, Id)>, order: seq<Id>, v: Id) {
    exists u :: (u, v) in E && u !in order
  }

  lemma {:induction false} WalkOut(keys: set<Id>, E: set<(Id, Id)>, order: seq<Id>, v: Id, n: nat) returns (p: seq<Id>)
    requires forall x | x in keys && x !in order :: Blocked(E, order, x)
    requires v in keys && v !in order
    ensures IsPath(E, p) && p[|p| - 1] == v
    ensures p[0] in keys ==> |p| == n + 1 && SetOf(p) <= keys && p[0] !in order
    decreases n
  {
    if n == 0 {
      p := [v];
    } else {
      assert Blocked(E, order, v);
      var u :| (u, v) in E && u !in order;
      if u in keys {
        var q := WalkOut(keys, E, order, u, n - 1);
        Join(E, q, [v]);
        p := q + [v];
        SetOfAppend(q, [v]);
      } else {
        p := [u, v];
      }
    }
  }

  /** What Kahn's algorithm lists is exactly the grounded services. */
  lemma ListedAreGrounded(keys: set<Id>, E: set<(Id, Id)>, order: seq<Id>)
    requires IsTopological(E, order) && SetOf(order) <= keys
    requires forall x | x in keys && x !in order :: Blocked(E, order, x)
    ensures forall v :: v in order <==> v in keys && Grounded(keys, E, v)
  {
    forall v | v in order
      ensures v in keys && Grounded(keys, E, v)
    {
      assert v in SetOf(order);
      var k :| 0 <= k < |order| && order[k] == v;
      forall p | IsPath(E, p) && p[|p| - 1] == v
        ensures SetOf(p) <= keys && Distinct(p)
      {
        TopologicalPathRises(E, order, p, k);
        assert SetOf(order[..k + 1]) <= SetOf(order);
      }
    }
    forall v | v in keys && v !in order
      ensures !Grounded(keys, E, v)
    {
      var p := WalkOut(keys, E, order, v, |keys|);
      if p[0] in keys {
        var i, j := Repeats(p, keys);
      } else {
        assert p[0] in SetOf(p);
      }
    }
  }

  lemma KahnEnd(keys: set<Id>, adjacency: Adjacency, hardOnly: bool, degree: map<Id, nat>, order: seq<Id>)
    requires Counted(keys, adjacency, hardOnly, degree, adjacency.Keys - SetOf(order), [])
    requires Queued(keys, EdgesOf(adjacency, hardOnly), degree, order)
    ensures IsTopological(EdgesOf(adjacency, hardOnly), order) && SetOf(order) <= keys
    ensures forall v :: v in order <==> v in keys && Grounded(keys, EdgesOf(adjacency, hardOnly), v)
  {
    var E := EdgesOf(adjacency, hardOnly);
    forall v | v in keys && v !in order
      ensures Blocked(E, order, v)
    {
      InCountZero(adjacency, adjacency.Keys - SetOf(order), hardOnly, v);
    }
    ListedAreGrounded(keys, E, order);
  }

  /** The edges between registered services. */
  ghost function Inner(keys: set<Id>, E: set<(Id, Id)>): set<(Id, Id)> {
    set e | e in E && e.0 in keys && e.1 in keys
  }

  /** Every edge into a registered service comes from a registered service. */
  ghost predicate SourcesRegistered(keys: set<Id>, E: set<(Id, Id)>) {
    forall u, v :: (u, v) in E && v in keys ==> u in keys
  }

  lemma {:induction false} InnerPath(keys: set<Id>, E: set<(Id, Id)>, p: seq<Id>)
    requires SourcesRegistered(keys, E) && IsPath(E, p) && p[|p| - 1] in keys
    ensures IsPath(Inner(keys, E), p) && SetOf(p) <= keys
  {
    var n := |p| - 1;
    if n > 0 {
      assert (p[n - 1], p[n]) in E;
      InnerPath(keys, E, p[..n]);
      Join(Inner(keys, E), p[..n], [p[n]]);
      assert p == p[..n] + [p[n]];
      SetOfAppend(p[..n], [p[n]]);
    }
  }

  /** Without cycles and unregistered sources, all registered services are grounded. */
  lemma AllGrounded(keys: set<Id>, E: set<(Id, Id)>)
    requires SourcesRegistered(keys, E) && Acyclic(Inner(keys, E))
    ensures forall v | v in keys :: Grounded(keys, E, v)
  {
    forall v, p | v in keys && IsPath(E, p) && p[|p| - 1] == v
      ensures SetOf(p) <= keys && Distinct(p)
    {
      InnerPath(keys, E, p);
      forall i, j | 0 <= i < j < |p|
        ensures p[i] != p[j]
      {
        var c := p[i..j + 1];
        assert IsPath(Inner(keys, E), c) && |c| > 1;
      }
    }
  }

  // ---------- chains ----------

  /** A chain of registered services, all but the last of them grounded. */
  ghost predicate GroundedChain(keys: set<Id>, E: set<(Id, Id)>, p: seq<Id>) {
    IsPath(E, p) && SetOf(p) <= keys && forall i | 0 <= i < |p| - 1 :: Grounded(keys, E, p[i])
  }

  // ---------- the longest-chain table ----------

  datatype Entry = Entry(len: nat, pred: Option<Id>)

  ghost function Plus(done: set<Id>, current: Option<Id>): set<Id> {
    if current.Some? then done + {current.value} else done
  }

  /**
    The table after the services of `done`, while the current service's edges to `tos` have
    been applied: an entry is one more than its predecessor's, and no applied edge would
    improve it.
   */
  ghost predicate Table(keys: set<Id>, E: set<(Id, Id)>, dp: map<Id, Entry>, done: set<Id>,
                        current: Option<Id>, tos: seq<Id>)
  {
    && dp.Keys == keys
    && (forall v | v in keys && dp[v].pred.None? :: dp[v].len == 0)
    && (forall v | v in keys && dp[v].pred.Some? :: Linked(keys, E, dp, Plus(done, current), v))
    && (forall u, v | u in done && u in keys && v in keys && (u, v) in E :: dp[v].len > dp[u].len)
    && (current.Some? && current.value in keys ==>
          forall v | v in tos && v in keys :: dp[v].len > dp[current.value].len)
  }

  ghost predicate Linked(keys: set<Id>, E: set<(Id, Id)>, dp: map<Id, Entry>, done: set<Id>, v: Id)
    requires dp.Keys == keys && v in keys && dp[v].pred.Some?
  {
    var u := dp[v].pred.value;
    u in keys && u in done && (u, v) in E && dp[v].len == dp[u].len + 1
  }

  lemma TableStart(keys: set<Id>, E: set<(Id, Id)>, dp: map<Id, Entry>, done: set<Id>, node: Id)
    requires Table(keys, E, dp, done, None, [])
    ensures Table(keys, E, dp, done, Some(node), [])
  {
  }

  lemma TableStep(keys: set<Id>, E: set<(Id, Id)>, dp: map<Id, Entry>, done: set<Id>, node: Id, tos: seq<Id>, to: Id)
    requires Table(keys, E, dp, done, Some(node), tos)
    requires node in keys && (node, to) in E && to !in done && to != node
    ensures if to in keys && dp[node].len + 1 > dp[to].len
            then Table(keys, E, dp[to := Entry(dp[node].len + 1, Some(node))], done, Some(node), tos + [to])
            else Table(keys, E, dp, done, Some(node), tos + [to])
  {
  }

  lemma TableNext(keys: set<Id>, E: set<(Id, Id)>, dp: map<Id, Entry>, done: set<Id>, node: Id, tos: seq<Id>)
    requires Table(keys, E, dp, done, Some(node), tos)
    requires forall v | (node, v) in E :: v in tos
    ensures Table(keys, E, dp, done + {node}, None, [])
  {
  }

  /** In the finished table an entry is at least as long as any grounded chain into it. */
  lemma {:induction false} TableBounds(keys: set<Id>, E: set<(Id, Id)>, dp: map<Id, Entry>, done: set<Id>, p: seq<Id>)
    requires Table(keys, E, dp, done, None, []) && GroundedChain(keys, E, p)
    requires forall v | v in keys && Grounded(keys, E, v) :: v in done
    ensures p[|p| - 1] in keys && |p| <= dp[p[|p| - 1]].len + 1
  {
    var n := |p| - 1;
    assert p[n] in SetOf(p);
    if n > 0 {
      assert (p[n - 1], p[n]) in E && Grounded(keys, E, p[n - 1]);
      assert SetOf(p[..n]) <= SetOf(p);
      TableBounds(keys, E, dp, done, p[..n]);
    }
  }

  /** The part of the critical path found so far, with table lengths rising to those of its end. */
  ghost predicate PathTail(keys: set<Id>, E: set<(Id, Id)>, dp: map<Id, Entry>, done: set<Id>, p: seq<Id>)
  {
    && dp.Keys == keys && IsPath(E, p) && SetOf(p) <= keys
    && (forall i, j | 0 <= i < j < |p| :: dp[p[i]].len < dp[p[j]].len)
    && forall i | 0 <= i < |p| - 1 :: p[i] in done
  }

  lemma ExtendTail(keys: set<Id>, E: set<(Id, Id)>, dp: map<Id, Entry>, done: set<Id>, p: seq<Id>, u: Id)
    requires Table(keys, E, dp, done, None, []) && PathTail(keys, E, dp, done, p)
    requires p[0] in keys && dp[p[0]].pred == Some(u)
    ensures u in keys && dp[p[0]].len == dp[u].len + 1
    ensures PathTail(keys, E, dp, done, [u] + p)
  {
  }

  lemma TailIsLongest(keys: set<Id>, E: set<(Id, Id)>, dp: map<Id, Entry>, done: set<Id>, p: seq<Id>)
    requires Table(keys, E, dp, done, None, []) && PathTail(keys, E, dp, done, p)
    requires forall v :: v in done <==> v in keys && Grounded(keys, E, v)
    requires p[|p| - 1] in keys && |p| == dp[p[|p| - 1]].len + 1
    requires forall v | v in keys :: dp[v].len <= dp[p[|p| - 1]].len
    ensures GroundedChain(keys, E, p) && Distinct(p)
    ensures forall q | GroundedChain(keys, E, q) :: |q| <= |p|
  {
    forall i, j | 0 <= i < j < |p|
      ensures p[i] != p[j]
    {
      assert p[i] in SetOf(p) && p[j] in SetOf(p);
    }
    forall q | GroundedChain(keys, E, q)
      ensures |q| <= |p|
    {
      TableBounds(keys, E, dp, done, q);
    }
  }
}
