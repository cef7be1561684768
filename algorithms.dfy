/**
 * TopoSort and IsAcyclic of graph/algorithms.go: Kahn's algorithm over the cached
 * indegrees of the stored vertices, following backward and undirected edges by the name
 * of the vertex they point to.
 */
module Algorithms {
  import opened Wrappers
  import opened Edges
  import opened Adjacency
  import opened Vertices
  import opened Graphs
  import opened SimpleQueues
  import opened Kahn
  import opened Shapes

  /** The first loop of TopoSort: every stored name's counter starts at its vertex's Indegree(). */
  method StartCounters<D>(verteces: map<string, Vertex<D>>, ghost G: Digraph<string>) returns (counters: map<string, int>)
    requires WellFormed(G) && G.keys == verteces.Keys
    requires forall k | k in verteces :: G.indeg[k] == verteces[k].indegree
    ensures counters.Keys == verteces.Keys
    ensures forall k :: Lookup(counters, k) == Initial(G, k)
  {
    counters := map[];
    var rest := verteces.Keys;
    while rest != {}
      invariant rest <= verteces.Keys
      invariant counters.Keys == verteces.Keys - rest
      invariant forall k | k in counters :: counters[k] == G.indeg[k]
      decreases rest
    {
      var k :| k in rest;
      var d := verteces[k].Indegree();
      counters := counters[k := d];
      rest := rest - {k};
    }
  }

  /** The second loop of TopoSort: the queue holds, in some order, the names whose counter
      is 0. */
  method SeedQueue(counters: map<string, int>, ghost G: Digraph<string>) returns (queue: seq<string>)
    requires WellFormed(G) && counters.Keys == G.keys
    requires forall k :: Lookup(counters, k) == Initial(G, k)
    ensures Progress(G, counters, queue, [], [])
  {
    queue := [];
    var rest := counters.Keys;
    while rest != {}
      invariant rest <= G.keys
      invariant Distinct(queue) && forall i | 0 <= i < |queue| :: queue[i] in G.keys
      invariant forall k :: k in queue <==> k in G.keys - rest && Initial(G, k) == 0
      invariant Exact(G) ==> PredecessorsFirst(G, queue)
      decreases rest
    {
      var k :| k in rest;
      if counters[k] == 0 {
        if Exact(G) {
          SeedOrdered(G, queue, k);
        }
        AppendDistinct(queue, k, G.keys);
        queue := queue + [k];
      }
      rest := rest - {k};
    }
    Seeded(G, counters, queue);
  }

  /** The inner loop of TopoSort for the name `enq[n - 1]`, whose backward and undirected
      edges are `edgeList`: each target's counter drops by one, and the target is queued when
      its counter reaches exactly 0. */
  method Relax<D>(edgeList: seq<Link<Vertex<D>>>, counters: map<string, int>, queue: seq<string>,
                  ghost G: Digraph<string>, ghost enq: seq<string>, ghost n: nat)
    returns (cur: map<string, int>, queue': seq<string>, ghost added: seq<string>)
    requires WellFormed(G) && 0 < n <= |enq|
    requires enq[n - 1] in G.succ && Targets(G.succ[enq[n - 1]], edgeList)
    requires Progress(G, counters, enq, enq[..n - 1], [])
    ensures queue' == queue + added
    ensures Progress(G, cur, enq + added, (enq + added)[..n], [])
  {
    ghost var s := G.succ[enq[n - 1]];
    ghost var done := enq[..n - 1];
    ghost var all := enq;
    cur := counters;
    queue' := queue;
    added := [];
    assert s[..0] == [] && enq + added == enq;
    var i := 0;
    while i < |edgeList|
      invariant 0 <= i <= |edgeList| == |s|
      invariant queue' == queue + added && all == enq + added
      invariant Progress(G, cur, all, done, s[..i])
    {
      var adjoinId := edgeList[i].to.name;
      assert adjoinId == s[i];
      Extend(enq, added, n);
      ghost var before := cur;
      cur := cur[adjoinId := Lookup(cur, adjoinId) - 1];
      if cur[adjoinId] == 0 {
        DecrementQueues(G, before, all, n, done, s, i);
        Regroup(enq, added, adjoinId);
        queue' := queue' + [adjoinId];
        added := added + [adjoinId];
        all := all + [adjoinId];
      } else {
        DecrementKeeps(G, before, all, done, s, i);
      }
      i := i + 1;
    }
    assert s[..i] == s;
    Extend(enq, added, n);
    FinishVertex(G, cur, all, n);
  }

  /** One more emitted vertex keeps the emitted list in step with the released names. */
  lemma Emit<K, V>(emitted: seq<V>, m: map<K, V>, order: seq<K>, added: seq<K>, n: nat)
    requires n < |order| && forall i | 0 <= i <= n :: order[i] in m
    requires |emitted| == n && forall i | 0 <= i < n :: emitted[i] == m[order[i]]
    ensures forall i | 0 <= i < n + 1 :: (emitted + [m[order[n]]])[i] == m[(order + added)[i]]
  {
  }

  /** One round of the main loop of TopoSort, for the name `id` just taken from the front
      of the queue: its vertex is emitted and its edges relaxed. */
  method VisitNext<D>(g: AbstractGraph<D>, ghost G: Digraph<string>, ghost stored: map<string, Vertex<D>>,
                  sorted: seq<Vertex<D>>, counters: map<string, int>, queue: seq<string>,
                  ghost order: seq<string>, ghost n: nat)
    returns (sorted': seq<Vertex<D>>, cur: map<string, int>, queue': seq<string>, ghost added: seq<string>)
    requires WellFormed(G) && G.keys == stored.Keys && g.verteces == stored
    requires Follows(G, stored)
    requires n < |order| && queue == order[n..]
    requires Progress(G, counters, order, order[..n], [])
    requires |sorted| == n && forall i | 0 <= i < n :: sorted[i] == stored[order[i]]
    ensures n + 1 <= |order + added| <= |G.keys|
    ensures queue' == (order + added)[n + 1..]
    ensures Progress(G, cur, order + added, (order + added)[..n + 1], [])
    ensures |sorted'| == n + 1 && forall i | 0 <= i < n + 1 :: sorted'[i] == stored[(order + added)[i]]
  {
    var id := queue[0];
    var rest := queue[1..];
    assert Targets(G.succ[id], BackwardView(stored[id].edges));
    var found := g.GetVertex(id);
    var v := found.value;
    sorted' := sorted + [v];
    var edgeList := v.EdgesBackward();
    cur, queue', added := Relax(edgeList, counters, rest, G, order, n + 1);
    Tail(order, added, n + 1);
    Extend(order, added, n + 1);
    Emit(sorted, stored, order, added, n);
    DistinctBound(order + added, G.keys);
  }

  /** The main loop of TopoSort: names are taken from the front of the queue until it is
      empty; each one's vertex is emitted and its edges relaxed. */
  method Release<D>(g: AbstractGraph<D>, ghost G: Digraph<string>, counters: map<string, int>, queue: seq<string>)
    returns (sorted: seq<Vertex<D>>, work: map<string, int>, ghost order: seq<string>)
    requires WellFormed(G) && G.keys == g.verteces.Keys
    requires forall k | k in g.verteces :: k in G.succ && Targets(G.succ[k], BackwardView(g.verteces[k].edges))
    requires Progress(G, counters, queue, [], [])
    ensures Progress(G, work, order, order, [])
    ensures |sorted| == |order| && forall i | 0 <= i < |order| :: sorted[i] == g.verteces[order[i]]
  {
    DistinctBound(queue, G.keys);
    work := counters;
    var pending := queue;
    order := queue;
    ghost var n := 0;
    sorted := [];
    ghost var stored := g.verteces;
    while true
      invariant 0 <= n <= |order| <= |G.keys|
      invariant pending == order[n..]
      invariant Progress(G, work, order, order[..n], [])
      invariant g.verteces == stored
      invariant |sorted| == n && forall i | 0 <= i < n :: sorted[i] == stored[order[i]]
      invariant Follows(G, stored)
      decreases |G.keys| - n
    {
      if pending == [] {
        break;
      }
      ghost var added;
      sorted, work, pending, added := VisitNext(g, G, stored, sorted, work, pending, order, n);
      order := order + added;
      n := n + 1;
    }
    assert order[..n] == order;
  }

  /**
   * TopoSort: the working counters start at each stored vertex's Indegree(); the names
   * whose counter is 0 are queued; each name taken from the queue is emitted and the
   * counter of every name its backward and undirected edges lead to is decremented, that
   * name being queued when its counter reaches exactly 0. The result lists each released
   * vertex once; the released names are exactly those whose cached indegree is covered by
   * the edges from released names. When every cached indegree is the true number of such
   * edges, each vertex comes after all its predecessors, and the result is short of the
   * stored vertices exactly when the graph has a cycle.
   */
  method TopoSort<D>(g: AbstractGraph<D>)
    returns (sorted: seq<Vertex<D>>, err: Option<GraphError>, ghost order: seq<string>, ghost G: Digraph<string>)
    ensures WellFormed(G) && G.keys == g.verteces.Keys
    ensures forall k | k in g.verteces :: G.indeg[k] == g.verteces[k].indegree
    ensures forall k | k in g.verteces :: Targets(G.succ[k], BackwardView(g.verteces[k].edges))
    ensures err == None
    ensures |sorted| == |order| && Distinct(order)
    ensures forall i | 0 <= i < |order| :: order[i] in g.verteces && sorted[i] == g.verteces[order[i]]
    ensures |sorted| <= |g.verteces|
    ensures Released(G, order)
    ensures Exact(G) ==> PredecessorsFirst(G, order)
    ensures Exact(G) ==> (|sorted| < |g.verteces| <==> exists c :: IsCycle(G, c))
    ensures Sound(g) ==> Exact(G)
  {
    G := Shape(g);
    var verteces := g.verteces;
    var counters := StartCounters(verteces, G);
    var queue := SeedQueue(counters, G);
    var work;
    sorted, work, order := Release(g, G, counters, queue);
    Outcome(G, work, order);
    err := None;
    if Sound(g) {
      ShapeDetermined(g, G);
      HealthyExact(g);
    }
  }

  /** Why IsAcyclic rejects a graph. */
  datatype AcyclicError = NotAcyclic

  /**
   * IsAcyclic: the graph is rejected when TopoSort releases fewer vertices than are stored.
   * It accepts exactly when every stored name is released, and, when every cached indegree
   * is the true number of incoming edges, exactly when the graph has no cycle.
   */
  method IsAcyclic<D>(g: AbstractGraph<D>) returns (err: Option<AcyclicError>, ghost order: seq<string>, ghost G: Digraph<string>)
    ensures WellFormed(G) && G.keys == g.verteces.Keys
    ensures forall k | k in g.verteces :: G.indeg[k] == g.verteces[k].indegree
    ensures forall k | k in g.verteces :: Targets(G.succ[k], BackwardView(g.verteces[k].edges))
    ensures Released(G, order)
    ensures err.None? <==> forall k | k in g.verteces :: k in order
    ensures Exact(Shape(g)) ==> (err.None? <==> !exists c :: IsCycle(Shape(g), c))
    ensures Sound(g) ==> (err.None? <==> !exists c :: IsCycle(Shape(g), c))
  {
    var sorted, sortErr;
    sorted, sortErr, order, G := TopoSort(g);
    match sortErr {
      case None =>
        if |sorted| < |g.verteces| {
          err := Some(NotAcyclic);
        } else {
          err := None;
        }
    }
    DistinctBound(order, G.keys);
    if forall k | k in g.verteces :: k in order {
      DistinctCovers(order, G.keys);
    }
    ShapeDetermined(g, G);
  }
}
