/**
 * The graph as TopoSort of graph/algorithms.go reads it, and why its cached indegrees are
 * the true numbers of incoming edges on a graph kept in the shape Adjoin builds.
 */
module Shapes {
  import opened Edges
  import opened Adjacency
  import opened Vertices
  import opened Graphs
  import opened Kahn

  /** The names of the vertices the links point to, in order. */
  ghost function TargetNames<D>(ls: seq<Link<Vertex<D>>>): (ns: seq<string>)
    reads set l | l in ls :: l.to
    ensures |ns| == |ls| && forall i | 0 <= i < |ls| :: ns[i] == ls[i].to.name
  {
    if ls == [] then [] else TargetNames(ls[..|ls| - 1]) + [ls[|ls| - 1].to.name]
  }

  /** `names` lists, in order, the names of the vertices the links point to. */
  ghost predicate Targets<D>(names: seq<string>, ls: seq<Link<Vertex<D>>>)
    reads set l | l in ls :: l.to
  {
    |names| == |ls| && forall i | 0 <= i < |ls| :: names[i] == ls[i].to.name
  }

  /** Every stored name has, in `G`, the list of names its vertex's backward and undirected
      edges lead to. */
  ghost predicate Follows<D>(G: Digraph<string>, stored: map<string, Vertex<D>>)
    reads stored.Values, set k, l | k in stored && l in BackwardView(stored[k].edges) :: l.to
  {
    forall k | k in stored :: k in G.succ && Targets(G.succ[k], BackwardView(stored[k].edges))
  }

  /** The vertices the backward and undirected edges of the stored vertices point to. */
  ghost function Heads<D>(g: AbstractGraph<D>): set<Vertex<D>>
    reads g, g.verteces.Values
  {
    set v, l | v in g.verteces.Values && l in BackwardView(v.edges) :: l.to
  }

  /** The graph as TopoSort reads it: the stored names, their cached indegrees, and for
      each name the names EdgesBackward leads to. */
  ghost function Shape<D>(g: AbstractGraph<D>): (G: Digraph<string>)
    reads g, g.verteces.Values, Heads(g)
    ensures WellFormed(G) && G.keys == g.verteces.Keys
    ensures forall k | k in g.verteces :: G.indeg[k] == g.verteces[k].indegree
    ensures forall k | k in g.verteces :: Targets(G.succ[k], BackwardView(g.verteces[k].edges))
  {
    Digraph(g.verteces.Keys,
            map k | k in g.verteces :: g.verteces[k].indegree,
            map k | k in g.verteces :: TargetNames(BackwardView(g.verteces[k].edges)))
  }

  /** The facts TopoSort and IsAcyclic state about their `G` pin it down: it is Shape(g). */
  lemma ShapeDetermined<D>(g: AbstractGraph<D>, G: Digraph<string>)
    requires WellFormed(G) && G.keys == g.verteces.Keys
    requires forall k | k in g.verteces :: G.indeg[k] == g.verteces[k].indegree
    requires forall k | k in g.verteces :: Targets(G.succ[k], BackwardView(g.verteces[k].edges))
    ensures G == Shape(g)
  {
    var S := Shape(g);
    assert G.indeg == S.indeg;
    forall k | k in G.keys
      ensures G.succ[k] == S.succ[k]
    {
    }
    assert G.succ == S.succ;
  }

  // Counting the links of one vertex by the vertex at their far end.

  /** The end of `l` that is not `me` (for a link anchored at `me`). */
  function Other<V(==)>(l: Link<V>, me: V): V {
    if l.to == me then l.from else l.to
  }

  /** The number of links of `s` whose far end, seen from `me`, lies in `Q`. */
  function CountTo<V(==)>(s: seq<Link<V>>, me: V, Q: set<V>): (n: nat)
    ensures n <= |s|
  {
    if s == [] then 0 else (if Other(s[0], me) in Q then 1 else 0) + CountTo(s[1..], me, Q)
  }

  /** Counting over two lists one after the other adds up. */
  lemma {:induction false} CountToAppend<V>(a: seq<Link<V>>, b: seq<Link<V>>, me: V, Q: set<V>)
    ensures CountTo(a + b, me, Q) == CountTo(a, me, Q) + CountTo(b, me, Q)
  {
    if a != [] {
      assert (a + b)[0] == a[0] && (a + b)[1..] == a[1..] + b;
      CountToAppend(a[1..], b, me, Q);
    } else {
      assert a + b == b;
    }
  }

  /** Taking one far end out of `Q` splits the count in two. */
  lemma {:induction false} CountToSplit<V>(s: seq<Link<V>>, me: V, Q: set<V>, y: V)
    requires y in Q
    ensures CountTo(s, me, Q) == CountTo(s, me, Q - {y}) + CountTo(s, me, {y})
  {
    if s != [] {
      CountToSplit(s[1..], me, Q, y);
    }
  }

  /** When every far end lies in `Q`, every link is counted. */
  lemma {:induction false} CountToAll<V>(s: seq<Link<V>>, me: V, Q: set<V>)
    requires forall l | l in s :: Other(l, me) in Q
    ensures CountTo(s, me, Q) == |s|
  {
    if s != [] {
      assert s[0] in s;
      CountToAll(s[1..], me, Q);
    }
  }

  /** With no far end allowed, nothing is counted. */
  lemma {:induction false} CountToNone<V>(s: seq<Link<V>>, me: V)
    ensures CountTo(s, me, {}) == 0
  {
    if s != [] {
      CountToNone(s[1..], me);
    }
  }

  /** No link of a list without self-loops has `me` at its far end. */
  lemma {:induction false} CountToSelf<V>(s: seq<Link<V>>, me: V)
    requires forall l | l in s :: l.from != l.to
    ensures CountTo(s, me, {me}) == 0
  {
    if s != [] {
      assert s[0] in s;
      CountToSelf(s[1..], me);
    }
  }

  /** The number of types in `ks` that the view `d` selects. */
  function Selected(ks: seq<EdgeType>, d: Direction): (n: nat)
    ensures n <= |ks|
  {
    if ks == [] then 0 else (if Selects(d, ks[0]) then 1 else 0) + Selected(ks[1..], d)
  }

  /** On a list anchored at `me`, the links of a view that lead to `u` are the links toward
      `u` whose type the view selects. */
  lemma {:induction false} ViewCountKinds<V>(s: seq<Link<V>>, me: V, u: V, d: Direction)
    requires Anchored(s, me) && u != me
    ensures CountTo(View(s, d), me, {u}) == Selected(KindsToward(s, u), d)
  {
    if s != [] {
      var head := if Selects(d, s[0].kind) then [s[0]] else [];
      assert View(s, d) == head + View(s[1..], d);
      assert Anchored(s[1..], me) by {
        forall i | 0 <= i < |s[1..]|
          ensures s[1..][i] == s[i + 1]
        {
        }
      }
      ViewCountKinds(s[1..], me, u, d);
      CountToAppend(head, View(s[1..], d), me, {u});
      assert Other(s[0], me) == u <==> s[0].Touches(u);
      if head != [] {
        assert head[1..] == [];
        assert CountTo(head, me, {u}) == if s[0].Touches(u) then 1 else 0;
      }
      var ks := KindsToward(s, u);
      if s[0].Touches(u) {
        assert ks[0] == s[0].kind && ks[1..] == KindsToward(s[1..], u);
      } else {
        assert ks == KindsToward(s[1..], u);
      }
    }
  }

  /** A typed mirror pairs every outgoing link of one side with an incoming one of the other. */
  lemma MirrorSelected<V>(su: seq<Link<V>>, w: V, sw: seq<Link<V>>, u: V)
    requires TypedMirror(su, w, sw, u)
    ensures Selected(KindsToward(su, w), Out) == Selected(KindsToward(sw, u), In)
  {
    var ku, kw := KindsToward(su, w), KindsToward(sw, u);
    if |ku| == 1 {
      assert ku[1..] == [] && kw[1..] == [];
    }
  }

  // The stored graph.

  /** Every link held by a stored vertex has both of its ends stored. */
  ghost predicate Closed<D>(g: AbstractGraph<D>)
    reads g, g.verteces.Values
  {
    forall u, l | u in g.verteces.Values && l in u.edges :: l.from in g.verteces.Values && l.to in g.verteces.Values
  }

  /** Every stored vertex's cached counters agree with its list. */
  ghost predicate CountersMatch<D>(g: AbstractGraph<D>)
    reads g, g.verteces.Values
  {
    forall u | u in g.verteces.Values :: DegreesMatch(u.State())
  }

  /** A graph whose cached indegrees TopoSort can trust: every vertex stored under its own
      name, lists in the shape Adjoin builds (typed mirror included), no link leading out of
      the graph, and counters that agree with the lists. */
  ghost predicate Sound<D>(g: AbstractGraph<D>)
    reads g, g.verteces.Values
  {
    g.KeyedByName() && g.Healthy() && Closed(g) && CountersMatch(g)
  }

  /** Among links that all lead away from `me` to vertices of `vs`, where only `w` carries
      its name, the names TargetNames lists include `w`'s name once per link to `w`. */
  lemma {:induction false} TargetNamesCount<D>(ls: seq<Link<Vertex<D>>>, me: Vertex<D>, w: Vertex<D>, vs: set<Vertex<D>>)
    requires forall l | l in ls :: l.to != me && l.to in vs
    requires forall a | a in vs && a.name == w.name :: a == w
    ensures multiset(TargetNames(ls))[w.name] == CountTo(ls, me, {w})
  {
    if ls != [] {
      var init, last := ls[..|ls| - 1], ls[|ls| - 1];
      assert ls == init + [last];
      assert last in ls;
      forall l | l in init
        ensures l.to != me && l.to in vs
      {
        assert l in ls;
      }
      TargetNamesCount(init, me, w, vs);
      CountToAppend(init, [last], me, {w});
      assert [last][1..] == [];
      assert last.to.name == w.name <==> last.to == w;
    }
  }

  /** Every link of a view of a list anchored at `me` joins `me` to another vertex; the
      outgoing ones lead away from `me`. */
  lemma ViewLeaves<V>(s: seq<Link<V>>, me: V, d: Direction)
    requires Anchored(s, me)
    ensures forall l | l in View(s, d) :: l.from != l.to && (d == Out ==> l.to != me)
  {
    forall l | l in View(s, d)
      ensures l.from != l.to && (d == Out ==> l.to != me)
    {
      assert l in s;
    }
  }

  /** In a closed graph the backward and undirected links of a stored vertex lead to stored
      vertices. */
  lemma ClosedTargets<D>(g: AbstractGraph<D>, p: string)
    requires Closed(g) && p in g.verteces
    ensures forall l | l in BackwardView(g.verteces[p].edges) :: l.to in g.verteces.Values
  {
    forall l | l in BackwardView(g.verteces[p].edges)
      ensures l.to in g.verteces.Values
    {
      assert l in g.verteces[p].edges;
    }
  }

  /** In a sound graph the edges TopoSort sees from `p` to `v` are the incoming links that
      `v` holds toward the vertex stored under `p`. */
  lemma OccIsCountTo<D>(g: AbstractGraph<D>, p: string, v: string)
    requires Sound(g) && p in g.verteces && v in g.verteces
    ensures Occ(Shape(g), p, v) == CountTo(ForwardView(g.verteces[v].edges), g.verteces[v], {g.verteces[p]})
  {
    var M := g.verteces;
    var mp, mv := M[p], M[v];
    var B := BackwardView(mp.edges);
    assert Anchored(mp.edges, mp) && Anchored(mv.edges, mv);
    ViewLeaves(mp.edges, mp, Out);
    ClosedTargets(g, p);
    forall a | a in M.Values && a.name == mv.name
      ensures a == mv
    {
      var n :| n in M && M[n] == a;
    }
    TargetNamesCount(B, mp, mv, M.Values);
    if p == v {
      CountToSelf(B, mp);
      ViewLeaves(mv.edges, mv, In);
      CountToSelf(ForwardView(mv.edges), mv);
    } else {
      assert mp.name != mv.name;
      ViewCountKinds(mp.edges, mp, mv, Out);
      ViewCountKinds(mv.edges, mv, mp, In);
      assert TypedMirror(mp.edges, mv, mv.edges, mp);
      MirrorSelected(mp.edges, mv, mv.edges, mp);
    }
  }

  /** The values `M` stores under the keys of `P`. */
  function Image<K, V>(M: map<K, V>, P: set<K>): set<V>
    requires P <= M.Keys
  {
    set n | n in P :: M[n]
  }

  /** The set sum of `Occ` into `v` over names that denote distinct vertices, each name
      contributing the links of `F` toward its vertex, counts the links of `F` toward all of
      them. */
  lemma {:induction false} InFromCounts<V>(G: Digraph<string>, M: map<string, V>, P: set<string>, v: string, F: seq<Link<V>>, me: V)
    requires P <= M.Keys
    requires forall x, y | x in P && y in P && M[x] == M[y] :: x == y
    requires forall x | x in P :: Occ(G, x, v) == CountTo(F, me, {M[x]})
    ensures InFrom(G, P, v) == CountTo(F, me, Image(M, P))
    decreases P
  {
    if P == {} {
      assert Image(M, P) == {};
      CountToNone(F, me);
    } else {
      var x :| x in P;
      InFromRemove(G, P, x, v);
      InFromCounts(G, M, P - {x}, v, F, me);
      assert Image(M, P - {x}) == Image(M, P) - {M[x]};
      CountToSplit(F, me, Image(M, P), M[x]);
    }
  }

  /** Distinct names of a graph keyed by name denote distinct vertices. */
  lemma NamesDistinct<D>(g: AbstractGraph<D>)
    requires g.KeyedByName()
    ensures forall x, y | x in g.verteces && y in g.verteces && g.verteces[x] == g.verteces[y] :: x == y
  {
    forall x, y | x in g.verteces && y in g.verteces && g.verteces[x] == g.verteces[y]
      ensures x == y
    {
      assert g.verteces[x].name == x && g.verteces[y].name == y;
    }
  }

  /** In a closed graph the far end of every incoming link of a stored vertex is stored. */
  lemma ForwardClosed<D>(g: AbstractGraph<D>, v: string)
    requires Closed(g) && v in g.verteces
    ensures forall l | l in ForwardView(g.verteces[v].edges) :: Other(l, g.verteces[v]) in g.verteces.Values
  {
    var M := g.verteces;
    forall l | l in ForwardView(M[v].edges)
      ensures Other(l, M[v]) in M.Values
    {
      assert l in M[v].edges;
    }
  }

  /** OccIsCountTo for every stored name at once. */
  lemma OccColumn<D>(g: AbstractGraph<D>, v: string)
    requires Sound(g) && v in g.verteces
    ensures forall x | x in g.verteces ::
      Occ(Shape(g), x, v) == CountTo(ForwardView(g.verteces[v].edges), g.verteces[v], {g.verteces[x]})
  {
    forall x | x in g.verteces
      ensures Occ(Shape(g), x, v) == CountTo(ForwardView(g.verteces[v].edges), g.verteces[v], {g.verteces[x]})
    {
      OccIsCountTo(g, x, v);
    }
  }

  /** On a sound graph the cached indegree of the vertex stored under `v` is the number of
      edges TopoSort follows into `v`. */
  lemma IndegreeIsInFrom<D>(g: AbstractGraph<D>, v: string)
    requires Sound(g) && v in g.verteces
    ensures g.verteces[v].indegree == InFrom(Shape(g), g.verteces.Keys, v)
  {
    var M := g.verteces;
    var F := ForwardView(M[v].edges);
    OccColumn(g, v);
    NamesDistinct(g);
    InFromCounts(Shape(g), M, M.Keys, v, F, M[v]);
    assert Image(M, M.Keys) == M.Values;
    ForwardClosed(g, v);
    CountToAll(F, M[v], M.Values);
    assert DegreesMatch(M[v].State());
  }

  /** On a sound graph every cached indegree is the number of edges TopoSort follows into
      the vertex: the condition under which its order and cycle verdicts hold. */
  lemma HealthyExact<D>(g: AbstractGraph<D>)
    requires Sound(g)
    ensures Exact(Shape(g))
  {
    forall v | v in Shape(g).keys
      ensures v in Shape(g).indeg && Shape(g).indeg[v] == InFrom(Shape(g), Shape(g).keys, v)
    {
      IndegreeIsInFrom(g, v);
    }
  }
}
