/**
 * The graph of graph/graph.go: a name and a map from vertex id (the vertex name) to vertex
 * object. Every operation checks that the vertices it is given are keys of the map and
 * then delegates to the vertex protocol of the `Vertices` module.
 */
module Graphs {
  import opened Wrappers
  import opened Edges
  import opened Adjacency
  import opened Vertices

  datatype GraphError =
    | DuplicateVertex(id: string)
    | VertexNotFound(id: string)
    | EdgeTypeNotUndirected(kind: EdgeType)

  /** Every list in `vs` holds only links anchored at its own vertex. */
  ghost predicate AllAnchored<D>(vs: set<Vertex<D>>)
    reads vs
  {
    forall u | u in vs :: Anchored(u.edges, u)
  }

  /** Mirror symmetry: any two vertices of `vs` hold equally many links to each other. */
  ghost predicate Mirrored<D>(vs: set<Vertex<D>>)
    reads vs
  {
    forall u, w | u in vs && w in vs && u != w :: Count(u.edges, w) == Count(w.edges, u)
  }

  /** The typed mirror between any two vertices of `vs`: at most one link between them on
      each side, and the two links' types reversed (forward against backward, undirected
      against undirected), as Adjoin builds them. */
  ghost predicate TypedMirrored<D>(vs: set<Vertex<D>>)
    reads vs
  {
    forall u, w | u in vs && w in vs && u != w :: TypedMirror(u.edges, w, w.edges, u)
  }

  /** The states of the vertices in `vs`, as values. */
  ghost function Snap<D>(vs: set<Vertex<D>>): (S: map<Vertex<D>, Side<Vertex<D>>>)
    reads vs
    ensures S.Keys == vs
  {
    map u | u in vs :: u.State()
  }

  /** The edge lists of the vertices in `vs`, as values. */
  ghost function EdgeLists<D>(vs: set<Vertex<D>>): (E: map<Vertex<D>, seq<Link<Vertex<D>>>>)
    reads vs
    ensures E.Keys == vs
  {
    map u | u in vs :: u.edges
  }

  /** No link is left between `v` and any other vertex of `vs`, in either direction. */
  ghost predicate Detached<D>(vs: set<Vertex<D>>, v: Vertex<D>)
    reads vs, v
  {
    forall u | u in vs && u != v :: Count(u.edges, v) == 0 && Count(v.edges, u) == 0
  }

  /** Every vertex of `vs` other than `v` holds its list of `before` less exactly the links
      touching `v`, in the same order. */
  ghost predicate Pruned<D>(vs: set<Vertex<D>>, v: Vertex<D>, before: map<Vertex<D>, seq<Link<Vertex<D>>>>)
    reads vs
  {
    forall u | u in vs && u != v :: u in before && u.edges == Without(before[u], v)
  }

  /** Directed-only lists whose cached counters agree with them, in the snapshot `S`. */
  ghost predicate ConsistentIn<D>(S: map<Vertex<D>, Side<Vertex<D>>>, vs: set<Vertex<D>>)
  {
    forall u | u in vs && u in S :: Anchored(S[u].edges, u) && DirectedOnly(S[u].edges) && DegreesMatch(S[u])
  }

  ghost predicate AllConsistent<D>(vs: set<Vertex<D>>)
    reads vs
  {
    ConsistentIn(Snap(vs), vs)
  }

  /** A step that replaces only the states of `v` and `src`, by consistent ones, keeps the
      snapshot consistent. */
  lemma ConsistentStep<D>(S: map<Vertex<D>, Side<Vertex<D>>>, S': map<Vertex<D>, Side<Vertex<D>>>,
                          vs: set<Vertex<D>>, v: Vertex<D>, src: Vertex<D>)
    requires ConsistentIn(S, vs) && vs <= S.Keys && vs == S'.Keys && v in vs && src in vs
    requires forall u | u in vs && u != v && u != src :: S'[u] == S[u]
    requires Anchored(S'[v].edges, v) && DirectedOnly(S'[v].edges) && DegreesMatch(S'[v])
    requires Anchored(S'[src].edges, src) && DirectedOnly(S'[src].edges) && DegreesMatch(S'[src])
    ensures ConsistentIn(S', vs)
  {
  }

  /**
   * What RemoveVertex's loop keeps while it severs `v` (a member of `all`) from the stored
   * vertices, stated on the snapshot `S`: every list stays anchored, every vertex still
   * holds as many links to `v` as `v` holds to it, the vertices already visited (`done`)
   * hold their lists of `before` less the links touching `v`, and the others their lists
   * of `before`.
   */
  ghost predicate SeveringIn<D>(S: map<Vertex<D>, Side<Vertex<D>>>, all: set<Vertex<D>>, v: Vertex<D>,
                                before: map<Vertex<D>, seq<Link<Vertex<D>>>>, done: set<Vertex<D>>)
  {
    && v in all && all <= before.Keys && all <= S.Keys
    && (forall u | u in all :: Anchored(S[u].edges, u))
    && (forall u | u in all && u != v :: Count(S[u].edges, v) == Count(S[v].edges, u))
    && (forall u | u in all && u != v :: S[u].edges == if u in done then Without(before[u], v) else before[u])
  }

  ghost predicate Severing<D>(all: set<Vertex<D>>, v: Vertex<D>,
                              before: map<Vertex<D>, seq<Link<Vertex<D>>>>, done: set<Vertex<D>>)
    reads all
  {
    SeveringIn(Snap(all), all, v, before, done)
  }

  /** Severing advances by one visited vertex when only `v` and `src` change, both stay
      anchored, `v` keeps its counts toward others and holds no link to `src`, and `src`
      loses exactly its links to `v`. */
  lemma SeveringStep<D>(S: map<Vertex<D>, Side<Vertex<D>>>, S': map<Vertex<D>, Side<Vertex<D>>>,
                        all: set<Vertex<D>>, v: Vertex<D>, src: Vertex<D>,
                        before: map<Vertex<D>, seq<Link<Vertex<D>>>>, done: set<Vertex<D>>)
    requires SeveringIn(S, all, v, before, done) && src in all && src != v && all <= S'.Keys
    requires forall u | u in all && u != v && u != src :: S'[u] == S[u]
    requires Anchored(S'[v].edges, v) && Anchored(S'[src].edges, src)
    requires Count(S'[v].edges, src) == 0 && S'[src].edges == Without(S[src].edges, v)
    requires forall w | w != v && w != src :: Count(S'[v].edges, w) == Count(S[v].edges, w)
    ensures SeveringIn(S', all, v, before, done + {src})
  {
    WithoutCount(S[src].edges, v);
    WithoutCount(before[src], v);
  }

  /** What one pass of RemoveVertex's loop does to the two vertices, as values: RemoveAdjoin
      from `me` towards `them`, then from `them` towards `me`. */
  function SeverPair<V(==)>(mine: Side<V>, theirs: Side<V>, me: V, them: V): (Side<V>, Side<V>)
    requires me != them
  {
    var r := RemovePair(mine, theirs, me, them);
    var r2 := RemovePair(r.1, r.0, them, me);
    (r2.1, r2.0)
  }

  /**
   * The pass keeps both lists anchored, leaves the counts toward every third vertex alone,
   * removes exactly the links between the two when they held equally many (mirror
   * symmetry), and keeps the directed-only degree-consistency invariant.
   */
  lemma SeverPairFacts<V>(mine: Side<V>, theirs: Side<V>, me: V, them: V)
    requires me != them && Anchored(mine.edges, me) && Anchored(theirs.edges, them)
    ensures var p := SeverPair(mine, theirs, me, them);
      && Anchored(p.0.edges, me) && Anchored(p.1.edges, them)
      && (forall w | w != me && w != them :: Count(p.0.edges, w) == Count(mine.edges, w))
      && (forall w | w != me && w != them :: Count(p.1.edges, w) == Count(theirs.edges, w))
      && (Count(mine.edges, them) == Count(theirs.edges, me) ==> Count(p.0.edges, them) == 0 && Count(p.1.edges, me) == 0)
      && (Count(mine.edges, them) == Count(theirs.edges, me) ==>
            p.0.edges == Without(mine.edges, them) && p.1.edges == Without(theirs.edges, me))
    ensures var p := SeverPair(mine, theirs, me, them);
      DirectedOnly(mine.edges) && DirectedOnly(theirs.edges) && DegreesMatch(mine) && DegreesMatch(theirs) ==>
        DirectedOnly(p.0.edges) && DirectedOnly(p.1.edges) && DegreesMatch(p.0) && DegreesMatch(p.1)
  {
    var r := RemovePair(mine, theirs, me, them);
    RemovePairCounts(mine, theirs, me, them);
    RemovePairCounts(r.1, r.0, them, me);
    if Count(mine.edges, them) == Count(theirs.edges, me) {
      RemovePairWithout(mine, theirs, me, them);
      WithoutCount(mine.edges, them);
      WithoutCount(theirs.edges, me);
      FirstTouchingCount(r.1.edges, me);
    }
    if DirectedOnly(mine.edges) && DirectedOnly(theirs.edges) && DegreesMatch(mine) && DegreesMatch(theirs) {
      RemovePairDirectedKeepsDegrees(mine, theirs, me, them);
      RemovePairDirectedKeepsDegrees(r.1, r.0, them, me);
    }
  }

  /** One pass of RemoveVertex's loop (the body of its `for`); among the vertices `vs`
      only the states of `v` and `src` change, and `after` is the new snapshot. */
  method Sever<D>(v: Vertex<D>, src: Vertex<D>, ghost vs: set<Vertex<D>>) returns (ghost after: map<Vertex<D>, Side<Vertex<D>>>)
    requires v in vs && src in vs
    modifies v, src
    ensures forall u | u in vs :: u.name == old(u.name) && u.data == old(u.data)
    ensures src == v ==> v.State() == old(v.State())
    ensures src != v ==> (v.State(), src.State()) == SeverPair(old(v.State()), old(src.State()), v, src)
    ensures after == Snap(vs)
    ensures forall u | u in vs && u != v && u != src :: after[u] == old(u.State())
  {
    v.RemoveAdjoin(src);
    src.RemoveAdjoin(v);
    after := Snap(vs);
  }

  /**
   * Sever, carrying RemoveVertex's loop invariants over the snapshot `S` of the vertices
   * `vs` (all stored vertices and `v`) from one pass to the next.
   */
  method Visit<D>(v: Vertex<D>, src: Vertex<D>, ghost vs: set<Vertex<D>>, ghost all: set<Vertex<D>>,
                  ghost before: map<Vertex<D>, seq<Link<Vertex<D>>>>, ghost S: map<Vertex<D>, Side<Vertex<D>>>,
                  ghost done: set<Vertex<D>>, ghost healthy: bool, ghost consistent: bool)
    returns (ghost S': map<Vertex<D>, Side<Vertex<D>>>)
    requires v in vs && src in all && all <= vs && S == Snap(vs)
    requires healthy ==> SeveringIn(S, all, v, before, done)
    requires consistent ==> ConsistentIn(S, vs)
    modifies v, src
    ensures forall u | u in vs :: u.name == old(u.name) && u.data == old(u.data)
    ensures S' == Snap(vs)
    ensures healthy ==> SeveringIn(S', all, v, before, done + {src})
    ensures consistent ==> ConsistentIn(S', vs)
  {
    S' := Sever(v, src, vs);
    if src != v {
      if healthy {
        SeverPairFacts(S[v], S[src], v, src);
        SeveringStep(S, S', all, v, src, before, done);
      }
      if consistent {
        SeverPairFacts(S[v], S[src], v, src);
        ConsistentStep(S, S', vs, v, src);
      }
    }
  }

  /**
   * RemoveVertex's loop: visit the keys of `m` in an unspecified order (Go's map iteration)
   * and sever `v` from each stored vertex.
   */
  method SeverFromAll<D>(v: Vertex<D>, m: map<string, Vertex<D>>, ghost before: map<Vertex<D>, seq<Link<Vertex<D>>>>)
    returns (ghost S: map<Vertex<D>, Side<Vertex<D>>>)
    requires before == EdgeLists(m.Values)
    modifies v, m.Values
    ensures forall u | u in m.Values + {v} :: u.name == old(u.name) && u.data == old(u.data)
    ensures S == Snap(m.Values + {v})
    ensures old(AllAnchored(m.Values) && Mirrored(m.Values)) && v in m.Values ==>
      SeveringIn(S, m.Values, v, before, m.Values)
    ensures old(AllConsistent(m.Values + {v})) ==> ConsistentIn(S, m.Values + {v})
  {
    ghost var all := m.Values;
    ghost var vs := all + {v};
    ghost var done: set<Vertex<D>> := {};
    ghost var healthy := AllAnchored(all) && Mirrored(all) && v in all;
    ghost var consistent := AllConsistent(vs);
    S := Snap(vs);
    assert healthy ==> SeveringIn(S, all, v, before, done);
    var todo := m.Keys;
    while todo != {}
      invariant todo <= m.Keys
      invariant forall u | u in vs :: u.name == old(u.name) && u.data == old(u.data)
      invariant forall k | k in m && k !in todo :: m[k] in done
      invariant done <= all
      invariant S == Snap(vs)
      invariant healthy ==> SeveringIn(S, all, v, before, done)
      invariant consistent ==> ConsistentIn(S, vs)
      decreases todo
    {
      var k :| k in todo;
      var src := m[k];
      S := Visit(v, src, vs, all, before, S, done, healthy, consistent);
      done := done + {src};
      todo := todo - {k};
    }
    if healthy {
      ValuesVisited(m, done);
      assert done == all;
    }
  }

  /** Once every key has been visited, so has every stored vertex. */
  lemma ValuesVisited<K, V>(m: map<K, V>, done: set<V>)
    requires forall k | k in m :: m[k] in done
    ensures m.Values <= done
  {
    forall u | u in m.Values
      ensures u in done
    {
      var k :| k in m && m[k] == u;
    }
  }

  /**
   * Once every vertex has been visited: the lists are still anchored, no link between `v`
   * and any other vertex is left, every other vertex holds its list of `before` less its
   * links to `v`, and so mirror symmetry, and the typed mirror when `before` had it, hold
   * again.
   */
  lemma SeveredFacts<D>(S: map<Vertex<D>, Side<Vertex<D>>>, all: set<Vertex<D>>, v: Vertex<D>,
                        before: map<Vertex<D>, seq<Link<Vertex<D>>>>)
    requires S == Snap(all) && SeveringIn(S, all, v, before, all)
    requires forall u | u in all :: Anchored(before[u], u)
    requires forall u, w | u in all && w in all && u != w :: Count(before[u], w) == Count(before[w], u)
    ensures AllAnchored(all) && Mirrored(all) && Detached(all, v) && Pruned(all, v, before)
    ensures (forall u, w | u in all && w in all && u != w :: TypedMirror(before[u], w, before[w], u)) ==>
      TypedMirrored(all)
  {
    assert forall u | u in all :: S[u].edges == u.edges;
    forall u | u in all && u != v
      ensures Count(u.edges, v) == 0
    {
      WithoutCount(before[u], v);
    }
    forall u, w | u in all && w in all && u != v && w != v && u != w
      ensures KindsToward(u.edges, w) == KindsToward(before[u], w)
    {
      WithoutKinds(before[u], u, v, w);
    }
  }

  /**
   * RemoveVertex's loop with its conclusions: on vertices that were anchored and mirrored
   * and held `v`, `v` ends up detached from all of them while every other vertex loses
   * exactly its links to `v`, so the typed mirror is kept too; the directed-only
   * consistency invariant is kept throughout.
   */
  method DetachFromAll<D>(v: Vertex<D>, m: map<string, Vertex<D>>, ghost before: map<Vertex<D>, seq<Link<Vertex<D>>>>)
    requires before == EdgeLists(m.Values)
    modifies v, m.Values
    ensures forall u | u in m.Values + {v} :: u.name == old(u.name) && u.data == old(u.data)
    ensures old(AllAnchored(m.Values) && Mirrored(m.Values)) && v in m.Values ==>
      AllAnchored(m.Values) && Mirrored(m.Values) && Detached(m.Values, v) && Pruned(m.Values, v, before)
    ensures old(AllAnchored(m.Values) && Mirrored(m.Values) && TypedMirrored(m.Values)) && v in m.Values ==>
      TypedMirrored(m.Values)
    ensures old(AllConsistent(m.Values + {v})) ==> AllConsistent(m.Values + {v})
  {
    ghost var all := m.Values;
    ghost var healthy := AllAnchored(all) && Mirrored(all) && v in all;
    ListsHealthy(all, before);
    ghost var S := SeverFromAll(v, m, before);
    if healthy {
      assert all + {v} == all;
      SeveredFacts(S, all, v, before);
    }
  }

  /** The heap-level invariants, read on the edge lists of `vs` taken as values. */
  lemma ListsHealthy<D>(vs: set<Vertex<D>>, E: map<Vertex<D>, seq<Link<Vertex<D>>>>)
    requires E == EdgeLists(vs)
    ensures AllAnchored(vs) ==> forall u | u in vs :: Anchored(E[u], u)
    ensures Mirrored(vs) ==> forall u, w | u in vs && w in vs && u != w :: Count(E[u], w) == Count(E[w], u)
    ensures TypedMirrored(vs) ==> forall u, w | u in vs && w in vs && u != w :: TypedMirror(E[u], w, E[w], u)
  {
    assert forall u | u in vs :: E[u] == u.edges;
  }

  /** Anchoring and both mirror invariants hold of any subset of a set they hold of. */
  lemma HealthySubset<D>(sub: set<Vertex<D>>, all: set<Vertex<D>>)
    requires sub <= all && AllAnchored(all) && Mirrored(all)
    ensures AllAnchored(sub) && Mirrored(sub)
    ensures TypedMirrored(all) ==> TypedMirrored(sub)
  {
  }

  /** Anchored lists and mirror symmetry among `vs`, read in the snapshot `S`. */
  ghost predicate HealthyIn<D>(S: map<Vertex<D>, Side<Vertex<D>>>, vs: set<Vertex<D>>)
  {
    && vs <= S.Keys
    && (forall u | u in vs :: Anchored(S[u].edges, u))
    && (forall u, w | u in vs && w in vs && u != w :: Count(S[u].edges, w) == Count(S[w].edges, u))
  }

  /** The heap-level predicates and the snapshot-level one agree. */
  lemma SnapHealthy<D>(vs: set<Vertex<D>>)
    ensures AllAnchored(vs) && Mirrored(vs) <==> HealthyIn(Snap(vs), vs)
  {
    assert forall u | u in vs :: Snap(vs)[u] == u.State();
  }

  /**
   * Replacing the states of two distinct vertices `a` and `b` of `vs` by anchored ones
   * that hold equally many links to each other and keep their counts toward every third
   * vertex keeps anchoring and mirror symmetry.
   */
  lemma PairStepHealthy<D>(S: map<Vertex<D>, Side<Vertex<D>>>, S': map<Vertex<D>, Side<Vertex<D>>>,
                           vs: set<Vertex<D>>, a: Vertex<D>, b: Vertex<D>)
    requires HealthyIn(S, vs) && vs == S'.Keys && a in vs && b in vs && a != b
    requires forall u | u in vs && u != a && u != b :: S'[u] == S[u]
    requires Anchored(S'[a].edges, a) && Anchored(S'[b].edges, b)
    requires Count(S'[a].edges, b) == Count(S'[b].edges, a)
    requires forall w | w != a && w != b :: Count(S'[a].edges, w) == Count(S[a].edges, w)
    requires forall w | w != a && w != b :: Count(S'[b].edges, w) == Count(S[b].edges, w)
    ensures HealthyIn(S', vs)
  {
    forall u, w | u in vs && w in vs && u != w
      ensures Count(S'[u].edges, w) == Count(S'[w].edges, u)
    {
      if (u == a && w == b) || (u == b && w == a) {
      } else {
        var cu := Count(S[u].edges, w);
        var cw := Count(S[w].edges, u);
        assert Count(S'[u].edges, w) == cu;
        assert Count(S'[w].edges, u) == cw;
      }
    }
  }

  /** RemoveAdjoin between two vertices of an anchored, mirrored snapshot keeps it so and
      leaves no link between the two. */
  lemma RemovePairHealthy<D>(S: map<Vertex<D>, Side<Vertex<D>>>, S': map<Vertex<D>, Side<Vertex<D>>>,
                             vs: set<Vertex<D>>, a: Vertex<D>, b: Vertex<D>)
    requires HealthyIn(S, vs) && vs == S'.Keys && a in vs && b in vs && a != b
    requires forall u | u in vs && u != a && u != b :: S'[u] == S[u]
    requires (S'[a], S'[b]) == RemovePair(S[a], S[b], a, b)
    ensures HealthyIn(S', vs) && Count(S'[a].edges, b) == 0 && Count(S'[b].edges, a) == 0
  {
    RemovePairCounts(S[a], S[b], a, b);
    PairStepHealthy(S, S', vs, a, b);
  }

  /** The typed mirror among `vs`, read in the snapshot `S`. */
  ghost predicate TypedIn<D>(S: map<Vertex<D>, Side<Vertex<D>>>, vs: set<Vertex<D>>)
  {
    && vs <= S.Keys
    && (forall u, w | u in vs && w in vs && u != w :: TypedMirror(S[u].edges, w, S[w].edges, u))
  }

  lemma SnapTyped<D>(vs: set<Vertex<D>>)
    ensures TypedMirrored(vs) <==> TypedIn(Snap(vs), vs)
  {
    assert forall u | u in vs :: Snap(vs)[u] == u.State();
  }

  /**
   * Replacing the states of two distinct vertices `a` and `b` of `vs` by ones with the
   * typed mirror between them, and with the same links toward every third vertex, types
   * included, keeps the typed mirror among `vs`.
   */
  lemma PairStepTyped<D>(S: map<Vertex<D>, Side<Vertex<D>>>, S': map<Vertex<D>, Side<Vertex<D>>>,
                         vs: set<Vertex<D>>, a: Vertex<D>, b: Vertex<D>)
    requires TypedIn(S, vs) && vs == S'.Keys && a in vs && b in vs && a != b
    requires forall u | u in vs && u != a && u != b :: S'[u] == S[u]
    requires TypedMirror(S'[a].edges, b, S'[b].edges, a)
    requires forall w | w != a && w != b :: KindsToward(S'[a].edges, w) == KindsToward(S[a].edges, w)
    requires forall w | w != a && w != b :: KindsToward(S'[b].edges, w) == KindsToward(S[b].edges, w)
    ensures TypedIn(S', vs)
  {
    forall u, w | u in vs && w in vs && u != w
      ensures TypedMirror(S'[u].edges, w, S'[w].edges, u)
    {
      if u == a && w == b {
      } else if u == b && w == a {
        TypedMirrorSymmetric(S'[a].edges, b, S'[b].edges, a);
      } else {
        assert KindsToward(S'[u].edges, w) == KindsToward(S[u].edges, w);
        assert KindsToward(S'[w].edges, u) == KindsToward(S[w].edges, u);
        assert TypedMirror(S[u].edges, w, S[w].edges, u);
      }
    }
  }

  /** Adjoin between two vertices of a snapshot with the typed mirror keeps it. */
  lemma AdjoinPairTyped<D>(S: map<Vertex<D>, Side<Vertex<D>>>, S': map<Vertex<D>, Side<Vertex<D>>>,
                           vs: set<Vertex<D>>, a: Vertex<D>, b: Vertex<D>, e: Edge)
    requires TypedIn(S, vs) && vs == S'.Keys && a in vs && b in vs && a != b
    requires forall u | u in vs && u != a && u != b :: S'[u] == S[u]
    requires var o := AdjoinPair(S[a], S[b], a, b, e); S'[a] == o.mine && S'[b] == o.theirs
    ensures TypedIn(S', vs)
  {
    AdjoinKeepsTyped(S[a], S[b], a, b, e);
    PairStepTyped(S, S', vs, a, b);
  }

  /** RemoveAdjoin between two vertices of an anchored snapshot with the typed mirror
      removes exactly the links between them and keeps the typed mirror. */
  lemma RemovePairTyped<D>(S: map<Vertex<D>, Side<Vertex<D>>>, S': map<Vertex<D>, Side<Vertex<D>>>,
                           vs: set<Vertex<D>>, a: Vertex<D>, b: Vertex<D>)
    requires TypedIn(S, vs) && vs == S'.Keys && a in vs && b in vs && a != b
    requires Anchored(S[a].edges, a) && Anchored(S[b].edges, b)
    requires forall u | u in vs && u != a && u != b :: S'[u] == S[u]
    requires (S'[a], S'[b]) == RemovePair(S[a], S[b], a, b)
    ensures TypedIn(S', vs)
    ensures S'[a].edges == Without(S[a].edges, b) && S'[b].edges == Without(S[b].edges, a)
  {
    RemovePairWithout(S[a], S[b], a, b);
    WithoutCount(S[a].edges, b);
    WithoutCount(S[b].edges, a);
    forall w | w != a && w != b
      ensures KindsToward(S'[a].edges, w) == KindsToward(S[a].edges, w)
      ensures KindsToward(S'[b].edges, w) == KindsToward(S[b].edges, w)
    {
      WithoutKinds(S[a].edges, a, b, w);
      WithoutKinds(S[b].edges, b, a, w);
    }
    PairStepTyped(S, S', vs, a, b);
  }

  /** `src.Adjoin(dst, e)` on two distinct vertices; on a healthy set of vertices holding
      both, the set stays healthy. */
  method Join<D>(src: Vertex<D>, dst: Vertex<D>, e: Edge, ghost vs: set<Vertex<D>>) returns (err: Option<VertexError>)
    requires src != dst
    modifies src, dst
    ensures src.name == old(src.name) && dst.name == old(dst.name)
    ensures src.data == old(src.data) && dst.data == old(dst.data)
    ensures var o := AdjoinPair(old(src.State()), old(dst.State()), src, dst, e);
      src.State() == o.mine && dst.State() == o.theirs && err == o.err
    ensures old(AllAnchored(vs) && Mirrored(vs)) && src in vs && dst in vs ==> AllAnchored(vs) && Mirrored(vs)
    ensures old(TypedMirrored(vs)) && src in vs && dst in vs ==> TypedMirrored(vs)
  {
    ghost var healthy := AllAnchored(vs) && Mirrored(vs) && src in vs && dst in vs;
    ghost var typed := TypedMirrored(vs) && src in vs && dst in vs;
    ghost var S := Snap(vs);
    if healthy {
      SnapHealthy(vs);
    }
    if typed {
      SnapTyped(vs);
    }
    err := src.Adjoin(dst, e);
    ghost var S' := Snap(vs);
    if healthy {
      assert S'[src] == src.State() && S'[dst] == dst.State();
      AdjoinKeepsAnchored(S[src], S[dst], src, dst, e);
      AdjoinKeepsSymmetry(S[src], S[dst], src, dst, e);
      PairStepHealthy(S, S', vs, src, dst);
      SnapHealthy(vs);
    }
    if typed {
      assert S'[src] == src.State() && S'[dst] == dst.State();
      AdjoinPairTyped(S, S', vs, src, dst, e);
      SnapTyped(vs);
    }
  }

  /** `src.RemoveAdjoin(dst)`; on a healthy set of vertices holding two distinct `src` and
      `dst`, the set stays healthy and no link is left between the two. */
  method Unjoin<D>(src: Vertex<D>, dst: Vertex<D>, ghost vs: set<Vertex<D>>)
    modifies src, dst
    ensures src.name == old(src.name) && dst.name == old(dst.name)
    ensures src.data == old(src.data) && dst.data == old(dst.data)
    ensures src == dst ==> src.State() == old(src.State())
    ensures src != dst ==> (src.State(), dst.State()) == RemovePair(old(src.State()), old(dst.State()), src, dst)
    ensures old(AllAnchored(vs) && Mirrored(vs)) && src in vs && dst in vs && src != dst ==>
      AllAnchored(vs) && Mirrored(vs) && Count(src.edges, dst) == 0 && Count(dst.edges, src) == 0
    ensures old(AllAnchored(vs) && TypedMirrored(vs)) && src in vs && dst in vs && src != dst ==>
      TypedMirrored(vs) && src.edges == Without(old(src.edges), dst) && dst.edges == Without(old(dst.edges), src)
  {
    ghost var healthy := AllAnchored(vs) && Mirrored(vs) && src in vs && dst in vs && src != dst;
    ghost var typed := AllAnchored(vs) && TypedMirrored(vs) && src in vs && dst in vs && src != dst;
    ghost var S := Snap(vs);
    ghost var ss, ds := src.State(), dst.State();
    if healthy {
      SnapHealthy(vs);
    }
    if typed {
      SnapTyped(vs);
      assert S[src] == ss && S[dst] == ds;
      assert Anchored(ss.edges, src) && Anchored(ds.edges, dst);
    }
    src.RemoveAdjoin(dst);
    ghost var S' := Snap(vs);
    if healthy {
      assert S'[src] == src.State() && S'[dst] == dst.State();
      RemovePairHealthy(S, S', vs, src, dst);
      SnapHealthy(vs);
    }
    if typed {
      assert S'[src] == src.State() && S'[dst] == dst.State();
      RemovePairTyped(S, S', vs, src, dst);
      assert src.edges == Without(ss.edges, dst) && dst.edges == Without(ds.edges, src);
      SnapTyped(vs);
    }
  }

  class AbstractGraph<D> {
    var name: string
    var verteces: map<string, Vertex<D>>

    /** Every vertex is stored under its own name. */
    ghost predicate KeyedByName()
      reads this, verteces.Values
    {
      forall k | k in verteces :: verteces[k].name == k
    }

    /** The shape every mutation keeps: anchored lists, mirror symmetry and the typed
        mirror. */
    ghost predicate Healthy()
      reads this, verteces.Values
    {
      AllAnchored(verteces.Values) && Mirrored(verteces.Values) && TypedMirrored(verteces.Values)
    }

    /** NewGraph: the given name and no vertices. */
    constructor (name: string)
      ensures this.name == name && verteces == map[]
      ensures KeyedByName() && Healthy()
    {
      this.name := name;
      verteces := map[];
    }

    /** InsertVertex: refuses a name already present, otherwise adds exactly that one key. */
    method InsertVertex(v: Vertex<D>) returns (err: Option<GraphError>)
      modifies this
      ensures v.name in old(verteces) ==> err == Some(DuplicateVertex(v.name)) && verteces == old(verteces)
      ensures v.name !in old(verteces) ==> err == None && verteces == old(verteces)[v.name := v]
      ensures name == old(name)
      ensures old(KeyedByName()) ==> KeyedByName()
      ensures
        (old(Healthy()) && AllAnchored({v}) && Mirrored(old(verteces.Values) + {v}) &&
         TypedMirrored(old(verteces.Values) + {v}))
        ==> Healthy()
    {
      if v.name in verteces {
        return Some(DuplicateVertex(v.name));
      }
      verteces := verteces[v.name := v];
      return None;
    }

    /**
     * InsertEdge: both endpoints must be keys of the map (by name); then `src.Adjoin` runs
     * and its error is dropped, so an unknown edge type is silently ignored. The two
     * vertices must differ, since Adjoin of a vertex with itself does not terminate.
     */
    method InsertEdge(src: Vertex<D>, dst: Vertex<D>, e: Edge) returns (err: Option<GraphError>)
      requires src.name in verteces && dst.name in verteces ==> src != dst
      modifies src, dst
      ensures src.name !in verteces ==> err == Some(VertexNotFound(src.name)) && unchanged(src, dst)
      ensures src.name in verteces && dst.name !in verteces ==>
        err == Some(VertexNotFound(dst.name)) && unchanged(src, dst)
      ensures old(src.name) in verteces && old(dst.name) in verteces ==>
        && err == None
        && var o := AdjoinPair(old(src.State()), old(dst.State()), src, dst, e);
           src.State() == o.mine && dst.State() == o.theirs
      ensures src.name == old(src.name) && dst.name == old(dst.name)
      ensures old(KeyedByName()) ==> KeyedByName()
      ensures old(Healthy()) && src in verteces.Values && dst in verteces.Values ==> Healthy()
    {
      if src.name !in verteces {
        return Some(VertexNotFound(src.name));
      }
      if dst.name !in verteces {
        return Some(VertexNotFound(dst.name));
      }
      var _ := Join(src, dst, e, verteces.Values);
      return None;
    }

    /** GetVertex: the stored vertex, or None (Go's nil) when the id is not a key. */
    method GetVertex(id: string) returns (v: Option<Vertex<D>>)
      ensures v.None? <==> id !in verteces
      ensures v.Some? ==> v.value in verteces.Values && v.value == verteces[id]
      ensures v.Some? && KeyedByName() ==> v.value.name == id
    {
      if id !in verteces {
        return None;
      }
      return Some(verteces[id]);
    }

    /** SetVertex: replaces the object stored under an existing name; no other key changes. */
    method SetVertex(v: Vertex<D>) returns (err: Option<GraphError>)
      modifies this
      ensures v.name !in old(verteces) ==> err == Some(VertexNotFound(v.name)) && verteces == old(verteces)
      ensures v.name in old(verteces) ==> err == None && verteces == old(verteces)[v.name := v]
      ensures verteces.Keys == old(verteces).Keys && name == old(name)
      ensures old(KeyedByName()) ==> KeyedByName()
      ensures
        (old(Healthy()) && AllAnchored({v}) && Mirrored(old(verteces.Values) + {v}) &&
         TypedMirrored(old(verteces.Values) + {v}))
        ==> Healthy()
    {
      if v.name !in verteces {
        return Some(VertexNotFound(v.name));
      }
      verteces := verteces[v.name := v];
      forall x | x in verteces.Values
        ensures x in old(verteces.Values) + {v}
      {
        var k :| k in verteces && verteces[k] == x;
        assert k != v.name ==> old(verteces)[k] == x;
      }
      if old(Healthy()) && AllAnchored({v}) {
        assert AllAnchored(old(verteces.Values) + {v});
        if Mirrored(old(verteces.Values) + {v}) {
          HealthySubset(verteces.Values, old(verteces.Values) + {v});
        }
      }
      return None;
    }

    /** SetEdge: the same two existence checks, then `src.SetEdge`, whose error is dropped. */
    method SetEdge(src: Vertex<D>, dst: Vertex<D>, e: Edge) returns (err: Option<GraphError>)
      modifies src
      ensures src.name !in verteces ==> err == Some(VertexNotFound(src.name)) && unchanged(src)
      ensures src.name in verteces && dst.name !in verteces ==>
        err == Some(VertexNotFound(dst.name)) && unchanged(src)
      ensures src.name in verteces && dst.name in verteces ==>
        && err == None
        && var i := FindIn(old(src.edges), src, dst);
           src.State() == if i < 0 then old(src.State()) else SetWeightAt(old(src.State()), i, e.weight)
      ensures src.name == old(src.name)
      ensures old(KeyedByName()) ==> KeyedByName()
      ensures old(Healthy()) ==> Healthy()
    {
      if src.name !in verteces {
        return Some(VertexNotFound(src.name));
      }
      if dst.name !in verteces {
        return Some(VertexNotFound(dst.name));
      }
      ghost var ss := src.State();
      ghost var i := FindIn(ss.edges, src, dst);
      var _ := src.SetEdge(dst, e);
      if i >= 0 {
        SetWeightKeeps(ss, i, e.weight, src);
      }
      return None;
    }

    /**
     * RemoveVertex: RemoveAdjoin in both directions between `v` and every stored vertex,
     * in the map's (unspecified) iteration order, then delete `v`'s key. On a healthy graph
     * holding `v` this severs `v` from every other vertex, and every other vertex keeps its
     * list less exactly its links to `v`, so the graph stays healthy.
     */
    method RemoveVertex(v: Vertex<D>)
      modifies this, v, verteces.Values
      ensures verteces == old(verteces) - {old(v.name)} && name == old(name)
      ensures forall u | u in old(verteces.Values) + {v} :: u.name == old(u.name) && u.data == old(u.data)
      ensures old(KeyedByName()) ==> KeyedByName()
      ensures old(Healthy()) && v in old(verteces.Values) ==>
        && Healthy()
        && Detached(old(verteces.Values), v)
        && Pruned(old(verteces.Values), v, old(EdgeLists(verteces.Values)))
      ensures old(AllConsistent(verteces.Values + {v})) ==> AllConsistent(old(verteces.Values) + {v})
    {
      ghost var all := verteces.Values;
      ghost var healthy := Healthy() && v in all;
      ghost var before := EdgeLists(all);
      var stored := verteces;
      verteces := verteces - {v.name};
      DetachFromAll(v, stored, before);
      if healthy {
        HealthySubset(verteces.Values, all);
      }
    }

    /** RemoveEdge: the two existence checks, then `src.RemoveAdjoin(dst)`. */
    method RemoveEdge(src: Vertex<D>, dst: Vertex<D>) returns (err: Option<GraphError>)
      modifies src, dst
      ensures src.name !in verteces ==> err == Some(VertexNotFound(src.name)) && unchanged(src, dst)
      ensures src.name in verteces && dst.name !in verteces ==>
        err == Some(VertexNotFound(dst.name)) && unchanged(src, dst)
      ensures src.name in verteces && dst.name in verteces ==>
        && err == None
        && (src == dst ==> src.State() == old(src.State()))
        && (src != dst ==> (src.State(), dst.State()) == RemovePair(old(src.State()), old(dst.State()), src, dst))
      ensures src.name == old(src.name) && dst.name == old(dst.name)
      ensures old(KeyedByName()) ==> KeyedByName()
      ensures err == None && old(Healthy()) && src in verteces.Values && dst in verteces.Values && src != dst ==>
        Healthy() && Count(src.edges, dst) == 0 && Count(dst.edges, src) == 0
    {
      if src.name !in verteces {
        return Some(VertexNotFound(src.name));
      }
      if dst.name !in verteces {
        return Some(VertexNotFound(dst.name));
      }
      Unjoin(src, dst, verteces.Values);
      return None;
    }
  }
}
