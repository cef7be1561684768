/**
 * The vertex of graph/vertex.go: a name, a payload, the incident-edge list and two cached
 * degree counters, all updated in place. Adjoin and RemoveAdjoin mutate this vertex and,
 * through their recursive call, the vertex at the other end; each is proved to have
 * exactly the effect that `Adjacency.AdjoinPair` / `Adjacency.RemovePair` describe.
 */
module Vertices {
  import opened Wrappers
  import opened Edges
  import opened Adjacency
  import SimpleVectors

  class Vertex<D> {
    var name: string
    var data: D
    var edges: seq<Link<Vertex<D>>>
    var indegree: int
    var outdegree: int

    /** This vertex's part of the adjacency protocol, as a value. */
    function State(): Side<Vertex<D>>
      reads this
    {
      Side(edges, indegree, outdegree)
    }

    /** Every stored link is one Adjoin could have set up on this vertex. */
    predicate WellFormed()
      reads this
    {
      Anchored(edges, this)
    }

    /** NewVertex: the given name and payload, no edges, both degrees 0. */
    constructor (name: string, data: D)
      ensures this.name == name && this.data == data
      ensures edges == [] && indegree == 0 && outdegree == 0
      ensures WellFormed() && DegreesMatch(State())
    {
      this.name := name;
      this.data := data;
      edges := [];
      indegree := 0;
      outdegree := 0;
    }

    /** A new vertex with this one's name and payload only: no edges, both degrees 0. */
    method Copy() returns (c: Vertex<D>)
      ensures fresh(c)
      ensures c.name == name && c.data == data
      ensures c.edges == [] && c.indegree == 0 && c.outdegree == 0
    {
      c := new Vertex(name, data);
    }

    /** Index of the first incident edge with `vi` at one end; -1 when there is none and
        always -1 for the vertex itself. */
    method FindAdjoin(vi: Vertex<D>) returns (i: int)
      ensures i == FindIn(edges, this, vi)
      ensures vi == this ==> i == -1
      ensures i >= 0 ==> i < |edges| && edges[i].Touches(vi)
      ensures i >= 0 ==> forall j :: 0 <= j < i ==> !edges[j].Touches(vi)
      ensures i == -1 && vi != this ==> forall j :: 0 <= j < |edges| ==> !edges[j].Touches(vi)
    {
      if vi == this {
        return -1;
      }
      var k := 0;
      while k < |edges|
        invariant 0 <= k <= |edges|
        invariant forall j :: 0 <= j < k ==> !edges[j].Touches(vi)
      {
        if edges[k].from == vi || edges[k].to == vi {
          return k;
        }
        k := k + 1;
      }
      return -1;
    }

    /**
     * Adjoin. Recurses on `next` with the mirror edge, and `next`'s call recurses back,
     * finds `next` already adjoined and stops, so the measure is the number of the two
     * directions not yet adjoined. `next != this` is required: FindAdjoin never reports
     * a vertex adjoined to itself, so adjoining a vertex to itself recurses forever.
     */
    method Adjoin(next: Vertex<D>, e: Edge) returns (err: Option<VertexError>)
      requires next != this
      modifies this, next
      decreases (if Adjoined(edges, this, next) then 0 else 1) + (if Adjoined(next.edges, next, this) then 0 else 1)
      ensures var o := AdjoinPair(old(State()), old(next.State()), this, next, e);
        State() == o.mine && next.State() == o.theirs && err == o.err
      ensures name == old(name) && data == old(data)
      ensures next.name == old(next.name) && next.data == old(next.data)
    {
      var index := FindAdjoin(next);
      if index != -1 {
        return None;
      }
      var link: Link<Vertex<D>>;
      var reverseEdgeType: EdgeType;
      match e.kind {
        case BackwardEdge =>
          outdegree := outdegree + 1;
          link := Link(BackwardEdge, e.weight, this, next);
          reverseEdgeType := ForwardEdge;
        case ForwardEdge =>
          indegree := indegree + 1;
          link := Link(ForwardEdge, e.weight, next, this);
          reverseEdgeType := BackwardEdge;
        case UndirectedEdge =>
          indegree := indegree + 1;
          outdegree := outdegree + 1;
          link := Link(UndirectedEdge, e.weight, this, next);
          reverseEdgeType := UndirectedEdge;
        case UnknownEdge(_) =>
          return Some(UnknownEdgeType(e.kind));
      }
      edges := edges + [link];
      assert edges[|edges| - 1].Touches(next);
      var reverseEdge := Edge(reverseEdgeType, e.weight);
      err := next.Adjoin(this, reverseEdge);
    }

    /** SetEdge: give the incident edge touching `adj` the weight of `e`; the mirror on `adj`
        is a separate record and keeps its weight (only this vertex is modified). */
    method SetEdge(adj: Vertex<D>, e: Edge) returns (err: Option<VertexError>)
      modifies this
      ensures FindIn(old(edges), this, adj) == -1 ==> err == Some(VertexNotAdjoined) && State() == old(State())
      ensures FindIn(old(edges), this, adj) >= 0 ==>
        err == None && State() == SetWeightAt(old(State()), FindIn(old(edges), this, adj), e.weight)
      ensures name == old(name) && data == old(data)
    {
      var index := FindAdjoin(adj);
      if index == -1 {
        return Some(VertexNotAdjoined);
      }
      edges := edges[index := edges[index].(weight := e.weight)];
      return None;
    }

    /**
     * RemoveAdjoin: remove the first incident edge touching `adj`, lower `indegree` for a
     * forward edge and `outdegree` for any other, then ask `adj` to do the same towards
     * this vertex. Each call removes one edge, which bounds the recursion.
     */
    method RemoveAdjoin(adj: Vertex<D>)
      modifies this, adj
      decreases Count(edges, adj) + Count(adj.edges, this)
      ensures adj == this ==> State() == old(State())
      ensures adj != this ==> (State(), adj.State()) == RemovePair(old(State()), old(adj.State()), this, adj)
      ensures name == old(name) && data == old(data)
      ensures adj.name == old(adj.name) && adj.data == old(adj.data)
    {
      var index := FindAdjoin(adj);
      if index == -1 {
        return;
      }
      var edge := edges[index];
      RemoveAtCount(edges, index, adj);
      edges := SimpleVectors.RemoveAt(edges, index);
      if edge.kind.ForwardEdge? {
        indegree := indegree - 1;
      } else {
        outdegree := outdegree - 1;
      }
      adj.RemoveAdjoin(this);
    }

    /** Edges: a copy of the incident-edge list, in order. */
    method Edges() returns (ei: seq<Link<Vertex<D>>>)
      ensures ei == edges
    {
      ei := [];
      var k := 0;
      while k < |edges|
        invariant 0 <= k <= |edges|
        invariant ei == edges[..k]
      {
        ei := ei + [edges[k]];
        k := k + 1;
      }
      assert edges[..k] == edges;
    }

    /** EdgesForward: the forward and undirected incident edges, in list order. */
    method EdgesForward() returns (ei: seq<Link<Vertex<D>>>)
      ensures ei == ForwardView(edges)
      ensures DegreesMatch(State()) ==> |ei| == indegree
    {
      ei := [];
      var k := 0;
      while k < |edges|
        invariant 0 <= k <= |edges|
        invariant ei == View(edges[..k], In)
      {
        ViewAppend(edges[..k], [edges[k]], In);
        assert edges[..k + 1] == edges[..k] + [edges[k]];
        if edges[k].kind.ForwardEdge? || edges[k].kind.UndirectedEdge? {
          ei := ei + [edges[k]];
        }
        k := k + 1;
      }
      assert edges[..k] == edges;
    }

    /** EdgesBackward: the backward and undirected incident edges, in list order. */
    method EdgesBackward() returns (ei: seq<Link<Vertex<D>>>)
      ensures ei == BackwardView(edges)
      ensures DegreesMatch(State()) ==> |ei| == outdegree
    {
      ei := [];
      var k := 0;
      while k < |edges|
        invariant 0 <= k <= |edges|
        invariant ei == View(edges[..k], Out)
      {
        ViewAppend(edges[..k], [edges[k]], Out);
        assert edges[..k + 1] == edges[..k] + [edges[k]];
        if edges[k].kind.BackwardEdge? || edges[k].kind.UndirectedEdge? {
          ei := ei + [edges[k]];
        }
        k := k + 1;
      }
      assert edges[..k] == edges;
    }

    /** The cached counter; it equals the number of forward views when the counters are consistent. */
    method Indegree() returns (d: int)
      ensures d == indegree
      ensures DegreesMatch(State()) ==> d == |ForwardView(edges)|
    {
      return indegree;
    }

    method Outdegree() returns (d: int)
      ensures d == outdegree
      ensures DegreesMatch(State()) ==> d == |BackwardView(edges)|
    {
      return outdegree;
    }
  }

  /**
   * Two fresh vertices: adjoin with a backward edge of weight 5, adjoin again with another
   * edge, then remove. After the first Adjoin each side holds one edge to the other (a
   * backward one on `a`, its forward mirror of the same weight on `b`) and the counters
   * moved accordingly; the second Adjoin changes nothing; RemoveAdjoin empties both lists.
   */
  method AdjoinScenario() returns (fa: int, fb: int, aOut: int, bIn: int, bKind: EdgeType, bWeight: int,
                                   again: Option<VertexError>, aLen: nat, bLen: nat,
                                   aAfter: nat, bAfter: nat, aOutAfter: int, bInAfter: int)
    ensures fa == 0 && fb == 0 && aOut == 1 && bIn == 1
    ensures bKind == ForwardEdge && bWeight == 5
    ensures again == None && aLen == 1 && bLen == 1
    ensures aAfter == 0 && bAfter == 0 && aOutAfter == 0 && bInAfter == 0
  {
    var a := new Vertex<int>("a", 0);
    var b := new Vertex<int>("b", 1);
    var empty: Side<Vertex<int>> := Side([], 0, 0);
    assert !Adjoined(empty.edges, a, b) && !Adjoined(empty.edges, b, a);
    var err := a.Adjoin(b, Edge(BackwardEdge, 5));
    assert a.State() == Side([Link(BackwardEdge, 5, a, b)], 0, 1);
    assert b.State() == Side([Link(ForwardEdge, 5, a, b)], 1, 0);
    assert a.edges[0].Touches(b) && b.edges[0].Touches(a);
    fa := a.FindAdjoin(b);
    fb := b.FindAdjoin(a);
    aOut := a.outdegree;
    bIn := b.indegree;
    bKind := b.edges[0].kind;
    bWeight := b.edges[0].weight;
    again := a.Adjoin(b, Edge(UndirectedEdge, 7));
    assert a.State() == Side([Link(BackwardEdge, 5, a, b)], 0, 1);
    assert b.State() == Side([Link(ForwardEdge, 5, a, b)], 1, 0);
    aLen := |a.edges|;
    bLen := |b.edges|;
    var sa, sb := a.State(), b.State();
    CountOne(Link(BackwardEdge, 5, a, b), b);
    CountOne(Link(ForwardEdge, 5, a, b), a);
    RemovePairSingle(sa, sb, a, b);
    a.RemoveAdjoin(b);
    aAfter := |a.edges|;
    bAfter := |b.edges|;
    aOutAfter := a.outdegree;
    bInAfter := b.indegree;
  }
}
