/**
 * Edges of graph/edge.go and the edge records that graph/vertex.go stores.
 *
 * `EdgeType` is a string in the source; the three named constants become constructors
 * and every other string (the empty type of a fresh edge among them) is `UnknownEdge`.
 */
module Edges {
  import opened Wrappers

  datatype EdgeType = ForwardEdge | BackwardEdge | UndirectedEdge | UnknownEdge(tag: string)
  {
    /** One of the three types Adjoin recognises. */
    predicate Known() {
      !UnknownEdge?
    }

    /** An edge counted by `indegree` and listed by EdgesForward. */
    predicate Incoming() {
      ForwardEdge? || UndirectedEdge?
    }

    /** An edge counted by `outdegree` and listed by EdgesBackward. */
    predicate Outgoing() {
      BackwardEdge? || UndirectedEdge?
    }
  }

  /** The type Adjoin gives the mirror it builds on the other endpoint. */
  function Reversed(t: EdgeType): (r: EdgeType)
    requires t.Known()
    ensures r.Known()
    ensures r.Incoming() == t.Outgoing() && r.Outgoing() == t.Incoming()
  {
    match t
    case BackwardEdge => ForwardEdge
    case ForwardEdge => BackwardEdge
    case UndirectedEdge => UndirectedEdge
  }

  /** An edge as a caller hands it to Adjoin, InsertEdge or SetEdge: endpoints not yet set. */
  datatype Edge = Edge(kind: EdgeType, weight: int)
  {
    /** The edge Adjoin builds for the other endpoint: a copy keeping the weight, with the reversed type. */
    function Mirror(): (m: Edge)
      requires kind.Known()
      ensures m.weight == weight && m.kind.Known()
      ensures m.kind.Incoming() == kind.Outgoing() && m.kind.Outgoing() == kind.Incoming()
    {
      Edge(Reversed(kind), weight)
    }
  }

  /** An edge record stored in a vertex's incident list, with the endpoints Adjoin set.
      Endpoints are compared by identity, standing for the source's deep equality. */
  datatype Link<V(==)> = Link(kind: EdgeType, weight: int, from: V, to: V)
  {
    predicate Touches(u: V) {
      from == u || to == u
    }
  }

  /** The edge struct of graph/edge.go: a type, a weight, a state and a single vertex. */
  class AbstractEdge<V> {
    var edgeType: EdgeType
    var weight: int
    var state: string
    var vertex: Option<V>

    /** NewEdge: every field at its zero value. */
    constructor ()
      ensures edgeType == UnknownEdge("") && weight == 0 && state == "" && vertex == None
    {
      edgeType := UnknownEdge("");
      weight := 0;
      state := "";
      vertex := None;
    }

    method SetType(t: EdgeType)
      modifies this
      ensures edgeType == t
      ensures weight == old(weight) && state == old(state) && vertex == old(vertex)
    {
      edgeType := t;
    }

    method SetWeight(w: int)
      modifies this
      ensures weight == w
      ensures edgeType == old(edgeType) && state == old(state) && vertex == old(vertex)
    {
      weight := w;
    }

    method SetState(s: string)
      modifies this
      ensures state == s
      ensures edgeType == old(edgeType) && weight == old(weight) && vertex == old(vertex)
    {
      state := s;
    }

    method SetVertex(v: V)
      modifies this
      ensures vertex == Some(v)
      ensures edgeType == old(edgeType) && weight == old(weight) && state == old(state)
    {
      vertex := Some(v);
    }

    method Type() returns (t: EdgeType)
      ensures t == edgeType
    {
      return edgeType;
    }

    method Weight() returns (w: int)
      ensures w == weight
    {
      return weight;
    }

    method State() returns (s: string)
      ensures s == state
    {
      return state;
    }

    method Vertex() returns (v: Option<V>)
      ensures v == vertex
    {
      return vertex;
    }
  }

  /** Each getter of a fresh edge returns the last value its setter was given, whatever the
      other setters did in between; an edge never set reads back as the zero values. */
  method EdgeAccessors<V>(t: EdgeType, w: int, s: string, v: V)
    returns (fresh0: EdgeType, t1: EdgeType, w1: int, s1: string, v1: Option<V>)
    ensures fresh0 == UnknownEdge("")
    ensures t1 == t && w1 == w && s1 == s && v1 == Some(v)
  {
    var e := new AbstractEdge<V>();
    fresh0 := e.Type();
    e.SetType(t);
    e.SetWeight(w);
    e.SetState(s);
    e.SetVertex(v);
    t1 := e.Type();
    w1 := e.Weight();
    s1 := e.State();
    v1 := e.Vertex();
  }
}
