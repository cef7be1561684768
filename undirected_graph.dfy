/**
 * The undirected graph of graph/undirected_graph.go: an AbstractGraph whose InsertEdge
 * first refuses every edge type other than UndirectedEdge and then delegates.
 */
module UndirectedGraphs {
  import opened Wrappers
  import opened Edges
  import opened Adjacency
  import opened Vertices
  import opened Graphs

  class UndirectedGraph<D> {
    /** The embedded `*AbstractGraph`. */
    var base: AbstractGraph<D>

    /** NewUndirectedGraph: a fresh graph with the given name and no vertices. */
    constructor (name: string)
      ensures fresh(base) && base.name == name && base.verteces == map[]
      ensures base.KeyedByName() && base.Healthy()
    {
      base := new AbstractGraph(name);
    }

    /**
     * InsertEdge: a type other than UndirectedEdge is an error and nothing changes;
     * otherwise AbstractGraph.InsertEdge decides, with its existence checks. Between two
     * vertices not yet linked, a successful insert appends one undirected link on each side
     * and raises both counters of both endpoints by one.
     */
    method InsertEdge(src: Vertex<D>, dst: Vertex<D>, e: Edge) returns (err: Option<GraphError>)
      requires e.kind == UndirectedEdge && src.name in base.verteces && dst.name in base.verteces ==> src != dst
      modifies src, dst
      ensures e.kind != UndirectedEdge ==> err == Some(EdgeTypeNotUndirected(e.kind)) && unchanged(src, dst)
      ensures e.kind == UndirectedEdge && old(src.name) !in base.verteces ==>
        err == Some(VertexNotFound(old(src.name))) && unchanged(src, dst)
      ensures e.kind == UndirectedEdge && old(src.name) in base.verteces && old(dst.name) !in base.verteces ==>
        err == Some(VertexNotFound(old(dst.name))) && unchanged(src, dst)
      ensures e.kind == UndirectedEdge && old(src.name) in base.verteces && old(dst.name) in base.verteces ==>
        && err == None
        && var o := AdjoinPair(old(src.State()), old(dst.State()), src, dst, e);
           src.State() == o.mine && dst.State() == o.theirs
      ensures src.name == old(src.name) && dst.name == old(dst.name)
      ensures old(base.KeyedByName()) ==> base.KeyedByName()
      ensures old(base.Healthy()) && src in base.verteces.Values && dst in base.verteces.Values ==> base.Healthy()
      ensures err == None && src != dst && !old(Adjoined(src.edges, src, dst)) && !old(Adjoined(dst.edges, dst, src)) ==>
        && src.indegree == old(src.indegree) + 1 && src.outdegree == old(src.outdegree) + 1
        && dst.indegree == old(dst.indegree) + 1 && dst.outdegree == old(dst.outdegree) + 1
        && |src.edges| == old(|src.edges|) + 1 && src.edges[..old(|src.edges|)] == old(src.edges)
        && |dst.edges| == old(|dst.edges|) + 1 && dst.edges[..old(|dst.edges|)] == old(dst.edges)
        && src.edges[old(|src.edges|)].kind == UndirectedEdge && dst.edges[old(|dst.edges|)].kind == UndirectedEdge
    {
      if e.kind != UndirectedEdge {
        return Some(EdgeTypeNotUndirected(e.kind));
      }
      ghost var ss, ds := src.State(), dst.State();
      err := base.InsertEdge(src, dst, e);
      if err == None && src != dst && !Adjoined(ss.edges, src, dst) && !Adjoined(ds.edges, dst, src) {
        AdjoinUndirectedRaisesBoth(ss, ds, src, dst, e.weight);
        AdjoinLinksBoth(ss, ds, src, dst, e);
      }
    }
  }
}
