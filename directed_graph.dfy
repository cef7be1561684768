/**
 * The second UndirectedGraph, of graph/directed_graph.go: it embeds the graph struct and
 * its InsertEdge checks both names, overwrites the caller's edge type with UndirectedEdge
 * and hands Adjoin's own result back to the caller.
 */
module ForcedUndirectedGraphs {
  import opened Wrappers
  import opened Edges
  import opened Adjacency
  import opened Vertices
  import opened Graphs

  /** The errors this InsertEdge can return: a missing vertex, or whatever Adjoin returned. */
  datatype InsertError = VertexMissing(name: string) | AdjoinFailed(cause: VertexError)

  class UndirectedGraph<D> {
    /** The embedded graph struct. */
    var base: AbstractGraph<D>

    constructor (name: string)
      ensures fresh(base) && base.name == name && base.verteces == map[]
      ensures base.KeyedByName() && base.Healthy()
    {
      base := new AbstractGraph(name);
    }

    /**
     * InsertEdge: an error, with nothing changed, when either name is not a key; otherwise
     * the caller's edge now has type UndirectedEdge (its other fields kept) and Adjoin
     * runs with it, its error passed on. Since the forced type is always one Adjoin knows,
     * that error never occurs: the only errors are the two missing-name ones.
     */
    method InsertEdge(src: Vertex<D>, dst: Vertex<D>, ei: AbstractEdge<Vertex<D>>) returns (err: Option<InsertError>)
      requires src.name in base.verteces && dst.name in base.verteces ==> src != dst
      modifies src, dst, ei
      ensures old(src.name) !in base.verteces ==> err == Some(VertexMissing(old(src.name))) && unchanged(src, dst, ei)
      ensures old(src.name) in base.verteces && old(dst.name) !in base.verteces ==>
        err == Some(VertexMissing(old(dst.name))) && unchanged(src, dst, ei)
      ensures old(src.name) in base.verteces && old(dst.name) in base.verteces ==>
        && ei.edgeType == UndirectedEdge
        && ei.weight == old(ei.weight) && ei.state == old(ei.state)
        && var o := AdjoinPair(old(src.State()), old(dst.State()), src, dst, Edge(UndirectedEdge, old(ei.weight)));
           src.State() == o.mine && dst.State() == o.theirs
           && err == (if o.err.None? then None else Some(AdjoinFailed(o.err.value)))
      ensures err.None? <==> old(src.name) in base.verteces && old(dst.name) in base.verteces
      ensures src.name == old(src.name) && dst.name == old(dst.name)
      ensures old(base.KeyedByName()) ==> base.KeyedByName()
      ensures old(base.Healthy()) && src in base.verteces.Values && dst in base.verteces.Values ==> base.Healthy()
    {
      if src.name !in base.verteces {
        return Some(VertexMissing(src.name));
      }
      if dst.name !in base.verteces {
        return Some(VertexMissing(dst.name));
      }
      ei.SetType(UndirectedEdge);
      var e := Edge(ei.edgeType, ei.weight);
      var r := Join(src, dst, e, base.verteces.Values);
      match r {
        case None => err := None;
        case Some(cause) => err := Some(AdjoinFailed(cause));
      }
    }
  }
}
