/** Directed edges between ids, looked up from either end. */
module AdjacencyList {
  import opened Texts
  import opened Commits

  datatype Edge = Edge(vertex: Id, fieldName: Text)

  /** An edge, with both of its ends. */
  datatype Link = Link(src: Id, dst: Id, fieldName: Text)

  function EdgesAt(edges: map<Id, set<Edge>>, id: Id): set<Edge>
  {
    if id in edges then edges[id] else {}
  }

  class SimpleAdjacencyList {
    var inEdges: map<Id, set<Edge>>
    var outEdges: map<Id, set<Edge>>
    ghost var links: set<Link>

    /** Both directions list exactly the same links. */
    ghost predicate Valid()
      reads this
    {
      && (forall src, dst, f :: Link(src, dst, f) in links <==> Edge(dst, f) in EdgesAt(outEdges, src))
      && (forall src, dst, f :: Link(src, dst, f) in links <==> Edge(src, f) in EdgesAt(inEdges, dst))
    }

    constructor ()
      ensures Valid() && links == {}
    {
      inEdges, outEdges, links := map[], map[], {};
    }

    method HasInEdges(id: Id) returns (has: bool)
      requires Valid()
      ensures has <==> exists src, f :: Link(src, id, f) in links
    {
      has := id in inEdges && |inEdges[id]| > 0;
      if has {
        var e :| e in inEdges[id];
        assert Edge(e.vertex, e.fieldName) in EdgesAt(inEdges, id);
      } else {
        assert EdgesAt(inEdges, id) == {};
      }
    }

    method AddEdge(src: Id, dst: Id, fieldName: Text) returns (success: bool)
      requires Valid()
      modifies this
      ensures Valid() && links == old(links) + {Link(src, dst, fieldName)}
      ensures success <==> Link(src, dst, fieldName) !in old(links)
    {
      var outSet := EdgesAt(outEdges, src);
      success := Edge(dst, fieldName) !in outSet;
      outEdges := outEdges[src := outSet + {Edge(dst, fieldName)}];
      var inSet := EdgesAt(inEdges, dst);
      assert success <==> Link(src, dst, fieldName) !in links;
      assert success <==> Edge(src, fieldName) !in inSet;
      inEdges := inEdges[dst := inSet + {Edge(src, fieldName)}];
      links := links + {Link(src, dst, fieldName)};
    }
  }
}
