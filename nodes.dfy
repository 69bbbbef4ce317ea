/**
 * The two node records the graph of graph.cpp is linked from (vertex.cpp and
 * edge.cpp): a vertex holds its label, the next vertex of the vertex chain
 * and the first edge of its own edge chain; an edge holds its weight, the
 * next edge of its chain and the vertex it points to.  Each getter returns
 * the field last written by the constructor or by its setter, and each
 * setter writes its own field only.
 */
module Nodes {

  class Vertex {
    var name: string  // `label` in vertex.h (a reserved word here)
    var nextVertex: Vertex?
    var firstEdge: Edge?

    /** `Vertex()`: both links null; the label is the empty string a
        default-constructed std::string holds. */
    constructor Empty()
      ensures GetLabel() == "" && GetNextVertex() == null && GetFirstEdge() == null
    {
      name := "";
      nextVertex := null;
      firstEdge := null;
    }

    /** `Vertex(l)`. */
    constructor (l: string)
      ensures GetLabel() == l && GetNextVertex() == null && GetFirstEdge() == null
    {
      name := l;
      nextVertex := null;
      firstEdge := null;
    }

    function GetLabel(): string
      reads this
    {
      name
    }

    function GetNextVertex(): Vertex?
      reads this
    {
      nextVertex
    }

    function GetFirstEdge(): Edge?
      reads this
    {
      firstEdge
    }

    method SetLabel(l: string)
      modifies this
      ensures GetLabel() == l
      ensures GetNextVertex() == old(GetNextVertex()) && GetFirstEdge() == old(GetFirstEdge())
    {
      name := l;
    }

    method SetNextVertex(v: Vertex?)
      modifies this
      ensures GetNextVertex() == v
      ensures GetLabel() == old(GetLabel()) && GetFirstEdge() == old(GetFirstEdge())
    {
      nextVertex := v;
    }

    method SetFirstEdge(e: Edge?)
      modifies this
      ensures GetFirstEdge() == e
      ensures GetLabel() == old(GetLabel()) && GetNextVertex() == old(GetNextVertex())
    {
      firstEdge := e;
    }
  }

  class Edge {
    var weight: int
    var nextEdge: Edge?
    var destVertex: Vertex?

    /** `Edge()`: both links null; the weight is left uninitialised, so
        nothing is promised about it. */
    constructor Empty()
      ensures GetNextEdge() == null && GetDestVertex() == null
    {
      var w: int :| true;
      weight := w;
      nextEdge := null;
      destVertex := null;
    }

    /** `Edge(w)`. */
    constructor (w: int)
      ensures GetWeight() == w && GetNextEdge() == null && GetDestVertex() == null
    {
      weight := w;
      nextEdge := null;
      destVertex := null;
    }

    function GetWeight(): int
      reads this
    {
      weight
    }

    function GetNextEdge(): Edge?
      reads this
    {
      nextEdge
    }

    function GetDestVertex(): Vertex?
      reads this
    {
      destVertex
    }

    method SetWeight(w: int)
      modifies this
      ensures GetWeight() == w
      ensures GetNextEdge() == old(GetNextEdge()) && GetDestVertex() == old(GetDestVertex())
    {
      weight := w;
    }

    method SetNextEdge(e: Edge?)
      modifies this
      ensures GetNextEdge() == e
      ensures GetWeight() == old(GetWeight()) && GetDestVertex() == old(GetDestVertex())
    {
      nextEdge := e;
    }

    method SetDestVertex(v: Vertex?)
      modifies this
      ensures GetDestVertex() == v
      ensures GetWeight() == old(GetWeight()) && GetNextEdge() == old(GetNextEdge())
    {
      destVertex := v;
    }
  }
}
