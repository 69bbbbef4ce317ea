/**
 * The `Graph` class of graph.cpp.  Its state is the two mode flags and the
 * vertex chain, held as a sequence of vertex records in list order (each
 * with its edge chain as a sequence of destination/weight records).  Every
 * method states its effect against the value-level model: the state
 * `Model()` after the call is the spec function of graph_state.dfy,
 * symmetry.dfy, file_format.dfy or prim.dfy applied to the state before.
 */
module GraphEngine {
  import opened Wrappers
  import opened GraphState
  import opened Paths
  import opened Text
  import Decimal
  import Symmetry
  import Search
  import Spanning
  import FileFormat

  /** What the traversals return for a missing origin. */
  const NoOrigin: string := "There is not such origin vertex."
  /** What the routes return when an endpoint is missing. */
  const NoEndpoint: string := "At least one of the vertices doesn't exists"
  /** What the routes return when the destination is never reached. */
  const NoConnection: string := "\nThere is no conection between those vertices\n"

  // ---------------------------------------------------------------------
  // Texts
  // ---------------------------------------------------------------------

  /** getGraphType: each flag can be read back from its word. */
  function TypeName(directed: bool, weighted: bool): (t: string)
    ensures |t| >= 17 && (t[0] == 'D' <==> directed) && (t[|t| - 8] == 'W' <==> weighted)
  {
    (if directed then "Directed" else "Undirected") + (if weighted then " Weighted" else " Unweighted")
  }

  /** The four graph types have four different names. */
  lemma TypeNameInjective(d: bool, w: bool, d': bool, w': bool)
    ensures TypeName(d, w) == TypeName(d', w') <==> d == d' && w == w'
  {
    var t, t' := TypeName(d, w), TypeName(d', w');
    if d != d' {
      assert t[0] != t'[0];
    } else if w != w' {
      assert |t| != |t'|;
    }
  }

  /** One edge in toString: " -> dest", then ":weight" when weighted. */
  function EdgeItem(e: EdgeRec, weighted: bool): string
  {
    " -> " + e.dest + (if weighted then ":" + Decimal.IntToString(e.weight) else "")
  }

  function EdgesText(es: seq<EdgeRec>, weighted: bool): string
  {
    if es == [] then "" else EdgesText(es[..|es| - 1], weighted) + EdgeItem(es[|es| - 1], weighted)
  }

  /** The line of one vertex in toString. */
  function VertexLine(v: VertexRec, weighted: bool): string
  {
    v.name + EdgesText(v.edges, weighted)
  }

  function Lines(vs: seq<VertexRec>, weighted: bool): (r: seq<string>)
  {
    if vs == [] then [] else Lines(vs[..|vs| - 1], weighted) + [VertexLine(vs[|vs| - 1], weighted)]
  }

  /** toString: one newline-terminated line per vertex, in list order. */
  function GraphText(vs: seq<VertexRec>, weighted: bool): string
  {
    Suffixed(Lines(vs, weighted), "\n")
  }

  lemma {:induction false} LinesAt(vs: seq<VertexRec>, weighted: bool, k: nat)
    requires k < |vs|
    ensures |Lines(vs, weighted)| == |vs| && Lines(vs, weighted)[k] == VertexLine(vs[k], weighted)
  {
    var n := |vs| - 1;
    LinesLength(vs[..n], weighted);
    if k < n {
      LinesAt(vs[..n], weighted, k);
    }
  }

  lemma {:induction false} LinesLength(vs: seq<VertexRec>, weighted: bool)
    ensures |Lines(vs, weighted)| == |vs|
  {
    if vs != [] {
      LinesLength(vs[..|vs| - 1], weighted);
    }
  }

  /** An edge list whose destinations hold no newline is written without
      one. */
  lemma {:induction false} EdgesTextNoNewline(es: seq<EdgeRec>, weighted: bool)
    requires forall k :: 0 <= k < |es| ==> '\n' !in es[k].dest
    ensures '\n' !in EdgesText(es, weighted)
  {
    if es != [] {
      var e := es[|es| - 1];
      EdgesTextNoNewline(es[..|es| - 1], weighted);
      Decimal.IntToStringChars(e.weight);
      assert '\n' !in EdgeItem(e, weighted);
    }
  }

  /** When no label holds a newline, the lines of toString's text are the
      vertex lines, one per vertex in list order, each starting with the
      vertex's label. */
  lemma ToStringLines(vs: seq<VertexRec>, weighted: bool)
    requires WellFormed(vs) && forall k :: 0 <= k < |vs| ==> '\n' !in vs[k].name
    ensures SplitLines(GraphText(vs, weighted)) == Lines(vs, weighted) + [""]
    ensures |Lines(vs, weighted)| == |vs|
    ensures forall k :: 0 <= k < |vs| ==> Lines(vs, weighted)[k] == VertexLine(vs[k], weighted)
  {
    LinesLength(vs, weighted);
    forall k | 0 <= k < |vs| ensures Lines(vs, weighted)[k] == VertexLine(vs[k], weighted) {
      LinesAt(vs, weighted, k);
    }
    forall k | 0 <= k < |vs| ensures '\n' !in Lines(vs, weighted)[k] {
      assert EdgesOk(vs, vs[k].edges);
      forall j | 0 <= j < |vs[k].edges| ensures '\n' !in vs[k].edges[j].dest {
        var m :| 0 <= m < |vs| && Labels(vs)[m] == vs[k].edges[j].dest;
      }
      EdgesTextNoNewline(vs[k].edges, weighted);
    }
    SplitLinesOfSuffixed(Lines(vs, weighted));
  }

  /** One vertex of the walk of setIsDirected. */
  lemma WalkStep(vs: seq<VertexRec>, i: nat)
    requires i < |vs|
    ensures Symmetry.SymmetrizeFrom(vs, i) == Symmetry.SymmetrizeFrom(Symmetry.MirrorEdges(vs, vs[i].name, vs[i].edges), i + 1)
    ensures |Symmetry.MirrorEdges(vs, vs[i].name, vs[i].edges)| == |vs|
  {
    SameLength(vs, Symmetry.MirrorEdges(vs, vs[i].name, vs[i].edges));
  }

  /** One edge of the walk of one list. */
  lemma MirrorStep(vs: seq<VertexRec>, x: Label, es: seq<EdgeRec>, j: nat)
    requires j < |es|
    ensures Symmetry.MirrorEdges(vs, x, es[j..]) == Symmetry.MirrorEdges(Symmetry.Mirror(vs, x, es[j]), x, es[j + 1..])
  {
    assert es[j..][0] == es[j] && es[j..][1..] == es[j + 1..];
  }

  lemma SameLength(vs: seq<VertexRec>, vs': seq<VertexRec>)
    requires Labels(vs) == Labels(vs')
    ensures |vs| == |vs'|
  {
    assert |Labels(vs)| == |vs| && |Labels(vs')| == |vs'|;
  }

  /** The toString line of one more vertex. */
  lemma LinesSnoc(vs: seq<VertexRec>, weighted: bool, k: nat)
    requires k < |vs|
    ensures Lines(vs[..k + 1], weighted) == Lines(vs[..k], weighted) + [VertexLine(vs[k], weighted)]
  {
    assert vs[..k + 1][..k] == vs[..k];
  }

  /** The outer walk of setIsDirected: every vertex in list order, each
      list mirrored as it stands when the walk reaches its vertex. */
  method SymmetrizeList(vs0: seq<VertexRec>) returns (vs: seq<VertexRec>)
    ensures vs == Symmetry.Symmetrize(vs0)
  {
    vs := vs0;
    var i := 0;
    while i < |vs|
      invariant i <= |vs| && Symmetry.SymmetrizeFrom(vs, i) == Symmetry.Symmetrize(vs0)
    {
      WalkStep(vs, i);
      vs := MirrorList(vs, vs[i].name, vs[i].edges);
      i := i + 1;
    }
  }

  /** The inner walk of setIsDirected over the list es of vertex x: for
      each edge x -> d, d -> x is edited to its weight when existsEdge finds
      it and inserted otherwise (the graph is still directed, so each call
      touches that one edge). */
  method MirrorList(vs: seq<VertexRec>, x: Label, es: seq<EdgeRec>) returns (vs': seq<VertexRec>)
    ensures vs' == Symmetry.MirrorEdges(vs, x, es)
  {
    vs' := vs;
    var j := 0;
    while j < |es|
      invariant j <= |es| && Symmetry.MirrorEdges(vs', x, es[j..]) == Symmetry.MirrorEdges(vs, x, es)
    {
      MirrorStep(vs', x, es, j);
      vs' := Symmetry.Mirror(vs', x, es[j]);
      j := j + 1;
    }
  }

  /** Weights appear in toString exactly when the graph is weighted. */
  lemma WeightShown(weighted: bool)
    ensures forall e: EdgeRec, e': EdgeRec :: e.dest == e'.dest && e.weight != e'.weight ==>
              (EdgeItem(e, weighted) != EdgeItem(e', weighted) <==> weighted)
  {
    forall e: EdgeRec, e': EdgeRec | e.dest == e'.dest && e.weight != e'.weight && weighted
      ensures EdgeItem(e, weighted) != EdgeItem(e', weighted)
    {
      var p := " -> " + e.dest + ":";
      assert EdgeItem(e, weighted) == p + Decimal.IntToString(e.weight);
      assert EdgeItem(e', weighted) == p + Decimal.IntToString(e'.weight);
      if EdgeItem(e, weighted) == EdgeItem(e', weighted) {
        assert Decimal.IntToString(e.weight) == EdgeItem(e, weighted)[|p|..];
        assert Decimal.IntToString(e'.weight) == EdgeItem(e', weighted)[|p|..];
        Decimal.IntToStringInjective(e.weight, e'.weight);
      }
    }
  }

  /** The edges of one vertex as toString writes them, one at a time. */
  method EdgeListText(es: seq<EdgeRec>, weighted: bool) returns (t: string)
    ensures t == EdgesText(es, weighted)
  {
    t := "";
    var j := 0;
    while j < |es|
      invariant j <= |es| && t == EdgesText(es[..j], weighted)
    {
      assert es[..j + 1][..j] == es[..j];
      t := t + EdgeItem(es[j], weighted);
      j := j + 1;
    }
    assert es[..j] == es;
  }

  // ---------------------------------------------------------------------
  // The graph object
  // ---------------------------------------------------------------------

  /** A mutation's outcome: the new graph and no error, or the unchanged
      graph and the GraphException it throws. */
  function Applied(s: State, r: Result<State>): (State, Option<GraphError>)
  {
    if r.Ok? then (r.value, None) else (s, Some(r.error))
  }

  class Graph {
    var isDirected: bool
    var isWeighted: bool
    /** The vertex chain from `anchor` on. */
    var verts: seq<VertexRec>

    function Model(): State
      reads this
    {
      State(isDirected, isWeighted, verts)
    }

    /** Labels unique, edges only to vertices, at most one edge per ordered
        pair, and every edge mirrored while undirected. */
    ghost predicate Valid()
      reads this
    {
      GraphState.Valid(Model())
    }

    /** `Graph()`: empty, directed and weighted. */
    constructor ()
      ensures Valid() && Model() == State(true, true, [])
    {
      isDirected, isWeighted, verts := true, true, [];
    }

    /** `Graph(const Graph&)`: a copy made by copyGraph. */
    constructor Copy(g: Graph)
      requires g.Valid()
      ensures Valid() && Model() == FileFormat.Copy(g.Model())
    {
      var c := FileFormat.Copy(g.Model());
      isDirected, isWeighted, verts := c.directed, c.weighted, c.verts;
    }

    /** `operator=`: the graph is emptied, then copyGraph replays g. */
    method Assign(g: Graph)
      requires g != this && g.Valid()
      modifies this
      ensures Valid() && Model() == FileFormat.Copy(g.Model())
    {
      DeleteAll();
      var c := FileFormat.Copy(g.Model());
      isDirected, isWeighted, verts := c.directed, c.weighted, c.verts;
    }

    /** deleteAll: every vertex and edge goes; the flags stay. */
    method DeleteAll()
      modifies this
      ensures Model() == State(old(isDirected), old(isWeighted), [])
    {
      verts := [];
    }

    function IsEmpty(): (b: bool)
      reads this
      ensures b <==> forall l :: l !in Labels(verts)
    {
      assert verts == [] ==> Labels(verts) == [];
      assert verts != [] ==> Labels(verts)[0] == verts[0].name && verts[0].name in Labels(verts);
      verts == []
    }

    /** getIsDirected; while it is false every edge has its mirror with the
        same weight. */
    function GetIsDirected(): (b: bool)
      reads this
      ensures b == isDirected
      ensures Valid() && !b ==> forall u, v :: W(verts, u, v) == W(verts, v, u)
    {
      isDirected
    }

    /** getIsWeighted; the flag decides whether toString shows weights: two
        edges to the same destination with different weights are written
        differently exactly when it is true. */
    function GetIsWeighted(): (b: bool)
      reads this
      ensures b == isWeighted
      ensures forall e: EdgeRec, e': EdgeRec :: e.dest == e'.dest && e.weight != e'.weight ==>
                (EdgeItem(e, b) != EdgeItem(e', b) <==> b)
    {
      WeightShown(isWeighted);
      isWeighted
    }

    /** getGraphType: the name tells the graph's type, and only that type
        has it. */
    function GetGraphType(): (t: string)
      reads this
      ensures forall d, w :: TypeName(d, w) == t <==> d == isDirected && w == isWeighted
    {
      TypeName(isDirected, isWeighted)
    }

    method SetIsWeighted(b: bool)
      requires Valid()
      modifies this
      ensures Valid() && Model() == old(Model()).(weighted := b)
    {
      isWeighted := b;
    }

    /** setIsDirected: switching a directed graph to undirected walks every
        vertex x in list order and mirrors each edge of x's list as it
        stands when the walk reaches x; any other switch only sets the
        flag. */
    method SetIsDirected(b: bool)
      requires Valid()
      modifies this
      ensures Valid() && Model() == Symmetry.SetDirected(old(Model()), b)
    {
      if isDirected && !b {
        verts := SymmetrizeList(verts);
      }
      isDirected := b;
      assert Model() == Symmetry.SetDirected(old(Model()), b);
    }

    /** getNumVertices. */
    method NumVertices() returns (n: nat)
      ensures n == |Labels(verts)|
    {
      n := 0;
      var rest := verts;
      while rest != []
        invariant n + |rest| == |verts|
      {
        n := n + 1;
        rest := rest[1..];
      }
    }

    /** getNumEdges, for the vertex at position i of the chain. */
    method NumEdges(i: nat) returns (n: nat)
      requires i < |verts|
      ensures n == |verts[i].edges|
      ensures Distinct(Labels(verts)) ==> n == |EdgesOf(verts, verts[i].name)|
    {
      if Distinct(Labels(verts)) {
        EdgesOfAt(verts, i);
      }
      n := 0;
      var rest := verts[i].edges;
      while rest != []
        invariant n + |rest| == |verts[i].edges|
      {
        n := n + 1;
        rest := rest[1..];
      }
    }

    /** findVertex: the position of the first vertex with that label, or
        None for the null pointer. */
    method FindVertex(l: Label) returns (i: Option<nat>)
      ensures i.None? <==> l !in Labels(verts)
      ensures i.Some? ==> i.value < |verts| && verts[i.value].name == l && i.value == IndexOf(Labels(verts), l)
    {
      var k := 0;
      while k < |verts|
        invariant k <= |verts| && forall j :: 0 <= j < k ==> verts[j].name != l
      {
        if verts[k].name == l {
          Search.IndexOfFirst(Labels(verts), l, k);
          return Some(k);
        }
        k := k + 1;
      }
      return None;
    }

    /** existsEdge: both vertices exist and the origin's list has an edge
        to the destination. */
    method ExistsEdge(o: Label, d: Label) returns (b: bool)
      requires Valid()
      ensures b <==> HasEdge(verts, o, d)
    {
      var oi := FindVertex(o);
      var di := FindVertex(d);
      if oi.None? || di.None? {
        if HasEdge(verts, o, d) {
          EdgeTargetsExist(verts, o, d);
        }
        return false;
      }
      var es := verts[oi.value].edges;
      var k := 0;
      while k < |es|
        invariant k <= |es| && forall j :: 0 <= j < k ==> es[j].dest != d
      {
        if es[k].dest == d {
          assert Dests(es)[k] == d;
          return true;
        }
        k := k + 1;
      }
      assert d !in Dests(es);
      return false;
    }

    /** Takes on a mutation's outcome. */
    method Commit(next: (State, Option<GraphError>)) returns (err: Option<GraphError>)
      requires GraphState.Valid(next.0) && next.0.directed == isDirected && next.0.weighted == isWeighted
      modifies this
      ensures Valid() && Model() == next.0 && err == next.1
    {
      verts := next.0.verts;
      err := next.1;
    }

    method InsertVertex(l: Label) returns (err: Option<GraphError>)
      requires Valid()
      modifies this
      ensures Valid()
      ensures (Model(), err) == Applied(old(Model()), GraphState.InsertVertex(old(Model()), l))
    {
      var found := FindVertex(l);
      if found.Some? {
        return Some(DuplicateVertex);
      }
      AppendVertexEffect(verts, l);
      verts := verts + [VertexRec(l, [])];
      err := None;
    }

    method DeleteVertex(x: Label) returns (err: Option<GraphError>)
      requires Valid() && (isDirected || !HasEdge(verts, x, x))
      modifies this
      ensures Valid()
      ensures (Model(), err) == Applied(old(Model()), GraphState.DeleteVertex(old(Model()), x))
    {
      err := Commit(Applied(Model(), GraphState.DeleteVertex(Model(), x)));
    }

    method EditVertex(a: Label, b: Label) returns (err: Option<GraphError>)
      requires Valid()
      modifies this
      ensures Valid()
      ensures (Model(), err) == Applied(old(Model()), GraphState.EditVertex(old(Model()), a, b))
    {
      err := Commit(Applied(Model(), GraphState.EditVertex(Model(), a, b)));
    }

    method InsertEdge(o: Label, d: Label, w: int) returns (err: Option<GraphError>)
      requires Valid()
      modifies this
      ensures Valid()
      ensures (Model(), err) == Applied(old(Model()), GraphState.InsertEdge(old(Model()), o, d, w))
    {
      err := Commit(Applied(Model(), GraphState.InsertEdge(Model(), o, d, w)));
    }

    method DeleteEdge(o: Label, d: Label) returns (err: Option<GraphError>)
      requires Valid() && (isDirected || o != d)
      modifies this
      ensures Valid()
      ensures (Model(), err) == Applied(old(Model()), GraphState.DeleteEdge(old(Model()), o, d))
    {
      err := Commit(Applied(Model(), GraphState.DeleteEdge(Model(), o, d)));
    }

    method EditEdge(o: Label, d: Label, w: int) returns (err: Option<GraphError>)
      requires Valid()
      modifies this
      ensures Valid()
      ensures (Model(), err) == Applied(old(Model()), GraphState.EditEdge(old(Model()), o, d, w))
    {
      err := Commit(Applied(Model(), GraphState.EditEdge(Model(), o, d, w)));
    }

    /** toString: each vertex's label, then " -> dest" (and ":weight" when
        weighted) per edge, then a newline. */
    method ToString() returns (text: string)
      ensures text == GraphText(verts, isWeighted)
    {
      text := "";
      var k := 0;
      while k < |verts|
        invariant k <= |verts| && text == Suffixed(Lines(verts[..k], isWeighted), "\n")
      {
        var edgesText := EdgeListText(verts[k].edges, isWeighted);
        LinesSnoc(verts, isWeighted, k);
        SuffixedSnoc(Lines(verts[..k], isWeighted), verts[k].name + edgesText, "\n");
        text := text + (verts[k].name + edgesText) + "\n";
        k := k + 1;
      }
      assert verts[..k] == verts;
    }

    /** saveToFile: the text written to the file. */
    method SaveToFile() returns (text: string)
      ensures text == FileFormat.SaveText(Model())
    {
      text := FileFormat.SaveText(Model());
    }

    /** getFromFile: `file` is the file's text, or None when it cannot be
        opened. */
    method GetFromFile(file: Option<string>) returns (r: Result<bool>)
      requires Valid()
      requires file.Some? ==> FileFormat.Decode(SplitLines(file.value)).Some?
      modifies this
      ensures Valid()
      ensures (r, Model()) == FileFormat.LoadFile(old(Model()), file)
    {
      DeleteAll();
      var loaded := FileFormat.LoadFile(State(isDirected, isWeighted, []), file);
      r := loaded.0;
      isDirected, isWeighted, verts := loaded.1.directed, loaded.1.weighted, loaded.1.verts;
    }

    /** The traversal shared by breadthFirstTraverse (lifo false) and
        depthFirstTraverse (lifo true): every vertex reachable from the
        origin once, the origin first, each entered from one listed before
        it, joined by " -> " and followed by the one space the final cut
        leaves. */
    method Traverse(origin: Label, lifo: bool) returns (text: string, ghost order: seq<Label>)
      requires Valid()
      ensures origin !in Labels(verts) ==> text == NoOrigin
      ensures origin in Labels(verts) ==>
        && text == Interleaved(order, " -> ") + " "
        && order != [] && order[0] == origin
        && Distinct(order) && EnteredInOrder(verts, order)
        && forall v :: v in order <==> Reachable(verts, origin, v)
    {
      var oi := FindVertex(origin);
      if oi.None? {
        return NoOrigin, [];
      }
      var visits, pairs, found;
      ghost var up, at;
      visits, pairs, found, up, at := Search.Explore(verts, origin, lifo, None);
      TrimmedList(visits, " -> ");
      text, order := Trim3(Suffixed(visits, " -> ")), visits;
    }

    method BreadthFirstTraverse(origin: Label) returns (text: string, ghost order: seq<Label>)
      requires Valid()
      ensures origin !in Labels(verts) ==> text == NoOrigin
      ensures origin in Labels(verts) ==>
        && text == Interleaved(order, " -> ") + " "
        && order != [] && order[0] == origin
        && Distinct(order) && EnteredInOrder(verts, order)
        && forall v :: v in order <==> Reachable(verts, origin, v)
    {
      text, order := Traverse(origin, false);
    }

    method DepthFirstTraverse(origin: Label) returns (text: string, ghost order: seq<Label>)
      requires Valid()
      ensures origin !in Labels(verts) ==> text == NoOrigin
      ensures origin in Labels(verts) ==>
        && text == Interleaved(order, " -> ") + " "
        && order != [] && order[0] == origin
        && Distinct(order) && EnteredInOrder(verts, order)
        && forall v :: v in order <==> Reachable(verts, origin, v)
    {
      text, order := Traverse(origin, true);
    }

    /** The route search shared by breadthFirstRoute (lifo false) and
        depthFirstRoute (lifo true).  A found route lists distinct labels
        from the destination back to the origin, each the child of an edge
        from the next; it is empty when origin and destination coincide. */
    method Route(origin: Label, dest: Label, lifo: bool) returns (text: string, ghost route: seq<Label>)
      requires Valid()
      ensures origin !in Labels(verts) || dest !in Labels(verts) ==> text == NoEndpoint
      ensures origin in Labels(verts) && dest in Labels(verts) && !Reachable(verts, origin, dest) ==>
        text == NoConnection
      ensures origin in Labels(verts) && dest in Labels(verts) && Reachable(verts, origin, dest) ==>
        && text == Trim3(Suffixed(route, " <- "))
        && (route == [] <==> origin == dest)
        && (route != [] ==> route[0] == dest && route[|route| - 1] == origin && Distinct(route))
        && forall k :: 0 <= k < |route| - 1 ==> HasEdge(verts, route[k + 1], route[k])
    {
      var oi := FindVertex(origin);
      var di := FindVertex(dest);
      if oi.None? || di.None? {
        return NoEndpoint, [];
      }
      var order, pairs, found;
      ghost var up, at;
      order, pairs, found, up, at := Search.Explore(verts, origin, lifo, Some(dest));
      if !found {
        return NoConnection, [];
      }
      ghost var js;
      text, route, js := Search.GetRoute(pairs, dest, origin, order, up, at);
      forall k | 0 <= k < |route| - 1 ensures HasEdge(verts, route[k + 1], route[k]) {
        assert Search.PairEdges(verts, pairs);
        assert pairs[js[k]] == (route[k + 1], route[k]);
      }
    }

    method BreadthFirstRoute(origin: Label, dest: Label) returns (text: string, ghost route: seq<Label>)
      requires Valid()
      ensures origin !in Labels(verts) || dest !in Labels(verts) ==> text == NoEndpoint
      ensures origin in Labels(verts) && dest in Labels(verts) && !Reachable(verts, origin, dest) ==>
        text == NoConnection
      ensures origin in Labels(verts) && dest in Labels(verts) && Reachable(verts, origin, dest) ==>
        && text == Trim3(Suffixed(route, " <- "))
        && (route == [] <==> origin == dest)
        && (route != [] ==> route[0] == dest && route[|route| - 1] == origin && Distinct(route))
        && forall k :: 0 <= k < |route| - 1 ==> HasEdge(verts, route[k + 1], route[k])
    {
      text, route := Route(origin, dest, false);
    }

    method DepthFirstRoute(origin: Label, dest: Label) returns (text: string, ghost route: seq<Label>)
      requires Valid()
      ensures origin !in Labels(verts) || dest !in Labels(verts) ==> text == NoEndpoint
      ensures origin in Labels(verts) && dest in Labels(verts) && !Reachable(verts, origin, dest) ==>
        text == NoConnection
      ensures origin in Labels(verts) && dest in Labels(verts) && Reachable(verts, origin, dest) ==>
        && text == Trim3(Suffixed(route, " <- "))
        && (route == [] <==> origin == dest)
        && (route != [] ==> route[0] == dest && route[|route| - 1] == origin && Distinct(route))
        && forall k :: 0 <= k < |route| - 1 ==> HasEdge(verts, route[k + 1], route[k])
    {
      text, route := Route(origin, dest, true);
    }

    /** primSpanningTree: the tree is returned as a new graph value. */
    method PrimSpanningTree(origin: Label) returns (r: Result<State>, ghost steps: seq<Spanning.Candidate>)
      requires Valid()
      ensures r.Err? <==> origin !in Labels(verts)
      ensures r.Err? ==> r.error == VertexNotFound
      ensures r.Ok? ==> Spanning.Spans(verts, origin, steps, r.value)
    {
      r, steps := Spanning.Prim(Model(), origin);
    }
  }
}
