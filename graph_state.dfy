/**
 * Value-level model of the labelled graph of graph.cpp.
 *
 * The C++ graph is a chain of `Vertex` nodes, each owning a chain of `Edge`
 * nodes that point at their destination vertex.  Here the vertex chain is a
 * sequence of vertex records in list order, and each edge chain is a sequence
 * of (destination label, weight) records in list order.  Because an edge names
 * its destination by label, renaming a vertex also renames the edges that end
 * in it (the C++ edges follow the vertex object instead).
 *
 * The abstract view used in every contract is `Labels(vs)` (the vertex labels
 * in list order) and `W(vs, u, v)` (the weight of the edge u -> v, or None).
 */
module GraphState {
  import opened Wrappers

  type Label = string

  /** The three ways a mutation of graph.cpp throws `GraphException`. */
  datatype GraphError = DuplicateVertex | VertexNotFound | EdgeNotFound

  datatype Result<T> = Ok(value: T) | Err(error: GraphError)

  datatype EdgeRec = EdgeRec(dest: Label, weight: int)

  datatype VertexRec = VertexRec(name: Label, edges: seq<EdgeRec>)

  /** A whole graph: its two mode flags and its vertex list. */
  datatype State = State(directed: bool, weighted: bool, verts: seq<VertexRec>)

  // ---------------------------------------------------------------------
  // Abstract view
  // ---------------------------------------------------------------------

  function Labels(vs: seq<VertexRec>): (ls: seq<Label>)
    ensures |ls| == |vs|
    ensures forall i :: 0 <= i < |vs| ==> ls[i] == vs[i].name
  {
    seq(|vs|, i requires 0 <= i < |vs| => vs[i].name)
  }

  function Dests(es: seq<EdgeRec>): (ds: seq<Label>)
    ensures |ds| == |es|
    ensures forall k :: 0 <= k < |es| ==> ds[k] == es[k].dest
  {
    seq(|es|, k requires 0 <= k < |es| => es[k].dest)
  }

  predicate Distinct(xs: seq<Label>)
  {
    forall i, j :: 0 <= i < j < |xs| ==> xs[i] != xs[j]
  }

  /** Position of the first occurrence of `x`, as a list scan finds it. */
  function IndexOf(xs: seq<Label>, x: Label): (i: nat)
    requires x in xs
    ensures i < |xs| && xs[i] == x
    ensures forall k :: 0 <= k < i ==> xs[k] != x
  {
    if xs[0] == x then 0 else 1 + IndexOf(xs[1..], x)
  }

  /** Weight of the first edge to `d` in an adjacency list. */
  function WeightIn(es: seq<EdgeRec>, d: Label): (r: Option<int>)
    ensures r.Some? <==> d in Dests(es)
  {
    if es == [] then None
    else if es[0].dest == d then Some(es[0].weight)
    else (assert Dests(es) == [es[0].dest] + Dests(es[1..]); WeightIn(es[1..], d))
  }

  /** The adjacency list of vertex `u`; empty when there is no such vertex. */
  function EdgesOf(vs: seq<VertexRec>, u: Label): seq<EdgeRec>
  {
    if u in Labels(vs) then vs[IndexOf(Labels(vs), u)].edges else []
  }

  /** Weight of the edge u -> v, or None when there is no such edge. */
  function W(vs: seq<VertexRec>, u: Label, v: Label): Option<int>
  {
    WeightIn(EdgesOf(vs, u), v)
  }

  predicate HasEdge(vs: seq<VertexRec>, u: Label, v: Label)
  {
    W(vs, u, v).Some?
  }

  // ---------------------------------------------------------------------
  // Invariants of a graph
  // ---------------------------------------------------------------------

  /** An adjacency list holds at most one edge per destination and no
      edge to a vertex that is not in the graph. */
  predicate EdgesOk(vs: seq<VertexRec>, es: seq<EdgeRec>)
  {
    Distinct(Dests(es)) && forall k :: 0 <= k < |es| ==> es[k].dest in Labels(vs)
  }

  /** Labels are unique and every adjacency list is well formed. */
  predicate WellFormed(vs: seq<VertexRec>)
  {
    Distinct(Labels(vs)) && forall i :: 0 <= i < |vs| ==> EdgesOk(vs, vs[i].edges)
  }

  /** Every edge u -> v has a reverse v -> u of equal weight. */
  ghost predicate Symmetric(vs: seq<VertexRec>)
  {
    forall u, v :: W(vs, u, v) == W(vs, v, u)
  }

  ghost predicate Valid(s: State)
  {
    WellFormed(s.verts) && (!s.directed ==> Symmetric(s.verts))
  }

  // ---------------------------------------------------------------------
  // Facts about the abstract view
  // ---------------------------------------------------------------------

  lemma {:induction false} WeightInAt(es: seq<EdgeRec>, k: nat)
    requires Distinct(Dests(es)) && k < |es|
    ensures WeightIn(es, es[k].dest) == Some(es[k].weight)
  {
    if k > 0 {
      assert es[0].dest != es[k].dest by { assert Dests(es)[0] != Dests(es)[k]; }
      assert Distinct(Dests(es[1..])) by {
        forall i, j | 0 <= i < j < |es| - 1 ensures Dests(es[1..])[i] != Dests(es[1..])[j] {
          assert Dests(es)[i + 1] != Dests(es)[j + 1];
        }
      }
      WeightInAt(es[1..], k - 1);
    }
  }

  lemma DestsCons(es: seq<EdgeRec>)
    requires es != []
    ensures Dests(es) == [es[0].dest] + Dests(es[1..])
  {
  }

  lemma IndexOfDistinct(xs: seq<Label>, i: nat)
    requires Distinct(xs) && i < |xs|
    ensures IndexOf(xs, xs[i]) == i
  {
  }

  /** With unique labels, the list of the i-th vertex is the one `W` reads. */
  lemma EdgesOfAt(vs: seq<VertexRec>, i: nat)
    requires Distinct(Labels(vs)) && i < |vs|
    ensures EdgesOf(vs, vs[i].name) == vs[i].edges
  {
    IndexOfDistinct(Labels(vs), i);
  }

  lemma EdgeTargetsExist(vs: seq<VertexRec>, u: Label, v: Label)
    requires WellFormed(vs) && HasEdge(vs, u, v)
    ensures u in Labels(vs) && v in Labels(vs)
  {
    var es := EdgesOf(vs, u);
    var k :| 0 <= k < |es| && Dests(es)[k] == v;
    assert es == vs[IndexOf(Labels(vs), u)].edges;
  }

  lemma DistinctSuffix(xs: seq<Label>, n: nat)
    requires Distinct(xs) && n <= |xs|
    ensures Distinct(xs[n..])
  {
    forall i, j | 0 <= i < j < |xs| - n ensures xs[n..][i] != xs[n..][j] {
      assert xs[i + n] != xs[j + n];
    }
  }

  // ---------------------------------------------------------------------
  // Operations on one adjacency list
  // ---------------------------------------------------------------------

  /** The list with its first edge to `d` unlinked. */
  function Without(es: seq<EdgeRec>, d: Label): (r: seq<EdgeRec>)
    ensures |r| <= |es|
  {
    if es == [] then []
    else if es[0].dest == d then es[1..]
    else [es[0]] + Without(es[1..], d)
  }

  /** The list with the weight of its first edge to `d` overwritten. */
  function Reweighted(es: seq<EdgeRec>, d: Label, w: int): (r: seq<EdgeRec>)
    ensures Dests(r) == Dests(es)
  {
    if es == [] then []
    else if es[0].dest == d then [EdgeRec(d, w)] + es[1..]
    else [es[0]] + Reweighted(es[1..], d, w)
  }

  function Rename(x: Label, a: Label, b: Label): Label
  {
    if x == a then b else x
  }

  /** Exchanges `a` and `b`; renaming a into a fresh b is this exchange in
      the abstract view. */
  function Swap(x: Label, a: Label, b: Label): Label
  {
    if x == a then b else if x == b then a else x
  }

  function RenamedDests(es: seq<EdgeRec>, a: Label, b: Label): (r: seq<EdgeRec>)
    ensures |r| == |es|
    ensures forall k :: 0 <= k < |es| ==> r[k] == EdgeRec(Rename(es[k].dest, a, b), es[k].weight)
  {
    if es == [] then []
    else [EdgeRec(Rename(es[0].dest, a, b), es[0].weight)] + RenamedDests(es[1..], a, b)
  }

  lemma {:induction false} WeightInAppend(es: seq<EdgeRec>, e: EdgeRec, x: Label)
    ensures WeightIn(es + [e], x) ==
      if x in Dests(es) then WeightIn(es, x) else if e.dest == x then Some(e.weight) else None
  {
    if es != [] {
      assert (es + [e])[1..] == es[1..] + [e];
      assert Dests(es) == [es[0].dest] + Dests(es[1..]);
      WeightInAppend(es[1..], e, x);
    }
  }

  lemma {:induction false} WeightInWithout(es: seq<EdgeRec>, d: Label, x: Label)
    requires Distinct(Dests(es))
    ensures WeightIn(Without(es, d), x) == if x == d then None else WeightIn(es, x)
  {
    if es != [] {
      var ds := Dests(es);
      assert ds == [es[0].dest] + Dests(es[1..]);
      DistinctSuffix(ds, 1);
      assert ds[1..] == Dests(es[1..]);
      if es[0].dest == d {
        assert d !in Dests(es[1..]) by {
          forall j | 0 <= j < |es| - 1 ensures Dests(es[1..])[j] != d {
            assert ds[0] != ds[j + 1];
          }
        }
      } else {
        WeightInWithout(es[1..], d, x);
      }
    }
  }

  /** Unlinking an edge keeps the other edges in their order. */
  lemma {:induction false} WithoutSplit(es: seq<EdgeRec>, d: Label, p: nat)
    requires p < |es| && es[p].dest == d && forall k :: 0 <= k < p ==> es[k].dest != d
    ensures Without(es, d) == es[..p] + es[p + 1..]
  {
    if p > 0 {
      WithoutSplit(es[1..], d, p - 1);
      assert [es[0]] + (es[1..][..p - 1] + es[1..][p..]) == es[..p] + es[p + 1..];
    }
  }



  lemma {:induction false} WithoutAbsent(es: seq<EdgeRec>, d: Label)
    requires d !in Dests(es)
    ensures Without(es, d) == es
  {
    if es != [] {
      assert Dests(es) == [es[0].dest] + Dests(es[1..]);
      WithoutAbsent(es[1..], d);
    }
  }

  lemma DistinctCut(xs: seq<Label>, p: nat)
    requires Distinct(xs) && p < |xs|
    ensures Distinct(xs[..p] + xs[p + 1..])
  {
    var r := xs[..p] + xs[p + 1..];
    forall i, j | 0 <= i < j < |r| ensures r[i] != r[j] {
      assert r[i] == xs[if i < p then i else i + 1];
      assert r[j] == xs[if j < p then j else j + 1];
    }
  }

  lemma DestsCut(es: seq<EdgeRec>, p: nat)
    requires p < |es|
    ensures Dests(es[..p] + es[p + 1..]) == Dests(es)[..p] + Dests(es)[p + 1..]
  {
  }

  lemma CutInLabels(vs: seq<VertexRec>, es: seq<EdgeRec>, p: nat, r: seq<EdgeRec>)
    requires p < |es| && r == es[..p] + es[p + 1..]
    requires forall k :: 0 <= k < |es| ==> es[k].dest in Labels(vs)
    ensures forall k :: 0 <= k < |r| ==> r[k].dest in Labels(vs)
  {
    forall k | 0 <= k < |r| ensures r[k].dest in Labels(vs) {
      assert r[k] == es[if k < p then k else k + 1];
    }
  }

  lemma WithoutOk(vs: seq<VertexRec>, es: seq<EdgeRec>, d: Label)
    requires EdgesOk(vs, es)
    ensures EdgesOk(vs, Without(es, d))
  {
    if d in Dests(es) {
      var ds := Dests(es);
      var p :| 0 <= p < |es| && ds[p] == d;
      assert forall k :: 0 <= k < p ==> es[k].dest != d by {
        forall k | 0 <= k < p ensures es[k].dest != d {
          assert ds[k] != ds[p];
        }
      }
      WithoutSplit(es, d, p);
      DestsCut(es, p);
      DistinctCut(ds, p);
      CutInLabels(vs, es, p, es[..p] + es[p + 1..]);
    } else {
      WithoutAbsent(es, d);
    }
  }




  lemma {:induction false} WeightInReweighted(es: seq<EdgeRec>, d: Label, w: int, x: Label)
    ensures WeightIn(Reweighted(es, d, w), x) ==
      if x == d && d in Dests(es) then Some(w) else WeightIn(es, x)
  {
    if es != [] {
      assert Dests(es) == [es[0].dest] + Dests(es[1..]);
      if es[0].dest != d {
        WeightInReweighted(es[1..], d, w, x);
      }
    }
  }

  lemma {:induction false} ReweightedSame(es: seq<EdgeRec>, d: Label, w: int)
    requires WeightIn(es, d) == Some(w)
    ensures Reweighted(es, d, w) == es
  {
    if es[0].dest != d {
      ReweightedSame(es[1..], d, w);
    }
  }

  lemma RenameSwap(d: Label, a: Label, b: Label, x: Label)
    requires d != b
    ensures (Rename(d, a, b) == x) == (d == Swap(x, a, b))
  {
  }

  lemma {:induction false} WeightInRenamed(es: seq<EdgeRec>, a: Label, b: Label, x: Label)
    requires b !in Dests(es)
    ensures WeightIn(RenamedDests(es, a, b), x) == WeightIn(es, Swap(x, a, b))
  {
    if es != [] {
      var e := es[0];
      var tail := RenamedDests(es[1..], a, b);
      var r := [EdgeRec(Rename(e.dest, a, b), e.weight)] + tail;
      assert RenamedDests(es, a, b) == r;
      DestsCons(es);
      WeightInRenamed(es[1..], a, b, x);
      RenameSwap(e.dest, a, b, x);
      assert r[1..] == tail;
      assert WeightIn(r, x) == if Rename(e.dest, a, b) == x then Some(e.weight) else WeightIn(tail, x);
    }
  }



  // ---------------------------------------------------------------------
  // Operations on the vertex list, and their effect on the view
  // ---------------------------------------------------------------------

  /** Replaces the adjacency list of vertex `u`. */
  function SetEdges(vs: seq<VertexRec>, u: Label, es: seq<EdgeRec>): (r: seq<VertexRec>)
    ensures Labels(r) == Labels(vs)
  {
    if u in Labels(vs) then
      var i := IndexOf(Labels(vs), u);
      vs[i := VertexRec(u, es)]
    else vs
  }

  lemma SetEdgesEffect(vs: seq<VertexRec>, u: Label, es: seq<EdgeRec>)
    requires Distinct(Labels(vs)) && u in Labels(vs)
    ensures forall x :: EdgesOf(SetEdges(vs, u, es), x) == if x == u then es else EdgesOf(vs, x)
    ensures forall x, y :: W(SetEdges(vs, u, es), x, y) == if x == u then WeightIn(es, y) else W(vs, x, y)
  {
    var r := SetEdges(vs, u, es);
    assert Labels(r) == Labels(vs);
  }

  lemma SetEdgesWellFormed(vs: seq<VertexRec>, u: Label, es: seq<EdgeRec>)
    requires WellFormed(vs) && u in Labels(vs) && EdgesOk(vs, es)
    ensures WellFormed(SetEdges(vs, u, es))
  {
    var r := SetEdges(vs, u, es);
    assert Labels(r) == Labels(vs);
    forall i | 0 <= i < |r| ensures EdgesOk(r, r[i].edges) {
      assert EdgesOk(vs, r[i].edges);
    }
  }

  /** Appends edge u -> d of weight w at the end of u's list. */
  function AddEdge(vs: seq<VertexRec>, u: Label, d: Label, w: int): seq<VertexRec>
  {
    SetEdges(vs, u, EdgesOf(vs, u) + [EdgeRec(d, w)])
  }

  /** Overwrites the weight of edge u -> d. */
  function SetWeight(vs: seq<VertexRec>, u: Label, d: Label, w: int): seq<VertexRec>
  {
    SetEdges(vs, u, Reweighted(EdgesOf(vs, u), d, w))
  }

  /** Unlinks edge u -> d. */
  function RemoveEdge(vs: seq<VertexRec>, u: Label, d: Label): seq<VertexRec>
  {
    SetEdges(vs, u, Without(EdgesOf(vs, u), d))
  }

  lemma EdgesOfWellFormed(vs: seq<VertexRec>, u: Label)
    requires WellFormed(vs)
    ensures EdgesOk(vs, EdgesOf(vs, u))
  {
  }

  /** Appending an edge to a new destination that is a vertex keeps a list
      well formed. */
  lemma AppendOk(vs: seq<VertexRec>, es: seq<EdgeRec>, d: Label, w: int)
    requires EdgesOk(vs, es) && d in Labels(vs) && d !in Dests(es)
    ensures EdgesOk(vs, es + [EdgeRec(d, w)])
  {
    var es' := es + [EdgeRec(d, w)];
    assert Dests(es') == Dests(es) + [d];
  }

  lemma AddEdgeEffect(vs: seq<VertexRec>, u: Label, d: Label, w: int)
    requires WellFormed(vs) && u in Labels(vs) && d in Labels(vs) && !HasEdge(vs, u, d)
    ensures Labels(AddEdge(vs, u, d, w)) == Labels(vs)
    ensures WellFormed(AddEdge(vs, u, d, w))
    ensures forall x, y :: W(AddEdge(vs, u, d, w), x, y) == if x == u && y == d then Some(w) else W(vs, x, y)
  {
    var es := EdgesOf(vs, u);
    var es' := es + [EdgeRec(d, w)];
    EdgesOfWellFormed(vs, u);
    AppendOk(vs, es, d, w);
    SetEdgesWellFormed(vs, u, es');
    SetEdgesEffect(vs, u, es');
    forall y ensures WeightIn(es', y) == if y == d then Some(w) else WeightIn(es, y) {
      WeightInAppend(es, EdgeRec(d, w), y);
    }
  }


  lemma SetWeightEffect(vs: seq<VertexRec>, u: Label, d: Label, w: int)
    requires WellFormed(vs) && HasEdge(vs, u, d)
    ensures Labels(SetWeight(vs, u, d, w)) == Labels(vs)
    ensures WellFormed(SetWeight(vs, u, d, w))
    ensures forall x, y :: W(SetWeight(vs, u, d, w), x, y) == if x == u && y == d then Some(w) else W(vs, x, y)
  {
    EdgeTargetsExist(vs, u, d);
    var es := EdgesOf(vs, u);
    var es' := Reweighted(es, d, w);
    assert EdgesOk(vs, es');
    SetEdgesWellFormed(vs, u, es');
    SetEdgesEffect(vs, u, es');
    forall y ensures WeightIn(es', y) == if y == d && d in Dests(es) then Some(w) else WeightIn(es, y) {
      WeightInReweighted(es, d, w, y);
    }
  }

  lemma RemoveEdgeEffect(vs: seq<VertexRec>, u: Label, d: Label)
    requires WellFormed(vs) && u in Labels(vs)
    ensures Labels(RemoveEdge(vs, u, d)) == Labels(vs)
    ensures WellFormed(RemoveEdge(vs, u, d))
    ensures forall x, y :: W(RemoveEdge(vs, u, d), x, y) == if x == u && y == d then None else W(vs, x, y)
  {
    var es := EdgesOf(vs, u);
    var es' := Without(es, d);
    forall y ensures WeightIn(es', y) == if y == d then None else WeightIn(es, y) {
      WeightInWithout(es, d, y);
    }
    WithoutOk(vs, es, d);
    SetEdgesWellFormed(vs, u, es');
    SetEdgesEffect(vs, u, es');
  }

  lemma AppendVertexEffect(vs: seq<VertexRec>, l: Label)
    requires WellFormed(vs) && l !in Labels(vs)
    ensures Labels(vs + [VertexRec(l, [])]) == Labels(vs) + [l]
    ensures WellFormed(vs + [VertexRec(l, [])])
    ensures forall u, v :: W(vs + [VertexRec(l, [])], u, v) == W(vs, u, v)
  {
    var r := vs + [VertexRec(l, [])];
    assert Labels(r) == Labels(vs) + [l];
    forall u ensures EdgesOf(r, u) == EdgesOf(vs, u) {
      if u in Labels(vs) {
        var k := IndexOf(Labels(vs), u);
        IndexOfDistinct(Labels(r), k);
      }
    }
    forall i | 0 <= i < |r| ensures EdgesOk(r, r[i].edges) {
      if i < |vs| {
        assert EdgesOk(vs, vs[i].edges);
      }
    }
  }

  /** Unlinks the edges into `x` from every adjacency list. */
  function Detach(vs: seq<VertexRec>, x: Label): (r: seq<VertexRec>)
    ensures |r| == |vs|
    ensures forall k :: 0 <= k < |vs| ==> r[k] == VertexRec(vs[k].name, Without(vs[k].edges, x))
  {
    seq(|vs|, k requires 0 <= k < |vs| => VertexRec(vs[k].name, Without(vs[k].edges, x)))
  }

  lemma DetachEffect(vs: seq<VertexRec>, x: Label)
    requires WellFormed(vs)
    ensures Labels(Detach(vs, x)) == Labels(vs)
    ensures WellFormed(Detach(vs, x))
    ensures forall u, v :: W(Detach(vs, x), u, v) == if v == x then None else W(vs, u, v)
  {
    var r := Detach(vs, x);
    assert Labels(r) == Labels(vs);
    forall i | 0 <= i < |r| ensures EdgesOk(r, r[i].edges) {
      WithoutOk(vs, vs[i].edges, x);
    }
    forall u, v ensures W(r, u, v) == if v == x then None else W(vs, u, v) {
      if u in Labels(vs) {
        var k := IndexOf(Labels(vs), u);
        WeightInWithout(vs[k].edges, x, v);
      }
    }
  }

  lemma DetachLists(vs: seq<VertexRec>, x: Label)
    requires Distinct(Labels(vs))
    ensures forall u :: EdgesOf(Detach(vs, x), u) == Without(EdgesOf(vs, u), x)
  {
    var r := Detach(vs, x);
    assert Labels(r) == Labels(vs);
  }

  /** Removes the i-th vertex record; the others keep their order. */
  function Cut(vs: seq<VertexRec>, i: nat): seq<VertexRec>
    requires i < |vs|
  {
    vs[..i] + vs[i + 1..]
  }

  lemma CutLabels(vs: seq<VertexRec>, i: nat)
    requires Distinct(Labels(vs)) && i < |vs|
    ensures Labels(Cut(vs, i)) == Labels(vs)[..i] + Labels(vs)[i + 1..]
    ensures Distinct(Labels(Cut(vs, i)))
    ensures vs[i].name !in Labels(Cut(vs, i))
    ensures forall k :: 0 <= k < |vs| && k != i ==> vs[k].name in Labels(Cut(vs, i))
  {
    var r := Cut(vs, i);
    var ls := Labels(vs);
    assert Labels(r) == ls[..i] + ls[i + 1..];
    forall a, b | 0 <= a < b < |r| ensures Labels(r)[a] != Labels(r)[b] {
      assert Labels(r)[a] == ls[if a < i then a else a + 1];
      assert Labels(r)[b] == ls[if b < i then b else b + 1];
    }
    forall k | 0 <= k < |r| ensures Labels(r)[k] != vs[i].name {
      assert Labels(r)[k] == ls[if k < i then k else k + 1];
    }
    forall k | 0 <= k < |vs| && k != i ensures vs[k].name in Labels(r) {
      assert Labels(r)[if k < i then k else k - 1] == vs[k].name;
    }
  }

  lemma CutEdgesOfKept(vs: seq<VertexRec>, i: nat, k: nat)
    requires Distinct(Labels(vs)) && i < |vs| && k < |vs| && k != i
    ensures EdgesOf(Cut(vs, i), vs[k].name) == vs[k].edges
  {
    var r := Cut(vs, i);
    CutLabels(vs, i);
    var k' := if k < i then k else k - 1;
    assert r[k'] == vs[k];
    EdgesOfAt(r, k');
  }

  lemma CutEdgesOf(vs: seq<VertexRec>, i: nat, u: Label)
    requires Distinct(Labels(vs)) && i < |vs|
    ensures EdgesOf(Cut(vs, i), u) == if u == vs[i].name then [] else EdgesOf(vs, u)
  {
    if u == vs[i].name {
      CutLabels(vs, i);
    } else if u in Labels(vs) {
      var k := IndexOf(Labels(vs), u);
      CutEdgesOfKept(vs, i, k);
      EdgesOfAt(vs, k);
    } else {
      CutLabels(vs, i);
      assert u !in Labels(Cut(vs, i));
    }
  }


  /** A list of a vertex that is kept, and has no edge to the one cut,
      stays well formed. */
  lemma CutList(vs: seq<VertexRec>, i: nat, k0: nat)
    requires WellFormed(vs) && i < |vs| && k0 < |vs| && k0 != i
    requires forall u :: !HasEdge(vs, u, vs[i].name)
    ensures EdgesOk(Cut(vs, i), vs[k0].edges)
  {
    var es := vs[k0].edges;
    var ls := Labels(vs);
    CutLabels(vs, i);
    assert EdgesOk(vs, es);
    EdgesOfAt(vs, k0);
    forall j | 0 <= j < |es| ensures es[j].dest in Labels(Cut(vs, i)) {
      WeightInAt(es, j);
      assert HasEdge(vs, vs[k0].name, es[j].dest);
      var m := IndexOf(ls, es[j].dest);
      assert m != i && vs[m].name == es[j].dest;
    }
  }

  lemma CutListAt(vs: seq<VertexRec>, i: nat, k: nat)
    requires WellFormed(vs) && i < |vs| && k < |vs| - 1
    requires forall u :: !HasEdge(vs, u, vs[i].name)
    ensures EdgesOk(Cut(vs, i), Cut(vs, i)[k].edges)
  {
    var k0 := if k < i then k else k + 1;
    assert Cut(vs, i)[k] == vs[k0];
    CutList(vs, i, k0);
  }

  lemma CutWellFormed(vs: seq<VertexRec>, i: nat)
    requires WellFormed(vs) && i < |vs|
    requires forall u :: !HasEdge(vs, u, vs[i].name)
    ensures WellFormed(Cut(vs, i))
  {
    var r := Cut(vs, i);
    CutLabels(vs, i);
    forall k | 0 <= k < |r| ensures EdgesOk(r, r[k].edges) {
      CutListAt(vs, i, k);
    }
  }


  lemma CutEffect(vs: seq<VertexRec>, i: nat)
    requires WellFormed(vs) && i < |vs|
    requires forall u :: !HasEdge(vs, u, vs[i].name)
    ensures Labels(Cut(vs, i)) == Labels(vs)[..i] + Labels(vs)[i + 1..]
    ensures WellFormed(Cut(vs, i))
    ensures forall u, v :: W(Cut(vs, i), u, v) == if u == vs[i].name then None else W(vs, u, v)
  {
    CutLabels(vs, i);
    CutWellFormed(vs, i);
    forall u, v ensures W(Cut(vs, i), u, v) == if u == vs[i].name then None else W(vs, u, v) {
      CutEdgesOf(vs, i, u);
    }
  }


  /** Renames vertex `a` to `b` and every edge that ends in `a`. */
  function Renamed(vs: seq<VertexRec>, a: Label, b: Label): (r: seq<VertexRec>)
    ensures |r| == |vs|
    ensures forall k :: 0 <= k < |vs| ==> r[k] == VertexRec(Rename(vs[k].name, a, b), RenamedDests(vs[k].edges, a, b))
  {
    seq(|vs|, k requires 0 <= k < |vs| => VertexRec(Rename(vs[k].name, a, b), RenamedDests(vs[k].edges, a, b)))
  }

  lemma RenamedLabels(vs: seq<VertexRec>, a: Label, b: Label)
    requires Distinct(Labels(vs)) && a in Labels(vs) && b !in Labels(vs)
    ensures Labels(Renamed(vs, a, b)) == Labels(vs)[IndexOf(Labels(vs), a) := b]
    ensures Distinct(Labels(Renamed(vs, a, b)))
  {
    var ls := Labels(vs);
    assert Labels(Renamed(vs, a, b)) == ls[IndexOf(ls, a) := b];
  }

  lemma RenamedEdgesOf(vs: seq<VertexRec>, a: Label, b: Label, u: Label)
    requires Distinct(Labels(vs)) && a in Labels(vs) && b !in Labels(vs)
    ensures EdgesOf(Renamed(vs, a, b), u) == RenamedDests(EdgesOf(vs, Swap(u, a, b)), a, b)
  {
    var r := Renamed(vs, a, b);
    var ls := Labels(vs);
    RenamedLabels(vs, a, b);
    if Swap(u, a, b) in ls {
      var k := IndexOf(ls, Swap(u, a, b));
      assert Labels(r)[k] == u;
      IndexOfDistinct(Labels(r), k);
    } else {
      assert u !in Labels(r);
    }
  }

  lemma RenamedLabel(vs: seq<VertexRec>, a: Label, b: Label, x: Label)
    requires x in Labels(vs)
    ensures Rename(x, a, b) in Labels(Renamed(vs, a, b))
  {
    var m := IndexOf(Labels(vs), x);
    assert Labels(Renamed(vs, a, b))[m] == Rename(x, a, b);
  }

  lemma RenamedList(vs: seq<VertexRec>, a: Label, b: Label, k: nat)
    requires WellFormed(vs) && a in Labels(vs) && b !in Labels(vs) && k < |vs|
    ensures EdgesOk(Renamed(vs, a, b), Renamed(vs, a, b)[k].edges)
  {
    var es := vs[k].edges;
    assert EdgesOk(vs, es);
    var es' := RenamedDests(es, a, b);
    assert Renamed(vs, a, b)[k].edges == es';
    forall i, j | 0 <= i < j < |es'| ensures Dests(es')[i] != Dests(es')[j] {
      assert Dests(es)[i] != Dests(es)[j];
    }
    forall j | 0 <= j < |es'| ensures es'[j].dest in Labels(Renamed(vs, a, b)) {
      RenamedLabel(vs, a, b, es[j].dest);
    }
  }


  lemma RenamedEffect(vs: seq<VertexRec>, a: Label, b: Label)
    requires WellFormed(vs) && a in Labels(vs) && b !in Labels(vs)
    ensures Labels(Renamed(vs, a, b)) == Labels(vs)[IndexOf(Labels(vs), a) := b]
    ensures WellFormed(Renamed(vs, a, b))
    ensures forall u :: EdgesOf(Renamed(vs, a, b), u) == RenamedDests(EdgesOf(vs, Swap(u, a, b)), a, b)
    ensures forall u, v :: W(Renamed(vs, a, b), u, v) == W(vs, Swap(u, a, b), Swap(v, a, b))
  {
    var r := Renamed(vs, a, b);
    RenamedLabels(vs, a, b);
    forall u ensures EdgesOf(r, u) == RenamedDests(EdgesOf(vs, Swap(u, a, b)), a, b) {
      RenamedEdgesOf(vs, a, b, u);
    }
    forall k | 0 <= k < |r| ensures EdgesOk(r, r[k].edges) {
      RenamedList(vs, a, b, k);
    }
    forall u, v ensures W(r, u, v) == W(vs, Swap(u, a, b), Swap(v, a, b)) {
      var es := EdgesOf(vs, Swap(u, a, b));
      EdgesOfWellFormed(vs, Swap(u, a, b));
      WeightInRenamed(es, a, b, v);
    }
  }


  // ---------------------------------------------------------------------
  // The mutation API of graph.cpp, as functions of the state
  // ---------------------------------------------------------------------

  /** insertVertex: a taken label throws; otherwise one vertex without
      edges is appended at the end of the list. */
  function InsertVertex(s: State, l: Label): (r: Result<State>)
    requires Valid(s)
    ensures r.Err? <==> l in Labels(s.verts)
    ensures r.Err? ==> r.error == DuplicateVertex
    ensures r.Ok? ==>
      && Valid(r.value)
      && r.value.directed == s.directed && r.value.weighted == s.weighted
      && Labels(r.value.verts) == Labels(s.verts) + [l]
      && r.value.verts[..|s.verts|] == s.verts
      && forall u, v :: W(r.value.verts, u, v) == W(s.verts, u, v)
  {
    if l in Labels(s.verts) then Err(DuplicateVertex)
    else
      AppendVertexEffect(s.verts, l);
      assert (s.verts + [VertexRec(l, [])])[..|s.verts|] == s.verts;
      Ok(s.(verts := s.verts + [VertexRec(l, [])]))
  }

  /** deleteVertex: a missing label throws; otherwise every edge into the
      vertex is unlinked, then the vertex itself (and its own edges). */
  function DeleteVertex(s: State, x: Label): (r: Result<State>)
    requires Valid(s)
    requires s.directed || !HasEdge(s.verts, x, x)
    ensures r.Err? <==> x !in Labels(s.verts)
    ensures r.Err? ==> r.error == VertexNotFound
    ensures r.Ok? ==> Removed(s, r.value, x)
  {
    if x !in Labels(s.verts) then Err(VertexNotFound)
    else
      var i := IndexOf(Labels(s.verts), x);
      RemovedState(s, x, i);
      Ok(s.(verts := Cut(Detach(s.verts, x), i)))
  }

  /** `t` is `s` with vertex `x` and every edge into or out of it removed;
      the other vertices keep their order and their lists keep the order
      of their remaining edges. */
  ghost predicate Removed(s: State, t: State, x: Label)
  {
    && x in Labels(s.verts)
    && Valid(t)
    && t.directed == s.directed && t.weighted == s.weighted
    && x !in Labels(t.verts)
    && (var i := IndexOf(Labels(s.verts), x);
        Labels(t.verts) == Labels(s.verts)[..i] + Labels(s.verts)[i + 1..])
    && (forall u :: u != x ==> EdgesOf(t.verts, u) == Without(EdgesOf(s.verts, u), x))
    && forall u, v :: W(t.verts, u, v) == if u == x || v == x then None else W(s.verts, u, v)
  }

  lemma RemovedState(s: State, x: Label, i: nat)
    requires Valid(s) && x in Labels(s.verts) && i == IndexOf(Labels(s.verts), x)
    ensures Removed(s, s.(verts := Cut(Detach(s.verts, x), i)), x)
  {
    var r := Cut(Detach(s.verts, x), i);
    RemovedEffect(s.verts, x, i);
    if !s.directed {
      RemovedSymmetric(s.verts, r, x);
    }
  }

  /** What unlinking every edge into `x` and then cutting `x` out leaves. */
  lemma RemovedEffect(vs: seq<VertexRec>, x: Label, i: nat)
    requires WellFormed(vs) && x in Labels(vs) && i == IndexOf(Labels(vs), x)
    ensures var r := Cut(Detach(vs, x), i);
      && WellFormed(r)
      && x !in Labels(r)
      && Labels(r) == Labels(vs)[..i] + Labels(vs)[i + 1..]
      && (forall u :: u != x ==> EdgesOf(r, u) == Without(EdgesOf(vs, u), x))
      && forall u, v :: W(r, u, v) == if u == x || v == x then None else W(vs, u, v)
  {
    var d := Detach(vs, x);
    DetachEffect(vs, x);
    assert d[i].name == x;
    CutEffect(d, i);
    CutLabels(d, i);
    DetachLists(vs, x);
    forall u | u != x ensures EdgesOf(Cut(d, i), u) == Without(EdgesOf(vs, u), x) {
      CutEdgesOf(d, i, u);
    }
  }

  lemma RemovedSymmetric(vs: seq<VertexRec>, r: seq<VertexRec>, x: Label)
    requires Symmetric(vs)
    requires forall u, v :: W(r, u, v) == if u == x || v == x then None else W(vs, u, v)
    ensures Symmetric(r)
  {
    forall u, v ensures W(r, u, v) == W(r, v, u) {
      assert W(vs, u, v) == W(vs, v, u);
    }
  }


  /** editVertex: throws when `a` is missing or `b` is taken; otherwise
      vertex `a` is called `b`, and the edges into it follow. */
  function EditVertex(s: State, a: Label, b: Label): (r: Result<State>)
    requires Valid(s)
    ensures r.Err? <==> a !in Labels(s.verts) || b in Labels(s.verts)
    ensures r.Err? ==> r.error == if a !in Labels(s.verts) then VertexNotFound else DuplicateVertex
    ensures r.Ok? ==>
      && Valid(r.value)
      && r.value.directed == s.directed && r.value.weighted == s.weighted
      && Labels(r.value.verts) == Labels(s.verts)[IndexOf(Labels(s.verts), a) := b]
      && (forall u :: EdgesOf(r.value.verts, u) == RenamedDests(EdgesOf(s.verts, Swap(u, a, b)), a, b))
      && forall u, v :: W(r.value.verts, u, v) == W(s.verts, Swap(u, a, b), Swap(v, a, b))
  {
    if a !in Labels(s.verts) then Err(VertexNotFound)
    else if b in Labels(s.verts) then Err(DuplicateVertex)
    else
      var vs := Renamed(s.verts, a, b);
      RenamedEffect(s.verts, a, b);
      assert !s.directed ==> Symmetric(vs) by {
        if !s.directed {
          forall u, v ensures W(vs, u, v) == W(vs, v, u) {
            assert W(s.verts, Swap(u, a, b), Swap(v, a, b)) == W(s.verts, Swap(v, a, b), Swap(u, a, b));
          }
        }
      }
      Ok(s.(verts := vs))
  }

  /** The graph with edge o -> d appended and, when undirected, d -> o
      appended unless present (it is, after the first append, when o == d). */
  function LinkEdge(s: State, o: Label, d: Label, w: int): State
    requires WellFormed(s.verts)
  {
    var vs1 := AddEdge(s.verts, o, d, w);
    if !s.directed && !HasEdge(vs1, d, o) then s.(verts := AddEdge(vs1, d, o, w))
    else s.(verts := vs1)
  }

  /** The list of `x` after an edge is appended to the list of `u`. */
  lemma AddEdgeList(vs: seq<VertexRec>, u: Label, d: Label, w: int, x: Label)
    requires Distinct(Labels(vs)) && u in Labels(vs)
    ensures EdgesOf(AddEdge(vs, u, d, w), x) == if x == u then EdgesOf(vs, u) + [EdgeRec(d, w)] else EdgesOf(vs, x)
  {
    SetEdgesEffect(vs, u, EdgesOf(vs, u) + [EdgeRec(d, w)]);
  }

  /** The list of `x` after the edge to `d` is dropped from the list of `u`. */
  lemma RemoveEdgeList(vs: seq<VertexRec>, u: Label, d: Label, x: Label)
    requires Distinct(Labels(vs)) && u in Labels(vs)
    ensures EdgesOf(RemoveEdge(vs, u, d), x) == if x == u then Without(EdgesOf(vs, u), d) else EdgesOf(vs, x)
  {
    SetEdgesEffect(vs, u, Without(EdgesOf(vs, u), d));
  }

  /** In an undirected graph a new edge between two distinct vertices is
      appended to both lists. */
  lemma LinkMirror(s: State, o: Label, d: Label, w: int)
    requires Valid(s) && !s.directed && o != d
    requires o in Labels(s.verts) && d in Labels(s.verts) && !HasEdge(s.verts, o, d)
    ensures !HasEdge(AddEdge(s.verts, o, d, w), d, o)
    ensures var vs2 := AddEdge(AddEdge(s.verts, o, d, w), d, o, w);
      && WellFormed(vs2) && Symmetric(vs2)
      && Labels(vs2) == Labels(s.verts)
      && EdgesOf(vs2, o) == EdgesOf(s.verts, o) + [EdgeRec(d, w)]
      && forall u, v :: W(vs2, u, v) == if (u, v) == (o, d) || (u, v) == (d, o) then Some(w) else W(s.verts, u, v)
  {
    var vs1 := AddEdge(s.verts, o, d, w);
    AddEdgeEffect(s.verts, o, d, w);
    AddEdgeList(s.verts, o, d, w, o);
    assert W(vs1, d, o) == None by {
      assert W(s.verts, d, o) == W(s.verts, o, d);
    }
    var vs2 := AddEdge(vs1, d, o, w);
    AddEdgeEffect(vs1, d, o, w);
    AddEdgeList(vs1, d, o, w, o);
    SymmetricPatch(s.verts, vs2, o, d, Some(w));
  }

  lemma LinkEdgeEffect(s: State, o: Label, d: Label, w: int)
    requires Valid(s) && o in Labels(s.verts) && d in Labels(s.verts) && !HasEdge(s.verts, o, d)
    ensures var t := LinkEdge(s, o, d, w);
      && Valid(t)
      && t.directed == s.directed && t.weighted == s.weighted
      && Labels(t.verts) == Labels(s.verts)
      && EdgesOf(t.verts, o) == EdgesOf(s.verts, o) + [EdgeRec(d, w)]
      && forall u, v :: W(t.verts, u, v) ==
           if (u, v) == (o, d) || (!s.directed && (u, v) == (d, o)) then Some(w) else W(s.verts, u, v)
  {
    var vs1 := AddEdge(s.verts, o, d, w);
    if s.directed || o == d {
      AddEdgeEffect(s.verts, o, d, w);
      AddEdgeList(s.verts, o, d, w, o);
      if !s.directed {
        assert W(vs1, d, o) == Some(w);
        SymmetricPatch(s.verts, vs1, o, d, Some(w));
      }
    } else {
      LinkMirror(s, o, d, w);
    }
  }



  lemma LinkEdgeLists(s: State, o: Label, d: Label, w: int)
    requires Valid(s) && o in Labels(s.verts) && d in Labels(s.verts) && !HasEdge(s.verts, o, d)
    ensures forall u :: EdgesOf(LinkEdge(s, o, d, w).verts, u) ==
              if u == o then EdgesOf(s.verts, o) + [EdgeRec(d, w)]
              else if !s.directed && u == d then EdgesOf(s.verts, d) + [EdgeRec(o, w)]
              else EdgesOf(s.verts, u)
  {
    var vs1 := AddEdge(s.verts, o, d, w);
    SetEdgesEffect(s.verts, o, EdgesOf(s.verts, o) + [EdgeRec(d, w)]);
    if !s.directed && o != d {
      assert !HasEdge(vs1, d, o) by {
        assert W(s.verts, d, o) == W(s.verts, o, d);
      }
      SetEdgesEffect(vs1, d, EdgesOf(vs1, d) + [EdgeRec(o, w)]);
    } else if !s.directed {
      assert HasEdge(vs1, d, o) by {
        WeightInAppend(EdgesOf(s.verts, o), EdgeRec(d, w), d);
      }
    }
  }

  lemma UnlinkEdgeLists(s: State, o: Label, d: Label)
    requires Valid(s) && HasEdge(s.verts, o, d) && (s.directed || o != d)
    ensures forall u :: EdgesOf(UnlinkEdge(s, o, d).verts, u) ==
              if u == o then Without(EdgesOf(s.verts, o), d)
              else if !s.directed && u == d then Without(EdgesOf(s.verts, d), o)
              else EdgesOf(s.verts, u)
  {
    EdgeTargetsExist(s.verts, o, d);
    var vs1 := RemoveEdge(s.verts, o, d);
    SetEdgesEffect(s.verts, o, Without(EdgesOf(s.verts, o), d));
    if !s.directed {
      SetEdgesEffect(vs1, d, Without(EdgesOf(vs1, d), o));
    }
  }

  lemma ReweighLists(s: State, o: Label, d: Label, w: int)
    requires Valid(s) && HasEdge(s.verts, o, d)
    ensures forall u :: EdgesOf(Reweigh(s, o, d, w).verts, u) ==
              if u == o then Reweighted(EdgesOf(s.verts, o), d, w)
              else if !s.directed && u == d then Reweighted(EdgesOf(s.verts, d), o, w)
              else EdgesOf(s.verts, u)
  {
    EdgeTargetsExist(s.verts, o, d);
    var vs1 := SetWeight(s.verts, o, d, w);
    SetEdgesEffect(s.verts, o, Reweighted(EdgesOf(s.verts, o), d, w));
    if !s.directed {
      if o == d {
        assert Reweighted(Reweighted(EdgesOf(s.verts, o), d, w), o, w) == Reweighted(EdgesOf(s.verts, o), d, w) by {
          WeightInReweighted(EdgesOf(s.verts, o), d, w, d);
          ReweightedSame(Reweighted(EdgesOf(s.verts, o), d, w), d, w);
        }
      }
      SetEdgesEffect(vs1, d, Reweighted(EdgesOf(vs1, d), o, w));
    }
  }

  /** insertEdge: a missing endpoint throws; an existing edge is kept with
      its old weight; otherwise origin -> dest is appended to the origin's
      list and, when undirected, dest -> origin to the destination's list. */
  function InsertEdge(s: State, o: Label, d: Label, w: int): (r: Result<State>)
    requires Valid(s)
    ensures r.Err? <==> o !in Labels(s.verts) || d !in Labels(s.verts)
    ensures r.Err? ==> r.error == VertexNotFound
    ensures r.Ok? ==>
      && Valid(r.value)
      && r.value.directed == s.directed && r.value.weighted == s.weighted
      && Labels(r.value.verts) == Labels(s.verts)
      && (forall u :: EdgesOf(r.value.verts, u) ==
           if HasEdge(s.verts, o, d) then EdgesOf(s.verts, u)
           else if u == o then EdgesOf(s.verts, o) + [EdgeRec(d, w)]
           else if !s.directed && u == d then EdgesOf(s.verts, d) + [EdgeRec(o, w)]
           else EdgesOf(s.verts, u))
      && forall u, v :: W(r.value.verts, u, v) ==
           if !HasEdge(s.verts, o, d) && ((u, v) == (o, d) || (!s.directed && (u, v) == (d, o)))
           then Some(w) else W(s.verts, u, v)
  {
    if o !in Labels(s.verts) || d !in Labels(s.verts) then Err(VertexNotFound)
    else if HasEdge(s.verts, o, d) then Ok(s)
    else
      LinkEdgeEffect(s, o, d, w);
      LinkEdgeLists(s, o, d, w);
      Ok(LinkEdge(s, o, d, w))
  }

  /** The graph with edge o -> d unlinked and, when undirected, d -> o. */
  function UnlinkEdge(s: State, o: Label, d: Label): State
  {
    var vs1 := RemoveEdge(s.verts, o, d);
    if !s.directed then s.(verts := RemoveEdge(vs1, d, o)) else s.(verts := vs1)
  }

  /** In an undirected graph removing an edge between two distinct
      vertices drops it from both lists. */
  lemma UnlinkMirror(s: State, o: Label, d: Label)
    requires Valid(s) && !s.directed && o != d && o in Labels(s.verts) && d in Labels(s.verts)
    ensures var vs2 := RemoveEdge(RemoveEdge(s.verts, o, d), d, o);
      && WellFormed(vs2) && Symmetric(vs2)
      && Labels(vs2) == Labels(s.verts)
      && EdgesOf(vs2, o) == Without(EdgesOf(s.verts, o), d)
      && forall u, v :: W(vs2, u, v) == if (u, v) == (o, d) || (u, v) == (d, o) then None else W(s.verts, u, v)
  {
    var vs1 := RemoveEdge(s.verts, o, d);
    RemoveEdgeEffect(s.verts, o, d);
    RemoveEdgeList(s.verts, o, d, o);
    var vs2 := RemoveEdge(vs1, d, o);
    RemoveEdgeEffect(vs1, d, o);
    RemoveEdgeList(vs1, d, o, o);
    SymmetricPatch(s.verts, vs2, o, d, None);
  }

  lemma UnlinkEdgeEffect(s: State, o: Label, d: Label)
    requires Valid(s) && HasEdge(s.verts, o, d) && (s.directed || o != d)
    ensures var t := UnlinkEdge(s, o, d);
      && Valid(t)
      && t.directed == s.directed && t.weighted == s.weighted
      && Labels(t.verts) == Labels(s.verts)
      && EdgesOf(t.verts, o) == Without(EdgesOf(s.verts, o), d)
      && forall u, v :: W(t.verts, u, v) ==
           if (u, v) == (o, d) || (!s.directed && (u, v) == (d, o)) then None else W(s.verts, u, v)
  {
    EdgeTargetsExist(s.verts, o, d);
    if s.directed {
      RemoveEdgeEffect(s.verts, o, d);
      RemoveEdgeList(s.verts, o, d, o);
    } else {
      UnlinkMirror(s, o, d);
    }
  }



  /** deleteEdge: a missing edge throws; otherwise origin -> dest is
      unlinked and, when undirected, dest -> origin as well. */
  function DeleteEdge(s: State, o: Label, d: Label): (r: Result<State>)
    requires Valid(s)
    requires s.directed || o != d
    ensures r.Err? <==> !HasEdge(s.verts, o, d)
    ensures r.Err? ==> r.error == EdgeNotFound
    ensures r.Ok? ==>
      && Valid(r.value)
      && r.value.directed == s.directed && r.value.weighted == s.weighted
      && Labels(r.value.verts) == Labels(s.verts)
      && (forall u :: EdgesOf(r.value.verts, u) ==
           if u == o then Without(EdgesOf(s.verts, o), d)
           else if !s.directed && u == d then Without(EdgesOf(s.verts, d), o)
           else EdgesOf(s.verts, u))
      && forall u, v :: W(r.value.verts, u, v) ==
           if (u, v) == (o, d) || (!s.directed && (u, v) == (d, o)) then None else W(s.verts, u, v)
  {
    if !HasEdge(s.verts, o, d) then Err(EdgeNotFound)
    else
      UnlinkEdgeEffect(s, o, d);
      UnlinkEdgeLists(s, o, d);
      Ok(UnlinkEdge(s, o, d))
  }

  /** The graph with the weight of o -> d and, when undirected, of d -> o
      overwritten. */
  function Reweigh(s: State, o: Label, d: Label, w: int): State
  {
    var vs1 := SetWeight(s.verts, o, d, w);
    if !s.directed then s.(verts := SetWeight(vs1, d, o, w)) else s.(verts := vs1)
  }

  lemma SetWeightDests(vs: seq<VertexRec>, u: Label, d: Label, w: int)
    requires Distinct(Labels(vs)) && u in Labels(vs)
    ensures forall x :: Dests(EdgesOf(SetWeight(vs, u, d, w), x)) == Dests(EdgesOf(vs, x))
  {
    SetEdgesEffect(vs, u, Reweighted(EdgesOf(vs, u), d, w));
  }

  /** The undirected half of editEdge: both directions get the new weight
      and the graph stays symmetric. */
  lemma ReweighSymmetric(vs: seq<VertexRec>, o: Label, d: Label, w: int)
    requires WellFormed(vs) && Symmetric(vs) && HasEdge(vs, o, d)
    ensures var vs2 := SetWeight(SetWeight(vs, o, d, w), d, o, w);
      && WellFormed(vs2) && Labels(vs2) == Labels(vs)
      && (forall u, v :: W(vs2, u, v) == if (u, v) == (o, d) || (u, v) == (d, o) then Some(w) else W(vs, u, v))
      && Symmetric(vs2)
  {
    EdgeTargetsExist(vs, o, d);
    var vs1 := SetWeight(vs, o, d, w);
    SetWeightEffect(vs, o, d, w);
    assert HasEdge(vs1, d, o) by {
      assert W(vs, d, o) == W(vs, o, d);
    }
    var vs2 := SetWeight(vs1, d, o, w);
    SetWeightEffect(vs1, d, o, w);
    forall u, v ensures W(vs2, u, v) == if (u, v) == (o, d) || (u, v) == (d, o) then Some(w) else W(vs, u, v) {
      assert W(vs2, u, v) == if u == d && v == o then Some(w) else W(vs1, u, v);
      assert W(vs1, u, v) == if u == o && v == d then Some(w) else W(vs, u, v);
    }
    SymmetricPatch(vs, vs2, o, d, Some(w));
  }

  /** Giving both directions of one pair the same value keeps a graph
      symmetric. */
  lemma SymmetricPatch(vs: seq<VertexRec>, vs2: seq<VertexRec>, o: Label, d: Label, x: Option<int>)
    requires Symmetric(vs)
    requires forall u, v :: W(vs2, u, v) == if (u, v) == (o, d) || (u, v) == (d, o) then x else W(vs, u, v)
    ensures Symmetric(vs2)
  {
    forall u, v ensures W(vs2, u, v) == W(vs2, v, u) {
      assert W(vs, u, v) == W(vs, v, u);
    }
  }

  lemma ReweighEffect(s: State, o: Label, d: Label, w: int)
    requires Valid(s) && HasEdge(s.verts, o, d)
    ensures var t := Reweigh(s, o, d, w);
      && Valid(t)
      && t.directed == s.directed && t.weighted == s.weighted
      && Labels(t.verts) == Labels(s.verts)
      && forall u, v :: W(t.verts, u, v) ==
           if (u, v) == (o, d) || (!s.directed && (u, v) == (d, o)) then Some(w) else W(s.verts, u, v)
  {
    if s.directed {
      EdgeTargetsExist(s.verts, o, d);
      SetWeightEffect(s.verts, o, d, w);
    } else {
      ReweighSymmetric(s.verts, o, d, w);
    }
  }

  /** editEdge: a missing edge throws; otherwise the weight of origin -> dest
      is overwritten and, when undirected, that of dest -> origin too. */
  function EditEdge(s: State, o: Label, d: Label, w: int): (r: Result<State>)
    requires Valid(s)
    ensures r.Err? <==> !HasEdge(s.verts, o, d)
    ensures r.Err? ==> r.error == EdgeNotFound
    ensures r.Ok? ==>
      && Valid(r.value)
      && r.value.directed == s.directed && r.value.weighted == s.weighted
      && Labels(r.value.verts) == Labels(s.verts)
      && (forall u :: EdgesOf(r.value.verts, u) ==
           if u == o then Reweighted(EdgesOf(s.verts, o), d, w)
           else if !s.directed && u == d then Reweighted(EdgesOf(s.verts, d), o, w)
           else EdgesOf(s.verts, u))
      && forall u, v :: W(r.value.verts, u, v) ==
           if (u, v) == (o, d) || (!s.directed && (u, v) == (d, o)) then Some(w) else W(s.verts, u, v)
  {
    if !HasEdge(s.verts, o, d) then Err(EdgeNotFound)
    else
      ReweighEffect(s, o, d, w);
      ReweighLists(s, o, d, w);
      Ok(Reweigh(s, o, d, w))
  }
}
