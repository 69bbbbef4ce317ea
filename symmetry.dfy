/**
 * Turning a directed graph into an undirected one (graph.cpp, setIsDirected).
 *
 * The C++ code walks the vertices in list order and, for every edge
 * x -> d of the vertex x being walked, gives d -> x the weight of x -> d:
 * it edits d -> x when that edge exists and inserts it otherwise.  The
 * graph is still flagged directed during the walk, so each call touches
 * exactly one edge.
 *
 * `SymmetrizeFrom` is that walk as a fold.  The result is described by
 * `Target`: the edge set becomes the union of both directions, and a pair
 * joined in both directions ends up with the weight of the edge whose
 * origin comes first in the vertex list.
 */
module Symmetry {
  import opened Wrappers
  import opened GraphState

  /** One step of the walk of vertex x: edge x -> e.dest of weight
      e.weight is mirrored into e.dest -> x (edited or inserted). */
  function Mirror(vs: seq<VertexRec>, x: Label, e: EdgeRec): (r: seq<VertexRec>)
    ensures Labels(r) == Labels(vs)
  {
    if HasEdge(vs, e.dest, x) then SetWeight(vs, e.dest, x, e.weight)
    else AddEdge(vs, e.dest, x, e.weight)
  }

  /** The walk of one adjacency list `es` of vertex x. */
  function MirrorEdges(vs: seq<VertexRec>, x: Label, es: seq<EdgeRec>): (r: seq<VertexRec>)
    ensures Labels(r) == Labels(vs)
    decreases |es|
  {
    if es == [] then vs else MirrorEdges(Mirror(vs, x, es[0]), x, es[1..])
  }

  /** The walk of the vertices from position i on; each vertex's list is
      read as it stands when the walk reaches it. */
  function SymmetrizeFrom(vs: seq<VertexRec>, i: nat): (r: seq<VertexRec>)
    ensures Labels(r) == Labels(vs)
    decreases |vs| - i
  {
    if i >= |vs| then vs
    else SymmetrizeFrom(MirrorEdges(vs, vs[i].name, vs[i].edges), i + 1)
  }

  function Symmetrize(vs: seq<VertexRec>): (r: seq<VertexRec>)
    ensures Labels(r) == Labels(vs)
  {
    SymmetrizeFrom(vs, 0)
  }

  /** Position of a vertex in the list; labels that are not vertices come
      after all of them. */
  function Rank(vs0: seq<VertexRec>, p: Label): nat
  {
    if p in Labels(vs0) then IndexOf(Labels(vs0), p) else |vs0|
  }

  function Pick(a: Option<int>, b: Option<int>): Option<int>
  {
    if a.Some? then a else b
  }

  /** The weight p -> q should have once the walk is over: a self-loop
      keeps its weight; otherwise the edge between p and q whose origin
      comes first in the vertex list decides, and the other direction is
      used only when that edge does not exist. */
  function Target(vs0: seq<VertexRec>, p: Label, q: Label): Option<int>
  {
    if p == q then W(vs0, p, q)
    else if Rank(vs0, p) < Rank(vs0, q) then Pick(W(vs0, p, q), W(vs0, q, p))
    else Pick(W(vs0, q, p), W(vs0, p, q))
  }

  lemma RankOfLabel(vs0: seq<VertexRec>, i: nat)
    requires Distinct(Labels(vs0)) && i < |vs0|
    ensures Rank(vs0, vs0[i].name) == i
    ensures forall p :: p != vs0[i].name ==> Rank(vs0, p) != i
  {
    IndexOfDistinct(Labels(vs0), i);
  }

  lemma TargetSymmetric(vs0: seq<VertexRec>, p: Label, q: Label)
    requires Distinct(Labels(vs0))
    ensures Target(vs0, p, q) == Target(vs0, q, p)
  {
    if p != q && Rank(vs0, p) == Rank(vs0, q) {
      if p in Labels(vs0) {
        RankOfLabel(vs0, IndexOf(Labels(vs0), p));
      }
    }
  }

  // ---------------------------------------------------------------------
  // One step
  // ---------------------------------------------------------------------

  lemma MirrorEffect(vs: seq<VertexRec>, x: Label, e: EdgeRec)
    requires WellFormed(vs) && x in Labels(vs) && e.dest in Labels(vs)
    ensures WellFormed(Mirror(vs, x, e))
    ensures forall p, q :: W(Mirror(vs, x, e), p, q) == if p == e.dest && q == x then Some(e.weight) else W(vs, p, q)
  {
    if HasEdge(vs, e.dest, x) {
      SetWeightEffect(vs, e.dest, x, e.weight);
    } else {
      AddEdgeEffect(vs, e.dest, x, e.weight);
    }
  }

  /** The list being walked is not changed by the walk: a step changes the
      list of e.dest, which is x only for a self-loop, whose weight is then
      rewritten with itself. */
  lemma MirrorKeepsList(vs: seq<VertexRec>, x: Label, e: EdgeRec)
    requires WellFormed(vs) && x in Labels(vs) && e.dest in Labels(vs)
    requires e.dest == x ==> W(vs, x, x) == Some(e.weight)
    ensures EdgesOf(Mirror(vs, x, e), x) == EdgesOf(vs, x)
  {
    var d := e.dest;
    if d == x {
      ReweightedSame(EdgesOf(vs, x), x, e.weight);
      SetEdgesEffect(vs, x, EdgesOf(vs, x));
    } else if HasEdge(vs, d, x) {
      SetEdgesEffect(vs, d, Reweighted(EdgesOf(vs, d), x, e.weight));
    } else {
      SetEdgesEffect(vs, d, EdgesOf(vs, d) + [EdgeRec(x, e.weight)]);
    }
  }

  // ---------------------------------------------------------------------
  // The invariant of the walk
  // ---------------------------------------------------------------------

  /** The vertices before position i have been walked: every edge into
      them has its final weight, every other edge its original one. */
  ghost predicate Settled(vs0: seq<VertexRec>, vs: seq<VertexRec>, i: nat)
  {
    forall p, q :: W(vs, p, q) == if Rank(vs0, q) < i then Target(vs0, p, q) else W(vs0, p, q)
  }

  /** Vertex i is being walked and the first j edges of its list `es`
      have been mirrored. */
  ghost predicate Midway(vs0: seq<VertexRec>, vs: seq<VertexRec>, i: nat, es: seq<EdgeRec>, j: nat)
    requires i < |vs0| && j <= |es|
  {
    forall p, q :: W(vs, p, q) ==
      if Rank(vs0, q) < i || (q == vs0[i].name && p in Dests(es)[..j]) then Target(vs0, p, q) else W(vs0, p, q)
  }

  /** The weight the walk reads for x -> d is the one d -> x must get. */
  lemma Readback(vs0: seq<VertexRec>, i: nat, d: Label, c: int)
    requires WellFormed(vs0) && i < |vs0|
    requires (if Rank(vs0, d) < i then Target(vs0, vs0[i].name, d) else W(vs0, vs0[i].name, d)) == Some(c)
    ensures Target(vs0, d, vs0[i].name) == Some(c)
  {
    RankOfLabel(vs0, i);
  }

  /** When x -> p is missing at the time x is walked, p -> x already has
      its final weight. */
  lemma Untouched(vs0: seq<VertexRec>, i: nat, p: Label)
    requires WellFormed(vs0) && i < |vs0|
    requires (if Rank(vs0, p) < i then Target(vs0, vs0[i].name, p) else W(vs0, vs0[i].name, p)) == None
    ensures Target(vs0, p, vs0[i].name) == W(vs0, p, vs0[i].name)
  {
    RankOfLabel(vs0, i);
  }

  /** Once the whole list is walked, vertex i is settled too. */
  lemma MidwayDone(vs0: seq<VertexRec>, vs: seq<VertexRec>, i: nat, es: seq<EdgeRec>)
    requires WellFormed(vs0) && WellFormed(vs) && Labels(vs) == Labels(vs0) && i < |vs0|
    requires EdgesOf(vs, vs0[i].name) == es
    requires Midway(vs0, vs, i, es, |es|)
    ensures Settled(vs0, vs, i + 1)
  {
    var x := vs0[i].name;
    RankOfLabel(vs0, i);
    assert Dests(es)[..|es|] == Dests(es);
    forall p, q ensures W(vs, p, q) == if Rank(vs0, q) < i + 1 then Target(vs0, p, q) else W(vs0, p, q) {
      if Rank(vs0, q) == i && p !in Dests(es) {
        assert W(vs, x, p) == None;
        Untouched(vs0, i, p);
      }
    }
  }

  /** Mirroring edge j of the list of x: the graph stays well formed, the
      list is unchanged, and only the weight of es[j].dest -> x changes, to
      that of x -> es[j].dest. */
  lemma MirrorStep(vs: seq<VertexRec>, x: Label, es: seq<EdgeRec>, j: nat)
    requires WellFormed(vs) && x in Labels(vs) && EdgesOf(vs, x) == es && j < |es|
    ensures WellFormed(Mirror(vs, x, es[j]))
    ensures EdgesOf(Mirror(vs, x, es[j]), x) == es
    ensures forall p, q :: W(Mirror(vs, x, es[j]), p, q) ==
              if p == es[j].dest && q == x then Some(es[j].weight) else W(vs, p, q)
    ensures W(vs, x, es[j].dest) == Some(es[j].weight)
    ensures es[j].dest !in Dests(es)[..j] && Dests(es)[..j + 1] == Dests(es)[..j] + [es[j].dest]
  {
    EdgesOfWellFormed(vs, x);
    var e := es[j];
    var d := e.dest;
    WeightInAt(es, j);
    assert d !in Dests(es)[..j] by {
      forall k | 0 <= k < j ensures Dests(es)[..j][k] != d {
        assert Dests(es)[k] != Dests(es)[j];
      }
    }
    MirrorEffect(vs, x, e);
    MirrorKeepsList(vs, x, e);
    PrefixStep(Dests(es), j);
  }

  lemma PrefixStep(xs: seq<Label>, j: nat)
    requires j < |xs|
    ensures xs[..j + 1] == xs[..j] + [xs[j]]
  {
  }

  /** Writing the target weight into d -> x, for the next destination d of
      the list, advances the walk's invariant by one edge. */
  lemma MidwayAdvance(vs0: seq<VertexRec>, vs: seq<VertexRec>, vs': seq<VertexRec>, i: nat, es: seq<EdgeRec>, j: nat)
    requires i < |vs0| && j < |es|
    requires Midway(vs0, vs, i, es, j)
    requires forall p, q :: W(vs', p, q) == if p == es[j].dest && q == vs0[i].name then Some(es[j].weight) else W(vs, p, q)
    requires Target(vs0, es[j].dest, vs0[i].name) == Some(es[j].weight)
    requires es[j].dest !in Dests(es)[..j] && Dests(es)[..j + 1] == Dests(es)[..j] + [es[j].dest]
    ensures Midway(vs0, vs', i, es, j + 1)
  {
    var x, d := vs0[i].name, es[j].dest;
    forall p, q ensures W(vs', p, q) ==
      if Rank(vs0, q) < i || (q == x && p in Dests(es)[..j + 1]) then Target(vs0, p, q) else W(vs0, p, q)
    {
      if p != d || q != x {
        assert (q == x && p in Dests(es)[..j + 1]) == (q == x && p in Dests(es)[..j]);
      }
    }
  }

  /** Mirroring edge j of the list keeps the walk's invariant. */
  lemma MidwayStep(vs0: seq<VertexRec>, vs: seq<VertexRec>, i: nat, es: seq<EdgeRec>, j: nat)
    requires WellFormed(vs0) && WellFormed(vs) && Labels(vs) == Labels(vs0) && i < |vs0|
    requires EdgesOf(vs, vs0[i].name) == es && j < |es|
    requires Midway(vs0, vs, i, es, j)
    ensures WellFormed(Mirror(vs, vs0[i].name, es[j]))
    ensures EdgesOf(Mirror(vs, vs0[i].name, es[j]), vs0[i].name) == es
    ensures Midway(vs0, Mirror(vs, vs0[i].name, es[j]), i, es, j + 1)
  {
    var x, d := vs0[i].name, es[j].dest;
    assert x in Labels(vs) by { assert Labels(vs0)[i] == x; }
    MirrorStep(vs, x, es, j);
    RankOfLabel(vs0, i);
    assert W(vs, x, d) == if Rank(vs0, d) < i || (d == x && x in Dests(es)[..j]) then Target(vs0, x, d) else W(vs0, x, d);
    Readback(vs0, i, d, es[j].weight);
    MidwayAdvance(vs0, vs, Mirror(vs, x, es[j]), i, es, j);
  }

  lemma {:induction false} MirrorEdgesSettles(vs0: seq<VertexRec>, vs: seq<VertexRec>, i: nat, es: seq<EdgeRec>, j: nat)
    requires WellFormed(vs0) && WellFormed(vs) && Labels(vs) == Labels(vs0) && i < |vs0|
    requires EdgesOf(vs, vs0[i].name) == es && j <= |es|
    requires Midway(vs0, vs, i, es, j)
    ensures WellFormed(MirrorEdges(vs, vs0[i].name, es[j..]))
    ensures Settled(vs0, MirrorEdges(vs, vs0[i].name, es[j..]), i + 1)
    decreases |es| - j
  {
    var x := vs0[i].name;
    if j == |es| {
      assert es[j..] == [];
      MidwayDone(vs0, vs, i, es);
    } else {
      MidwayStep(vs0, vs, i, es, j);
      assert es[j..][0] == es[j] && es[j..][1..] == es[j + 1..];
      MirrorEdgesSettles(vs0, Mirror(vs, x, es[j]), i, es, j + 1);
    }
  }

  lemma {:induction false} SymmetrizeFromSettles(vs0: seq<VertexRec>, vs: seq<VertexRec>, i: nat)
    requires WellFormed(vs0) && WellFormed(vs) && Labels(vs) == Labels(vs0) && i <= |vs0|
    requires Settled(vs0, vs, i)
    ensures WellFormed(SymmetrizeFrom(vs, i))
    ensures Settled(vs0, SymmetrizeFrom(vs, i), |vs0|)
    decreases |vs0| - i
  {
    if i < |vs| {
      var x := vs[i].name;
      assert x == vs0[i].name by { assert Labels(vs)[i] == Labels(vs0)[i]; }
      var es := vs[i].edges;
      EdgesOfAt(vs, i);
      assert Dests(es)[..0] == [] && es[0..] == es;
      assert Midway(vs0, vs, i, es, 0);
      MirrorEdgesSettles(vs0, vs, i, es, 0);
      SymmetrizeFromSettles(vs0, MirrorEdges(vs, x, es), i + 1);
    }
  }

  /** The walk ends with every edge at its target weight; in particular the
      graph it leaves is symmetric. */
  lemma SymmetrizeEffect(vs: seq<VertexRec>)
    requires WellFormed(vs)
    ensures WellFormed(Symmetrize(vs))
    ensures forall p, q :: W(Symmetrize(vs), p, q) == Target(vs, p, q)
    ensures Symmetric(Symmetrize(vs))
  {
    SymmetrizeFromSettles(vs, vs, 0);
    var r := Symmetrize(vs);
    forall p, q ensures W(r, p, q) == Target(vs, p, q) {
      if Rank(vs, q) >= |vs| {
        assert q !in Labels(vs);
        if HasEdge(vs, p, q) {
          EdgeTargetsExist(vs, p, q);
        }
        if HasEdge(vs, q, p) {
          EdgeTargetsExist(vs, q, p);
        }
      }
    }
    forall p, q ensures W(r, p, q) == W(r, q, p) {
      TargetSymmetric(vs, p, q);
    }
  }

  /** The target weight of p -> q is that of an edge in either direction:
      of p -> q when its origin comes first or q -> p is missing, of q -> p
      otherwise. */
  lemma TargetCases(vs: seq<VertexRec>, p: Label, q: Label)
    ensures Target(vs, p, q).Some? <==> HasEdge(vs, p, q) || HasEdge(vs, q, p)
    ensures HasEdge(vs, p, q) && (Rank(vs, p) <= Rank(vs, q) || !HasEdge(vs, q, p)) ==> Target(vs, p, q) == W(vs, p, q)
    ensures HasEdge(vs, q, p) && (Rank(vs, q) < Rank(vs, p) || !HasEdge(vs, p, q)) ==> Target(vs, p, q) == W(vs, q, p)
  {
    var a, b := W(vs, p, q), W(vs, q, p);
    if p == q {
      assert Target(vs, p, q) == a;
    } else if Rank(vs, p) < Rank(vs, q) {
      assert Target(vs, p, q) == Pick(a, b);
    } else {
      assert Target(vs, p, q) == Pick(b, a);
      if Rank(vs, p) == Rank(vs, q) {
        assert p !in Labels(vs);
        assert a == None;
      }
    }
  }

  /** The edges after the walk are those of either direction before it. */
  lemma SymmetrizeEdges(vs: seq<VertexRec>, p: Label, q: Label)
    requires WellFormed(vs)
    ensures HasEdge(Symmetrize(vs), p, q) <==> HasEdge(vs, p, q) || HasEdge(vs, q, p)
    ensures HasEdge(vs, p, q) && (Rank(vs, p) <= Rank(vs, q) || !HasEdge(vs, q, p)) ==>
              W(Symmetrize(vs), p, q) == W(vs, p, q)
    ensures HasEdge(vs, q, p) && (Rank(vs, q) < Rank(vs, p) || !HasEdge(vs, p, q)) ==>
              W(Symmetrize(vs), p, q) == W(vs, q, p)
  {
    SymmetrizeEffect(vs);
    TargetCases(vs, p, q);
  }

  /** setIsDirected: only the change from directed to undirected touches
      the edges, and then by the walk above. */
  function SetDirected(s: State, b: bool): (r: State)
    requires Valid(s)
    ensures Valid(r) && r.directed == b && r.weighted == s.weighted
    ensures Labels(r.verts) == Labels(s.verts)
    ensures !(s.directed && !b) ==> r.verts == s.verts
    ensures s.directed && !b ==> forall p, q :: W(r.verts, p, q) == Target(s.verts, p, q)
  {
    if s.directed && !b then
      SymmetrizeEffect(s.verts);
      State(false, s.weighted, Symmetrize(s.verts))
    else
      s.(directed := b)
  }
}
