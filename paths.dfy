/**
 * Paths and reachability in the abstract view of a graph, used to state what
 * the traversals, the routes and the spanning tree of graph.cpp find.
 */
module Paths {
  import opened Wrappers
  import opened GraphState

  /** A non-empty walk along existing edges. */
  ghost predicate IsPath(vs: seq<VertexRec>, p: seq<Label>)
  {
    |p| >= 1 && forall k :: 0 <= k < |p| - 1 ==> HasEdge(vs, p[k], p[k + 1])
  }

  ghost predicate Reachable(vs: seq<VertexRec>, a: Label, b: Label)
  {
    exists p :: IsPath(vs, p) && p[0] == a && p[|p| - 1] == b
  }

  /** No edge leaves the set. */
  ghost predicate Closed(vs: seq<VertexRec>, s: set<Label>)
  {
    forall u, v :: u in s && HasEdge(vs, u, v) ==> v in s
  }

  /** The k-th element is the target of an edge from an element listed
      before it. */
  ghost predicate EnteredFrom(vs: seq<VertexRec>, order: seq<Label>, k: nat)
  {
    k < |order| && exists m :: 0 <= m < k && HasEdge(vs, order[m], order[k])
  }

  /** Every element after the first is entered from an earlier one: the
      order in which a search visits. */
  ghost predicate EnteredInOrder(vs: seq<VertexRec>, order: seq<Label>)
  {
    forall k :: 1 <= k < |order| ==> EnteredFrom(vs, order, k)
  }

  lemma ReachableRefl(vs: seq<VertexRec>, a: Label)
    ensures Reachable(vs, a, a)
  {
    assert IsPath(vs, [a]);
  }

  lemma ReachableStep(vs: seq<VertexRec>, a: Label, b: Label, c: Label)
    requires Reachable(vs, a, b) && HasEdge(vs, b, c)
    ensures Reachable(vs, a, c)
  {
    var p :| IsPath(vs, p) && p[0] == a && p[|p| - 1] == b;
    var q := p + [c];
    forall k | 0 <= k < |q| - 1 ensures HasEdge(vs, q[k], q[k + 1]) {
      if k + 1 < |p| {
        assert q[k] == p[k] && q[k + 1] == p[k + 1];
      } else {
        assert q[k] == b && q[k + 1] == c;
      }
    }
    assert q[0] == a && q[|q| - 1] == c;
  }

  /** In a search order every element is reachable from the first. */
  lemma {:induction false} EnteredReachable(vs: seq<VertexRec>, order: seq<Label>, k: nat)
    requires EnteredInOrder(vs, order) && k < |order|
    ensures Reachable(vs, order[0], order[k])
    decreases k
  {
    if k == 0 {
      ReachableRefl(vs, order[0]);
    } else {
      assert EnteredFrom(vs, order, k);
      var m :| 0 <= m < k && HasEdge(vs, order[m], order[k]);
      EnteredReachable(vs, order, m);
      ReachableStep(vs, order[0], order[m], order[k]);
    }
  }

  lemma {:induction false} ClosedPath(vs: seq<VertexRec>, s: set<Label>, p: seq<Label>, k: nat)
    requires Closed(vs, s) && IsPath(vs, p) && p[0] in s && k < |p|
    ensures p[k] in s
    decreases k
  {
    if k > 0 {
      ClosedPath(vs, s, p, k - 1);
      assert HasEdge(vs, p[k - 1], p[k]);
    }
  }

  /** A set closed under edges holds everything reachable from its members. */
  lemma ClosedReachable(vs: seq<VertexRec>, s: set<Label>, a: Label, b: Label)
    requires Closed(vs, s) && a in s && Reachable(vs, a, b)
    ensures b in s
  {
    var p :| IsPath(vs, p) && p[0] == a && p[|p| - 1] == b;
    ClosedPath(vs, s, p, |p| - 1);
  }
}
