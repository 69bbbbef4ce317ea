/**
 * The searches of graph.cpp: breadthFirstTraverse, depthFirstTraverse,
 * breadthFirstRoute and depthFirstRoute all run the same loop over a
 * frontier (a queue for breadth first, a stack for depth first) and a set of
 * visited labels.  A label is marked visited when it is taken off the
 * frontier; the route variants stop when the destination is taken off
 * unvisited and record every (parent, child) push on a stack of pairs, from
 * which getRoute rebuilds a path back to the origin.
 */
module Search {
  import opened Wrappers
  import opened GraphState
  import opened Paths
  import opened Text

  /** What the pair stack of a search guarantees: each pair is an edge from
      an already visited parent to a child other than the origin; a child
      visited later comes after its parent in visiting order; and each
      parent is the origin (up[k] < 0) or the child of the earlier pair
      up[k]. */
  ghost predicate PairsOk(vs: seq<VertexRec>, origin: Label, order: seq<Label>, pairs: seq<(Label, Label)>, up: seq<int>)
  {
    Chained(origin, order, pairs, up) && PairEdges(vs, pairs)
  }

  /** Every pair is an edge of the graph. */
  ghost predicate PairEdges(vs: seq<VertexRec>, pairs: seq<(Label, Label)>)
  {
    forall k :: 0 <= k < |pairs| ==> HasEdge(vs, pairs[k].0, pairs[k].1)
  }

  /** The part of PairsOk that does not mention the graph. */
  ghost predicate Chained(origin: Label, order: seq<Label>, pairs: seq<(Label, Label)>, up: seq<int>)
  {
    && |up| == |pairs|
    && (forall k :: 0 <= k < |pairs| ==>
         && pairs[k].0 in order
         && pairs[k].0 != pairs[k].1
         && pairs[k].1 != origin
         && (pairs[k].1 in order ==> IndexOf(order, pairs[k].0) < IndexOf(order, pairs[k].1)))
    && forall k :: 0 <= k < |pairs| ==> LinkedAt(origin, pairs, up, k)
  }

  /** The parent of pair k is the origin (up[k] < 0) or the child of the
      earlier pair up[k]. */
  ghost predicate LinkedAt(origin: Label, pairs: seq<(Label, Label)>, up: seq<int>, k: nat)
  {
    && k < |pairs| && k < |up|
    && if up[k] < 0 then pairs[k].0 == origin else up[k] < k && pairs[up[k]].1 == pairs[k].0
  }

  /** Every label on the frontier is a vertex, and is the origin (via[k] < 0)
      or the child of pair via[k]. */
  ghost predicate FrontierOk(vs: seq<VertexRec>, origin: Label, frontier: seq<Label>, via: seq<int>, pairs: seq<(Label, Label)>)
  {
    && |via| == |frontier|
    && forall k :: 0 <= k < |frontier| ==>
         && frontier[k] in Labels(vs)
         && (if via[k] < 0 then frontier[k] == origin else via[k] < |pairs| && pairs[via[k]].1 == frontier[k])
  }

  /** Every edge out of a visited label leads to a visited label or to one
      still on the frontier. */
  ghost predicate Covered(vs: seq<VertexRec>, visited: set<Label>, frontier: seq<Label>)
  {
    forall u, v :: u in visited && HasEdge(vs, u, v) ==> v in visited || v in frontier
  }

  lemma IndexOfFirst(xs: seq<Label>, x: Label, i: nat)
    requires i < |xs| && xs[i] == x && forall k :: 0 <= k < i ==> xs[k] != x
    ensures IndexOf(xs, x) == i
  {
  }

  lemma IndexOfAppend(xs: seq<Label>, y: Label, x: Label)
    requires x in xs
    ensures IndexOf(xs + [y], x) == IndexOf(xs, x)
  {
    var i := IndexOf(xs, x);
    assert (xs + [y])[i] == x;
    assert forall k :: 0 <= k < i ==> (xs + [y])[k] == xs[k];
    IndexOfFirst(xs + [y], x, i);
  }

  lemma IndexOfLast(xs: seq<Label>, y: Label)
    requires y !in xs
    ensures IndexOf(xs + [y], y) == |xs|
  {
    assert (xs + [y])[|xs|] == y;
    IndexOfFirst(xs + [y], y, |xs|);
  }

  /** A label entered from the m-th visited label extends a visiting order. */
  lemma VisitEntered(vs: seq<VertexRec>, order: seq<Label>, cur: Label, m: nat)
    requires EnteredInOrder(vs, order) && m < |order| && HasEdge(vs, order[m], cur)
    ensures EnteredInOrder(vs, order + [cur])
  {
    var o := order + [cur];
    forall k | 1 <= k < |o| ensures EnteredFrom(vs, o, k) {
      if k < |order| {
        assert EnteredFrom(vs, order, k);
        var m' :| 0 <= m' < k && HasEdge(vs, order[m'], order[k]);
        assert o[m'] == order[m'];
      } else {
        assert o[m] == order[m] && o[k] == cur;
      }
    }
  }

  /** Visiting a new label keeps the pair stack well formed. */
  lemma VisitPairs(vs: seq<VertexRec>, origin: Label, order: seq<Label>, pairs: seq<(Label, Label)>, up: seq<int>, cur: Label)
    requires PairsOk(vs, origin, order, pairs, up) && cur !in order
    ensures PairsOk(vs, origin, order + [cur], pairs, up)
  {
    var o := order + [cur];
    forall k | 0 <= k < |pairs|
      ensures pairs[k].1 in o ==> IndexOf(o, pairs[k].0) < IndexOf(o, pairs[k].1)
    {
      IndexOfAppend(order, cur, pairs[k].0);
      if pairs[k].1 in order {
        IndexOfAppend(order, cur, pairs[k].1);
      } else if pairs[k].1 == cur {
        IndexOfLast(order, cur);
      }
    }
  }

  /** Taking the i-th label off the frontier keeps the frontier well formed. */
  lemma PopFrontier(vs: seq<VertexRec>, origin: Label, frontier: seq<Label>, via: seq<int>,
                    pairs: seq<(Label, Label)>, i: nat)
    requires FrontierOk(vs, origin, frontier, via, pairs) && i < |frontier|
    ensures FrontierOk(vs, origin, frontier[..i] + frontier[i + 1..], via[..i] + via[i + 1..], pairs)
  {
  }

  /** An element of the frontier other than the i-th one stays on it when
      the i-th is taken off. */
  lemma InRest<T>(frontier: seq<T>, i: nat, v: T)
    requires i < |frontier| && v in frontier
    ensures v in frontier[..i] + frontier[i + 1..] + [frontier[i]]
    ensures v != frontier[i] ==> v in frontier[..i] + frontier[i + 1..]
  {
    var rest := frontier[..i] + frontier[i + 1..];
    var k :| 0 <= k < |frontier| && frontier[k] == v;
    if k < i {
      assert rest[k] == v;
    } else if k > i {
      assert rest[k - 1] == v;
    } else {
      assert (rest + [frontier[i]])[|rest|] == v;
    }
  }

  /** Taking the i-th label off the frontier: its targets stay covered if it
      is put back at the end, or if it was visited already. */
  lemma PopCovered(vs: seq<VertexRec>, visited: set<Label>, frontier: seq<Label>, i: nat)
    requires Covered(vs, visited, frontier) && i < |frontier|
    ensures Covered(vs, visited, frontier[..i] + frontier[i + 1..] + [frontier[i]])
    ensures frontier[i] in visited ==> Covered(vs, visited, frontier[..i] + frontier[i + 1..])
  {
    var rest := frontier[..i] + frontier[i + 1..];
    forall u, v | u in visited && HasEdge(vs, u, v)
      ensures v in visited || v in rest + [frontier[i]]
      ensures frontier[i] in visited ==> v in visited || v in rest
    {
      if v !in visited {
        InRest(frontier, i, v);
      }
    }
  }

  /** The destinations of `es`, in list order, that are not in `visited`:
      what the edge loop of a visit pushes. */
  function Unvisited(es: seq<EdgeRec>, visited: set<Label>): seq<Label>
  {
    if es == [] then []
    else
      var last := es[|es| - 1];
      Unvisited(es[..|es| - 1], visited) + (if last.dest in visited then [] else [last.dest])
  }

  /** Unvisited keeps exactly the destinations that are not visited. */
  lemma {:induction false} UnvisitedIn(es: seq<EdgeRec>, visited: set<Label>)
    ensures forall x :: x in Unvisited(es, visited) <==> x in Dests(es) && x !in visited
  {
    if es != [] {
      var init := es[..|es| - 1];
      UnvisitedIn(init, visited);
      assert Dests(es) == Dests(init) + [es[|es| - 1].dest];
    }
  }

  /** The pairs (cur, d) pushed with the labels ds. */
  function Pushes(cur: Label, ds: seq<Label>): (r: seq<(Label, Label)>)
    ensures |r| == |ds| && forall j :: 0 <= j < |ds| ==> r[j] == (cur, ds[j])
  {
    if ds == [] then [] else Pushes(cur, ds[..|ds| - 1]) + [(cur, ds[|ds| - 1])]
  }

  /** The pair indices a, a + 1, ..., a + n - 1. */
  ghost function Iota(a: int, n: nat): (r: seq<int>)
    ensures |r| == n && forall j :: 0 <= j < n ==> r[j] == a + j
  {
    if n == 0 then [] else Iota(a, n - 1) + [a + n - 1]
  }

  /** n copies of c. */
  ghost function Repeat(c: int, n: nat): (r: seq<int>)
    ensures |r| == n && forall j :: 0 <= j < n ==> r[j] == c
  {
    if n == 0 then [] else Repeat(c, n - 1) + [c]
  }

  /** What a visit of cur pushes: vertices joined to cur by an edge, none of
      them visited; and every target of cur is visited or pushed. */
  lemma UnvisitedEdges(vs: seq<VertexRec>, cur: Label, visited: set<Label>)
    requires WellFormed(vs)
    ensures forall d :: d in Unvisited(EdgesOf(vs, cur), visited) ==>
      HasEdge(vs, cur, d) && d in Labels(vs) && d !in visited
    ensures forall v :: HasEdge(vs, cur, v) ==> v in visited || v in Unvisited(EdgesOf(vs, cur), visited)
  {
    EdgesOfWellFormed(vs, cur);
    UnvisitedIn(EdgesOf(vs, cur), visited);
  }

  /** Pushing labels of the graph, each with its own new pair, keeps the
      frontier well formed. */
  lemma FrontierPushAll(vs: seq<VertexRec>, origin: Label, frontier: seq<Label>, via: seq<int>,
                        pairs: seq<(Label, Label)>, cur: Label, ds: seq<Label>)
    requires FrontierOk(vs, origin, frontier, via, pairs)
    requires forall d :: d in ds ==> d in Labels(vs)
    ensures FrontierOk(vs, origin, frontier + ds, via + Iota(|pairs|, |ds|), pairs + Pushes(cur, ds))
  {
    var f, v, p := frontier + ds, via + Iota(|pairs|, |ds|), pairs + Pushes(cur, ds);
    forall k | 0 <= k < |f|
      ensures f[k] in Labels(vs)
      ensures if v[k] < 0 then f[k] == origin else v[k] < |p| && p[v[k]].1 == f[k]
    {
      if k < |frontier| {
        assert f[k] == frontier[k] && v[k] == via[k];
        if via[k] >= 0 {
          assert p[via[k]] == pairs[via[k]];
        }
      } else {
        var j := k - |frontier|;
        assert f[k] == ds[j] && v[k] == |pairs| + j && p[|pairs| + j] == (cur, ds[j]);
      }
    }
  }

  /** Pushing the pairs (cur, d) from a visited parent to unvisited children,
      each linked to the pair cw that cur was pushed with, keeps the pair
      stack chained. */
  lemma ChainPushAll(origin: Label, order: seq<Label>, pairs: seq<(Label, Label)>, up: seq<int>,
                     cur: Label, cw: int, ds: seq<Label>)
    requires Chained(origin, order, pairs, up) && cur in order && origin in order
    requires forall d :: d in ds ==> d !in order
    requires if cw < 0 then cur == origin else cw < |pairs| && pairs[cw].1 == cur
    ensures Chained(origin, order, pairs + Pushes(cur, ds), up + Repeat(cw, |ds|))
  {
    var p, u := pairs + Pushes(cur, ds), up + Repeat(cw, |ds|);
    forall k | 0 <= k < |p|
      ensures p[k].0 in order && p[k].0 != p[k].1 && p[k].1 != origin
      ensures p[k].1 in order ==> IndexOf(order, p[k].0) < IndexOf(order, p[k].1)
      ensures LinkedAt(origin, p, u, k)
    {
      if k < |pairs| {
        assert p[k] == pairs[k] && u[k] == up[k];
        assert LinkedAt(origin, pairs, up, k);
        if up[k] >= 0 {
          assert p[up[k]] == pairs[up[k]];
        }
      } else {
        var j := k - |pairs|;
        assert p[k] == (cur, ds[j]) && u[k] == cw && ds[j] in ds;
        if cw >= 0 {
          assert p[cw] == pairs[cw];
        }
      }
    }
  }

  /** Pushing edges of the graph keeps every pair an edge. */
  lemma EdgesPushAll(vs: seq<VertexRec>, pairs: seq<(Label, Label)>, cur: Label, ds: seq<Label>)
    requires PairEdges(vs, pairs) && forall d :: d in ds ==> HasEdge(vs, cur, d)
    ensures PairEdges(vs, pairs + Pushes(cur, ds))
  {
    var p := pairs + Pushes(cur, ds);
    forall k | 0 <= k < |p| ensures HasEdge(vs, p[k].0, p[k].1) {
      if k < |pairs| {
        assert p[k] == pairs[k];
      } else {
        assert p[k] == (cur, ds[k - |pairs|]) && ds[k - |pairs|] in ds;
      }
    }
  }

  /** Appending a label not yet listed keeps a list distinct. */
  lemma AppendFresh(order: seq<Label>, cur: Label)
    requires Distinct(order) && cur !in order
    ensures Distinct(order + [cur])
    ensures forall x :: x in order + [cur] <==> x in order || x == cur
  {
  }

  /** Once the children of cur are pushed, cur may join the visited set. */
  lemma VisitCovered(vs: seq<VertexRec>, visited: set<Label>, rest: seq<Label>, cur: Label, frontier: seq<Label>)
    requires Covered(vs, visited, rest + [cur])
    requires |rest| <= |frontier| && frontier[..|rest|] == rest
    requires forall v :: HasEdge(vs, cur, v) ==> v in visited + {cur} || v in frontier
    ensures Covered(vs, visited + {cur}, frontier)
  {
    forall u, v | u in visited + {cur} && HasEdge(vs, u, v) ensures v in visited + {cur} || v in frontier {
      if u in visited && v !in visited && v != cur {
        assert v in rest + [cur];
        var k :| 0 <= k < |rest + [cur]| && (rest + [cur])[k] == v;
        assert k < |rest| && frontier[k] == v;
      }
    }
  }

  /** One more edge of the list: its destination is kept unless visited. */
  lemma UnvisitedStep(es: seq<EdgeRec>, k: nat, visited: set<Label>)
    requires k < |es|
    ensures Unvisited(es[..k + 1], visited)
         == Unvisited(es[..k], visited) + if es[k].dest in visited then [] else [es[k].dest]
  {
    assert es[..k + 1][..k] == es[..k];
  }

  /** Pushing one more label and its pair extends both stacks. */
  lemma PushStep(frontier: seq<Label>, pairs: seq<(Label, Label)>, cur: Label, ds: seq<Label>, d: Label)
    ensures frontier + ds + [d] == frontier + (ds + [d])
    ensures pairs + Pushes(cur, ds) + [(cur, d)] == pairs + Pushes(cur, ds + [d])
  {
    assert (ds + [d])[..|ds|] == ds;
  }

  /** The edge loop of a visit: every destination of cur's list that is not
      visited yet is pushed on the frontier, in list order, together with the
      pair (cur, destination). */
  method PushChildren(vs: seq<VertexRec>, cur: Label, visited: set<Label>,
                      frontier: seq<Label>, pairs: seq<(Label, Label)>)
    returns (frontier': seq<Label>, pairs': seq<(Label, Label)>)
    ensures frontier' == frontier + Unvisited(EdgesOf(vs, cur), visited)
    ensures pairs' == pairs + Pushes(cur, Unvisited(EdgesOf(vs, cur), visited))
  {
    var es := EdgesOf(vs, cur);
    frontier', pairs' := frontier, pairs;
    var k := 0;
    while k < |es|
      invariant 0 <= k <= |es|
      invariant frontier' == frontier + Unvisited(es[..k], visited)
      invariant pairs' == pairs + Pushes(cur, Unvisited(es[..k], visited))
    {
      UnvisitedStep(es, k, visited);
      var d := es[k].dest;
      if d !in visited {
        PushStep(frontier, pairs, cur, Unvisited(es[..k], visited), d);
        frontier' := frontier' + [d];
        pairs' := pairs' + [(cur, d)];
      }
      k := k + 1;
    }
    assert es[..|es|] == es;
  }

  /** The invariant of the search loop: the visiting order lists the visited
      labels once each, each entered by an edge from an earlier one; the
      frontier and the pair stack are well formed; every edge out of a
      visited label is covered; and the destination is not visited. */
  ghost predicate SearchInv(vs: seq<VertexRec>, origin: Label, target: Option<Label>, visited: set<Label>,
                            order: seq<Label>, frontier: seq<Label>, via: seq<int>, pairs: seq<(Label, Label)>, up: seq<int>)
  {
    && Distinct(order) && (forall x :: x in visited <==> x in order)
    && (order == [] ==> frontier == [origin] && via == [-1] && pairs == [])
    && (order != [] ==> order[0] == origin)
    && EnteredInOrder(vs, order)
    && FrontierOk(vs, origin, frontier, via, pairs) && PairsOk(vs, origin, order, pairs, up)
    && Covered(vs, visited, frontier)
    && (target.Some? ==> target.value !in visited)
  }

  /** Taking a visited label off the frontier keeps the invariant. */
  lemma PopSkip(vs: seq<VertexRec>, origin: Label, target: Option<Label>, visited: set<Label>,
                order: seq<Label>, frontier: seq<Label>, via: seq<int>, pairs: seq<(Label, Label)>, up: seq<int>, i: nat)
    requires SearchInv(vs, origin, target, visited, order, frontier, via, pairs, up)
    requires i < |frontier| && frontier[i] in visited
    ensures SearchInv(vs, origin, target, visited, order, frontier[..i] + frontier[i + 1..], via[..i] + via[i + 1..], pairs, up)
  {
    PopFrontier(vs, origin, frontier, via, pairs, i);
    PopCovered(vs, visited, frontier, i);
  }

  /** A label taken off the frontier unvisited is the origin, on the first
      round, or the child of the pair it was pushed with. */
  lemma PopFresh(vs: seq<VertexRec>, origin: Label, target: Option<Label>, visited: set<Label>,
                 order: seq<Label>, frontier: seq<Label>, via: seq<int>, pairs: seq<(Label, Label)>, up: seq<int>, i: nat)
    requires SearchInv(vs, origin, target, visited, order, frontier, via, pairs, up)
    requires i < |frontier| && frontier[i] !in visited
    ensures frontier[i] in Labels(vs)
    ensures order == [] ==> i == 0 && frontier[i] == origin && via[i] < 0 && pairs == []
    ensures order != [] ==> 0 <= via[i] < |pairs| && pairs[via[i]].1 == frontier[i] && pairs[via[i]].0 in order
    ensures order != [] ==> HasEdge(vs, pairs[via[i]].0, frontier[i])
  {
    if order != [] {
      assert origin in visited;
    }
  }

  /** The visit part of the invariant: cur joins the visiting order. */
  lemma VisitOrder(vs: seq<VertexRec>, origin: Label, target: Option<Label>, visited: set<Label>,
                   order: seq<Label>, frontier: seq<Label>, via: seq<int>, pairs: seq<(Label, Label)>, up: seq<int>, i: nat)
    requires SearchInv(vs, origin, target, visited, order, frontier, via, pairs, up)
    requires i < |frontier| && frontier[i] !in visited
    ensures Distinct(order + [frontier[i]])
    ensures forall x :: x in visited + {frontier[i]} <==> x in order + [frontier[i]]
    ensures (order + [frontier[i]])[0] == origin
    ensures EnteredInOrder(vs, order + [frontier[i]])
    ensures PairsOk(vs, origin, order + [frontier[i]], pairs, up)
  {
    var cur := frontier[i];
    PopFresh(vs, origin, target, visited, order, frontier, via, pairs, up, i);
    if order != [] {
      VisitEntered(vs, order, cur, IndexOf(order, pairs[via[i]].0));
    }
    VisitPairs(vs, origin, order, pairs, up, cur);
    AppendFresh(order, cur);
  }

  /** The push part of a visit: the frontier and pair stack grow by what
      PushChildren pushes, and the edges of cur are covered. */
  lemma VisitPush(vs: seq<VertexRec>, origin: Label, target: Option<Label>, visited: set<Label>,
                  order: seq<Label>, frontier: seq<Label>, via: seq<int>, pairs: seq<(Label, Label)>, up: seq<int>, i: nat)
    requires WellFormed(vs) && SearchInv(vs, origin, target, visited, order, frontier, via, pairs, up)
    requires i < |frontier| && frontier[i] !in visited
    ensures var cur := frontier[i];
            var ds := Unvisited(EdgesOf(vs, cur), visited + {cur});
            var rest := frontier[..i] + frontier[i + 1..];
            && FrontierOk(vs, origin, rest + ds, via[..i] + via[i + 1..] + Iota(|pairs|, |ds|), pairs + Pushes(cur, ds))
            && PairsOk(vs, origin, order + [cur], pairs + Pushes(cur, ds), up + Repeat(via[i], |ds|))
            && Covered(vs, visited + {cur}, rest + ds)
  {
    var cur := frontier[i];
    var ds := Unvisited(EdgesOf(vs, cur), visited + {cur});
    var rest := frontier[..i] + frontier[i + 1..];
    PopFresh(vs, origin, target, visited, order, frontier, via, pairs, up, i);
    VisitPairs(vs, origin, order, pairs, up, cur);
    UnvisitedEdges(vs, cur, visited + {cur});
    PopFrontier(vs, origin, frontier, via, pairs, i);
    FrontierPushAll(vs, origin, rest, via[..i] + via[i + 1..], pairs, cur, ds);
    ChainPushAll(origin, order + [cur], pairs, up, cur, via[i], ds);
    EdgesPushAll(vs, pairs, cur, ds);
    PopCovered(vs, visited, frontier, i);
    assert (rest + ds)[..|rest|] == rest;
    VisitCovered(vs, visited, rest, cur, rest + ds);
  }

  /** Visiting an unvisited label that is not the destination keeps the
      invariant. */
  lemma Visit(vs: seq<VertexRec>, origin: Label, target: Option<Label>, visited: set<Label>,
              order: seq<Label>, frontier: seq<Label>, via: seq<int>, pairs: seq<(Label, Label)>, up: seq<int>, i: nat)
    requires WellFormed(vs) && SearchInv(vs, origin, target, visited, order, frontier, via, pairs, up)
    requires i < |frontier| && frontier[i] !in visited && target != Some(frontier[i])
    ensures var cur := frontier[i];
            var ds := Unvisited(EdgesOf(vs, cur), visited + {cur});
            SearchInv(vs, origin, target, visited + {cur}, order + [cur],
                      frontier[..i] + frontier[i + 1..] + ds, via[..i] + via[i + 1..] + Iota(|pairs|, |ds|),
                      pairs + Pushes(cur, ds), up + Repeat(via[i], |ds|))
  {
    VisitOrder(vs, origin, target, visited, order, frontier, via, pairs, up, i);
    VisitPush(vs, origin, target, visited, order, frontier, via, pairs, up, i);
  }

  /** The destination a route search stops at is reachable. */
  lemma FoundReachable(vs: seq<VertexRec>, origin: Label, order: seq<Label>, pairs: seq<(Label, Label)>, up: seq<int>,
                       at: int, t: Label)
    requires EnteredInOrder(vs, order) && PairsOk(vs, origin, order, pairs, up)
    requires order != [] ==> order[0] == origin && 0 <= at < |pairs| && pairs[at].1 == t
    requires order == [] ==> t == origin
    ensures Reachable(vs, origin, t)
  {
    if order == [] {
      ReachableRefl(vs, origin);
    } else {
      var m := IndexOf(order, pairs[at].0);
      EnteredReachable(vs, order, m);
      ReachableStep(vs, origin, pairs[at].0, t);
    }
  }

  /** A finished search has visited exactly the labels reachable from the
      origin. */
  lemma ClosedOrder(vs: seq<VertexRec>, origin: Label, order: seq<Label>, visited: set<Label>)
    requires order != [] && order[0] == origin && EnteredInOrder(vs, order)
    requires forall x :: x in visited <==> x in order
    requires Covered(vs, visited, [])
    ensures forall v :: v in order <==> Reachable(vs, origin, v)
  {
    assert Closed(vs, visited);
    forall v ensures v in order <==> Reachable(vs, origin, v) {
      if v in order {
        EnteredReachable(vs, order, IndexOf(order, v));
      }
      if Reachable(vs, origin, v) {
        ClosedReachable(vs, visited, origin, v);
      }
    }
  }

  /** One round of the search loop takes the i-th label off the frontier:
      a visited label is dropped; an unvisited one is the destination, which
      is then reachable from the origin through the pair it was pushed with,
      or is visited.  (The invariant is compared with true in this contract
      and in the loop so that the verifier takes it as one fact.) */
  lemma Round(vs: seq<VertexRec>, origin: Label, target: Option<Label>, visited: set<Label>,
              order: seq<Label>, frontier: seq<Label>, via: seq<int>, pairs: seq<(Label, Label)>, up: seq<int>, i: nat)
    requires WellFormed(vs) && SearchInv(vs, origin, target, visited, order, frontier, via, pairs, up) == true
    requires i < |frontier|
    ensures frontier[i] in visited ==>
      SearchInv(vs, origin, target, visited, order, frontier[..i] + frontier[i + 1..], via[..i] + via[i + 1..], pairs, up)
    ensures frontier[i] !in visited ==> frontier[i] in Labels(vs)
    ensures frontier[i] !in visited && target == Some(frontier[i]) ==>
      && Reachable(vs, origin, frontier[i])
      && (pairs == [] <==> frontier[i] == origin)
      && (pairs != [] ==> order != [] && 0 <= via[i] < |pairs| && pairs[via[i]].1 == frontier[i])
    ensures frontier[i] !in visited && target != Some(frontier[i]) ==>
      var cur := frontier[i];
      var ds := Unvisited(EdgesOf(vs, cur), visited + {cur});
      SearchInv(vs, origin, target, visited + {cur}, order + [cur],
                frontier[..i] + frontier[i + 1..] + ds, via[..i] + via[i + 1..] + Iota(|pairs|, |ds|),
                pairs + Pushes(cur, ds), up + Repeat(via[i], |ds|))
  {
    if frontier[i] in visited {
      PopSkip(vs, origin, target, visited, order, frontier, via, pairs, up, i);
    } else {
      PopFresh(vs, origin, target, visited, order, frontier, via, pairs, up, i);
      if target == Some(frontier[i]) {
        FoundReachable(vs, origin, order, pairs, up, via[i], frontier[i]);
      } else {
        Visit(vs, origin, target, visited, order, frontier, via, pairs, up, i);
      }
    }
  }

  /** A search whose frontier ran empty has visited exactly the labels
      reachable from the origin, and the destination is not one of them. */
  lemma Finish(vs: seq<VertexRec>, origin: Label, target: Option<Label>, visited: set<Label>,
               order: seq<Label>, via: seq<int>, pairs: seq<(Label, Label)>, up: seq<int>)
    requires SearchInv(vs, origin, target, visited, order, [], via, pairs, up) == true
    ensures order != [] && forall v :: v in order <==> Reachable(vs, origin, v)
    ensures target.Some? ==> !Reachable(vs, origin, target.value)
  {
    ClosedOrder(vs, origin, order, visited);
  }

  /** Visiting a label not visited yet leaves fewer labels to visit. */
  lemma Fewer(labels: set<Label>, visited: set<Label>, cur: Label)
    requires cur in labels && cur !in visited
    ensures |labels - (visited + {cur})| < |labels - visited|
  {
    assert labels - (visited + {cur}) == (labels - visited) - {cur};
  }

  /** The search loop shared by the four searches.  `lifo` selects the
      stack of the depth-first variants; `target` is the destination of the
      route variants.  `order` is the visiting order, `pairs` the stack of
      (parent, child) pushes, and `found` says the destination was taken
      off the frontier unvisited, which stops the search before visiting
      it.  `up` and `at` name, for the route, the pair each parent and the
      destination were pushed with. */
  method Explore(vs: seq<VertexRec>, origin: Label, lifo: bool, target: Option<Label>)
    returns (order: seq<Label>, pairs: seq<(Label, Label)>, found: bool, ghost up: seq<int>, ghost at: int)
    requires WellFormed(vs) && origin in Labels(vs)
    ensures Distinct(order) && EnteredInOrder(vs, order)
    ensures order != [] ==> order[0] == origin
    ensures found <==> target.Some? && Reachable(vs, origin, target.value)
    ensures !found ==> order != [] && forall v :: v in order <==> Reachable(vs, origin, v)
    ensures found ==>
      && target.value !in order
      && PairsOk(vs, origin, order, pairs, up)
      && (pairs == [] <==> target.value == origin)
      && (pairs != [] ==> order != [] && 0 <= at < |pairs| && pairs[at].1 == target.value)
  {
    var frontier := [origin];
    var visited: set<Label> := {};
    order, pairs, found := [], [], false;
    ghost var via: seq<int> := [-1];
    up, at := [], -1;
    ghost var labels := set l | l in Labels(vs);
    while frontier != []
      invariant visited <= labels && !found
      invariant SearchInv(vs, origin, target, visited, order, frontier, via, pairs, up) == true
      decreases |labels - visited|, |frontier|
    {
      // the top of the stack, or the front of the queue
      var i := if lifo then |frontier| - 1 else 0;
      var cur := frontier[i];
      ghost var before, vb := frontier, via;
      frontier := frontier[..i] + frontier[i + 1..];
      via := via[..i] + via[i + 1..];
      Round(vs, origin, target, visited, order, before, vb, pairs, up, i);
      if cur !in visited {
        if target == Some(cur) {
          found, at := true, vb[i];
          break;
        }
        Fewer(labels, visited, cur);
        ghost var n := |Unvisited(EdgesOf(vs, cur), visited + {cur})|;
        order := order + [cur];
        visited := visited + {cur};
        via, up := via + Iota(|pairs|, n), up + Repeat(vb[i], n);
        frontier, pairs := PushChildren(vs, cur, visited, frontier, pairs);
      }
    }
    if !found {
      Finish(vs, origin, target, visited, order, via, pairs, up);
    }
  }

  /** What the pair stack says about pair j. */
  lemma PairAt(origin: Label, order: seq<Label>, pairs: seq<(Label, Label)>, up: seq<int>, j: nat)
    requires Chained(origin, order, pairs, up) && j < |pairs|
    ensures pairs[j].0 in order && pairs[j].0 != pairs[j].1 && pairs[j].1 != origin
    ensures pairs[j].1 in order ==> IndexOf(order, pairs[j].0) < IndexOf(order, pairs[j].1)
    ensures LinkedAt(origin, pairs, up, j)
  {
  }

  /** The inner loop of getRoute: pops pairs until the top one has child
      `cur` or the stack is empty.  `at` names a pair with child `cur`, if
      any. */
  method SeekChild(p: seq<(Label, Label)>, cur: Label, ghost at: int) returns (q: seq<(Label, Label)>)
    requires at >= 0 ==> at < |p| && p[at].1 == cur
    ensures |q| <= |p| && q == p[..|q|]
    ensures q != [] ==> q[|q| - 1].1 == cur
    ensures forall k :: |q| <= k < |p| ==> p[k].1 != cur
    ensures q == [] ==> at < 0
  {
    q := p;
    while q != [] && q[|q| - 1].1 != cur
      invariant |q| <= |p| && q == p[..|q|]
      invariant forall k :: |q| <= k < |p| ==> p[k].1 != cur
      invariant at >= 0 ==> at < |q|
    {
      q := q[..|q| - 1];
    }
  }

  /** getRoute: walking the pair stack from its top, each step looks for the
      topmost pair whose child is the current label and moves to its
      parent, until the stack is empty.  The labels met, destination first,
      run back to the origin without repetition, each one the child of a
      pair (js[k]) whose parent is the next; the text lists each one
      followed by " <- ", less the last three characters. */
  method GetRoute(pairs: seq<(Label, Label)>, dest: Label,
                  ghost origin: Label, ghost order: seq<Label>, ghost up: seq<int>, ghost dw: int)
    returns (text: string, ghost route: seq<Label>, ghost js: seq<nat>)
    requires Chained(origin, order, pairs, up) && dest !in order
    requires pairs != [] ==> 0 <= dw < |pairs| && pairs[dw].1 == dest
    ensures route == [] <==> pairs == []
    ensures route != [] ==> route[0] == dest && route[|route| - 1] == origin && Distinct(route)
    ensures |js| == if route == [] then 0 else |route| - 1
    ensures forall k :: 0 <= k < |js| ==> js[k] < |pairs| && pairs[js[k]] == (route[k + 1], route[k])
    ensures text == Trim3(Suffixed(route, " <- "))
  {
    var p := pairs;
    var cur := dest;
    var built := "";
    route, js := [], [];
    ghost var at := dw;
    while p != []
      invariant RouteInv(pairs, dest, origin, order, up, p, cur, route, js, at) == true
      invariant built == Suffixed(route, " <- ")
      decreases |p|, if p != [] && p[|p| - 1].1 == cur then 1 else 0
    {
      SuffixedSnoc(route, cur, " <- ");
      built := built + cur + " <- ";
      var q := SeekChild(p, cur, at);
      RouteStep(pairs, dest, origin, order, up, p, cur, route, js, at, q);
      js := if route == [] then js else js + [|p| - 1];
      route := route + [cur];
      p := q;
      if p != [] {
        at := up[|p| - 1];
        cur := p[|p| - 1].0;
      }
    }
    RouteDone(pairs, dest, origin, order, up, cur, route, js, at);
    text := Trim3(built);
  }

  /** When the stack is used up, the route runs from the destination back to
      the origin. */
  lemma RouteDone(pairs: seq<(Label, Label)>, dest: Label, origin: Label, order: seq<Label>, up: seq<int>,
                  cur: Label, route: seq<Label>, js: seq<nat>, at: int)
    requires RouteInv(pairs, dest, origin, order, up, [], cur, route, js, at) == true
    ensures route == [] <==> pairs == []
    ensures route != [] ==> route[0] == dest && route[|route| - 1] == origin && Distinct(route)
    ensures |js| == if route == [] then 0 else |route| - 1
    ensures forall k :: 0 <= k < |js| ==> js[k] < |pairs| && pairs[js[k]] == (route[k + 1], route[k])
  {
  }

  /** The loop invariant of getRoute: `p` is what is left of the stack,
      `cur` the label looked for next, `route` the labels written so far
      and `at` a pair of `p` whose child is `cur` (none for the origin). */
  ghost predicate RouteInv(pairs: seq<(Label, Label)>, dest: Label, origin: Label, order: seq<Label>, up: seq<int>,
                           p: seq<(Label, Label)>, cur: Label, route: seq<Label>, js: seq<nat>, at: int)
  {
    && Chained(origin, order, pairs, up) && dest !in order
    && (route == [] ==> cur == dest && p == pairs && js == [])
    && RouteSoFar(pairs, dest, order, route, js)
    && Seeking(pairs, origin, order, p, cur, route, at)
  }

  /** The labels written so far: the destination first, then distinct
      visited labels, each joined to the one before by pair js[k]. */
  ghost predicate RouteSoFar(pairs: seq<(Label, Label)>, dest: Label, order: seq<Label>, route: seq<Label>, js: seq<nat>)
  {
    && |js| == (if route == [] then 0 else |route| - 1)
    && (route != [] ==> pairs != [] && route[0] == dest && Distinct(route))
    && (forall k :: 1 <= k < |route| ==> route[k] in order)
    && (forall k :: 0 <= k < |js| ==> js[k] < |pairs| && pairs[js[k]] == (route[k + 1], route[k]))
  }

  /** The label looked for next: the parent, in the top pair of `p`, of the
      last label written, and visited before every written label but the
      destination. */
  ghost predicate Seeking(pairs: seq<(Label, Label)>, origin: Label, order: seq<Label>,
                          p: seq<(Label, Label)>, cur: Label, route: seq<Label>, at: int)
  {
    && |p| <= |pairs| && p == pairs[..|p|]
    && (p != [] && route != [] ==>
         && cur in order
         && pairs[|p| - 1] == (cur, route[|route| - 1])
         && forall k :: 1 <= k < |route| ==> route[k] in order && IndexOf(order, cur) < IndexOf(order, route[k]))
    && (p != [] ==> if at < 0 then cur == origin else at < |p| && p[at].1 == cur)
    && (p == [] && route != [] ==> route[|route| - 1] == origin)
  }

  /** One round of getRoute keeps its invariant. */
  lemma RouteStep(pairs: seq<(Label, Label)>, dest: Label, origin: Label, order: seq<Label>, up: seq<int>,
                  p: seq<(Label, Label)>, cur: Label, route: seq<Label>, js: seq<nat>, at: int, q: seq<(Label, Label)>)
    requires RouteInv(pairs, dest, origin, order, up, p, cur, route, js, at) == true && p != []
    requires |q| <= |p| && q == p[..|q|] && (q != [] ==> q[|q| - 1].1 == cur) && (q == [] ==> at < 0)
    ensures q != [] ==> q[|q| - 1].0 != q[|q| - 1].1
    ensures q != [] ==>
      RouteInv(pairs, dest, origin, order, up, q, q[|q| - 1].0, route + [cur],
               if route == [] then js else js + [|p| - 1], up[|q| - 1])
    ensures q == [] ==>
      RouteInv(pairs, dest, origin, order, up, q, cur, route + [cur], if route == [] then js else js + [|p| - 1], at)
  {
    RouteGrow(pairs, dest, origin, order, up, p, cur, route, js, at);
    if q != [] {
      RouteFollow(pairs, origin, order, up, p, cur, route, at, q);
    }
  }

  /** Writing `cur` extends the route by a label it does not hold yet, joined
      to the previous one by the top pair of `p`. */
  lemma RouteGrow(pairs: seq<(Label, Label)>, dest: Label, origin: Label, order: seq<Label>, up: seq<int>,
                  p: seq<(Label, Label)>, cur: Label, route: seq<Label>, js: seq<nat>, at: int)
    requires RouteInv(pairs, dest, origin, order, up, p, cur, route, js, at) && p != []
    ensures RouteSoFar(pairs, dest, order, route + [cur], if route == [] then js else js + [|p| - 1])
  {
    if route == [] {
      assert [cur][0] == dest;
    } else {
      assert cur !in route by {
        forall k | 1 <= k < |route| ensures route[k] != cur {
        }
      }
      SoFarSnoc(pairs, dest, order, route, js, cur, |p| - 1);
    }
  }

  /** A written route grows by a fresh visited label joined by pair j. */
  lemma SoFarSnoc(pairs: seq<(Label, Label)>, dest: Label, order: seq<Label>, route: seq<Label>, js: seq<nat>,
                  cur: Label, j: nat)
    requires RouteSoFar(pairs, dest, order, route, js) && route != []
    requires cur in order && cur !in route && j < |pairs| && pairs[j] == (cur, route[|route| - 1])
    ensures RouteSoFar(pairs, dest, order, route + [cur], js + [j])
  {
    AppendFresh(route, cur);
  }


  /** When the stack still holds a pair with child `cur`, its parent is
      looked for next. */
  lemma RouteFollow(pairs: seq<(Label, Label)>, origin: Label, order: seq<Label>, up: seq<int>,
                    p: seq<(Label, Label)>, cur: Label, route: seq<Label>, at: int, q: seq<(Label, Label)>)
    requires Chained(origin, order, pairs, up)
    requires Seeking(pairs, origin, order, p, cur, route, at) && p != []
    requires |q| <= |p| && q == p[..|q|] && q != [] && q[|q| - 1].1 == cur
    ensures q[|q| - 1].0 != q[|q| - 1].1
    ensures Seeking(pairs, origin, order, q, q[|q| - 1].0, route + [cur], up[|q| - 1])
  {
    var top := |q| - 1;
    PairAt(origin, order, pairs, up, top);
    assert q[top] == pairs[top];
    var next := pairs[top].0;
    var r := route + [cur];
    if route != [] {
      forall k | 1 <= k < |r| ensures IndexOf(order, next) < IndexOf(order, r[k]) {
        if k < |route| {
          assert r[k] == route[k];
        }
      }
    }
    if up[top] >= 0 {
      assert q[up[top]] == pairs[up[top]];
    }
  }

  /** The route's consecutive labels are joined by edges, child first. */
  lemma RouteEdges(vs: seq<VertexRec>, origin: Label, order: seq<Label>, pairs: seq<(Label, Label)>, up: seq<int>,
                   route: seq<Label>, js: seq<nat>)
    requires PairsOk(vs, origin, order, pairs, up) && |js| == if route == [] then 0 else |route| - 1
    requires forall k :: 0 <= k < |js| ==> js[k] < |pairs| && pairs[js[k]] == (route[k + 1], route[k])
    ensures forall k :: 0 <= k < |route| - 1 ==> HasEdge(vs, route[k + 1], route[k])
  {
    forall k | 0 <= k < |route| - 1 ensures HasEdge(vs, route[k + 1], route[k]) {
      assert HasEdge(vs, pairs[js[k]].0, pairs[js[k]].1);
    }
  }
}
