/**
 * primSpanningTree (graph.cpp:602-659): Prim's algorithm.  A queue of
 * candidate edges (origin, destination, weight) is served lightest first;
 * a candidate whose destination is not yet included is accepted: its
 * destination's edges join the queue and the edge joins a fresh directed,
 * weighted graph, together with whichever endpoints it does not hold yet.
 */
module Spanning {
  import opened Wrappers
  import opened GraphState
  import opened Paths
  import Search
  import Text

  /** A queued edge: origin label, destination label, weight. */
  type Candidate = (Label, Label, int)

  /** The edges of a list as candidates leaving u, in list order. */
  function Out(u: Label, es: seq<EdgeRec>): seq<Candidate>
  {
    if es == [] then []
    else Out(u, es[..|es| - 1]) + [(u, es[|es| - 1].dest, es[|es| - 1].weight)]
  }

  /** Index m holds a lightest candidate. */
  predicate IsMin(pq: seq<Candidate>, m: nat)
  {
    m < |pq| && forall k :: 0 <= k < |pq| ==> pq[m].2 <= pq[k].2
  }

  /** The destinations of the accepted edges, in order. */
  function Targets(steps: seq<Candidate>): seq<Label>
  {
    if steps == [] then [] else Targets(steps[..|steps| - 1]) + [steps[|steps| - 1].1]
  }

  /** The weight an accepted edge p -> q carries, if one was accepted. */
  function StepWeight(steps: seq<Candidate>, p: Label, q: Label): Option<int>
  {
    if steps == [] then None
    else
      var c := steps[|steps| - 1];
      if c.0 == p && c.1 == q then Some(c.2) else StepWeight(steps[..|steps| - 1], p, q)
  }

  /** x belongs to the tree's vertex set once the given edges are accepted. */
  predicate Included(origin: Label, steps: seq<Candidate>, x: Label)
  {
    x == origin || x in Targets(steps)
  }

  /** Candidate c leads from the included set to a vertex outside it. */
  predicate Crosses(origin: Label, prior: seq<Candidate>, c: Candidate)
  {
    Included(origin, prior, c.0) && !Included(origin, prior, c.1)
  }

  /** Each accepted edge crosses out of the set included before it. */
  predicate Grows(origin: Label, steps: seq<Candidate>)
  {
    forall k :: 0 <= k < |steps| ==> Crosses(origin, steps[..k], steps[k])
  }

  /** Each accepted edge is an edge of the graph, with its weight. */
  ghost predicate OnGraph(vs: seq<VertexRec>, steps: seq<Candidate>)
  {
    forall k :: 0 <= k < |steps| ==> W(vs, steps[k].0, steps[k].1) == Some(steps[k].2)
  }

  /** Weight w is no heavier than any edge leaving the included set. */
  ghost predicate Lightest(vs: seq<VertexRec>, origin: Label, prior: seq<Candidate>, w: int)
  {
    forall p, q :: Included(origin, prior, p) && !Included(origin, prior, q) && HasEdge(vs, p, q) ==>
      w <= W(vs, p, q).value
  }

  /** Each accepted edge was a lightest edge leaving the set included
      before it. */
  ghost predicate Greedy(vs: seq<VertexRec>, origin: Label, steps: seq<Candidate>)
  {
    forall k :: 0 <= k < |steps| ==> Lightest(vs, origin, steps[..k], steps[k].2)
  }

  /** The vertices and edges of the tree built from the accepted edges: the
      origin and the targets (none when nothing was accepted), and exactly
      the accepted edges. */
  ghost predicate Shaped(origin: Label, steps: seq<Candidate>, verts: seq<VertexRec>)
  {
    && Labels(verts) == (if steps == [] then [] else [origin] + Targets(steps))
    && forall p, q :: W(verts, p, q) == StepWeight(steps, p, q)
  }

  /** The tree built from the accepted edges: a valid directed, weighted
      graph of that shape. */
  ghost predicate TreeOf(origin: Label, steps: seq<Candidate>, tree: State)
  {
    tree.directed && tree.weighted && Valid(tree) && Shaped(origin, steps, tree.verts)
  }

  /** What primSpanningTree returns, given the edges it accepted in order:
      each accepted edge is an edge of the graph and a lightest edge leaving
      the tree built so far; the tree is empty exactly when the origin has
      no edge to another vertex, and otherwise holds exactly the vertices
      reachable from it. */
  ghost predicate Spans(vs: seq<VertexRec>, origin: Label, steps: seq<Candidate>, tree: State)
  {
    && TreeOf(origin, steps, tree)
    && Grows(origin, steps) && OnGraph(vs, steps) && Greedy(vs, origin, steps)
    && (forall x :: x in Labels(tree.verts) <==> steps != [] && Reachable(vs, origin, x))
    && (steps == [] <==> forall q :: HasEdge(vs, origin, q) ==> q == origin)
  }

  // ---------------------------------------------------------------------
  // Facts about the pieces
  // ---------------------------------------------------------------------

  /** The parts of a sequence with one more element. */
  lemma Snoc<T>(xs: seq<T>, x: T)
    ensures (xs + [x])[..|xs|] == xs && (xs + [x])[|xs|] == x
  {
  }

  /** A non-empty sequence is its front and its last element. */
  lemma Last<T>(xs: seq<T>)
    requires xs != []
    ensures xs[..|xs| - 1] + [xs[|xs| - 1]] == xs
  {
  }

  lemma OutStep(u: Label, es: seq<EdgeRec>, k: nat)
    requires k < |es|
    ensures Out(u, es[..k + 1]) == Out(u, es[..k]) + [(u, es[k].dest, es[k].weight)]
  {
    assert es[..k + 1][..k] == es[..k];
  }

  lemma {:induction false} OutMembers(u: Label, es: seq<EdgeRec>, c: Candidate)
    ensures c in Out(u, es) <==> c.0 == u && EdgeRec(c.1, c.2) in es
  {
    if es != [] {
      var init := es[..|es| - 1];
      OutMembers(u, init, c);
      assert es == init + [es[|es| - 1]];
    }
  }

  /** With distinct destinations, an edge is in a list exactly when the
      list gives its destination that weight. */
  lemma WeightInMember(es: seq<EdgeRec>, d: Label, w: int)
    requires Distinct(Dests(es))
    ensures WeightIn(es, d) == Some(w) <==> EdgeRec(d, w) in es
  {
    if EdgeRec(d, w) in es {
      var k :| 0 <= k < |es| && es[k] == EdgeRec(d, w);
      WeightInAt(es, k);
    }
    if WeightIn(es, d) == Some(w) {
      var k :| 0 <= k < |Dests(es)| && Dests(es)[k] == d;
      WeightInAt(es, k);
    }
  }

  /** The candidates pushed for u are u's edges with their weights. */
  lemma OutOf(vs: seq<VertexRec>, u: Label, c: Candidate)
    requires WellFormed(vs)
    ensures c in Out(u, EdgesOf(vs, u)) <==> c.0 == u && W(vs, u, c.1) == Some(c.2)
  {
    EdgesOfWellFormed(vs, u);
    OutMembers(u, EdgesOf(vs, u), c);
    WeightInMember(EdgesOf(vs, u), c.1, c.2);
  }

  lemma TargetsSnoc(steps: seq<Candidate>, c: Candidate)
    ensures Targets(steps + [c]) == Targets(steps) + [c.1]
    ensures forall p, q :: StepWeight(steps + [c], p, q) ==
                           (if c.0 == p && c.1 == q then Some(c.2) else StepWeight(steps, p, q))
  {
    Snoc(steps, c);
  }

  /** An accepted edge leads to a target. */
  lemma {:induction false} StepWeightTarget(steps: seq<Candidate>, p: Label, q: Label)
    ensures StepWeight(steps, p, q).Some? ==> q in Targets(steps)
  {
    if steps != [] {
      StepWeightTarget(steps[..|steps| - 1], p, q);
    }
  }

  /** An accepted edge is one of the steps. */
  lemma {:induction false} StepWeightAt(steps: seq<Candidate>, p: Label, q: Label, w: int)
    requires StepWeight(steps, p, q) == Some(w)
    ensures exists k :: 0 <= k < |steps| && steps[k] == (p, q, w)
  {
    var n := |steps| - 1;
    if !(steps[n].0 == p && steps[n].1 == q) {
      StepWeightAt(steps[..n], p, q, w);
      var k :| 0 <= k < n && steps[..n][k] == (p, q, w);
      assert steps[k] == (p, q, w);
    }
  }

  /** Every target is entered by an accepted edge. */
  lemma {:induction false} TargetEntered(steps: seq<Candidate>, q: Label)
    requires q in Targets(steps)
    ensures exists p :: StepWeight(steps, p, q).Some?
  {
    var n := |steps| - 1;
    if steps[n].1 != q {
      TargetEntered(steps[..n], q);
      var p :| StepWeight(steps[..n], p, q).Some?;
      assert StepWeight(steps, p, q).Some?;
    } else {
      assert StepWeight(steps, steps[n].0, q).Some?;
    }
  }

  /** The k-th target is the destination of the k-th step. */
  lemma {:induction false} TargetsAt(steps: seq<Candidate>, k: nat)
    requires k < |steps|
    ensures k < |Targets(steps)| && Targets(steps)[k] == steps[k].1
  {
    var n := |steps| - 1;
    TargetsLength(steps[..n]);
    if k < n {
      TargetsAt(steps[..n], k);
    }
  }

  lemma {:induction false} TargetsLength(steps: seq<Candidate>)
    ensures |Targets(steps)| == |steps|
  {
    if steps != [] {
      TargetsLength(steps[..|steps| - 1]);
    }
  }

  /** A prefix of the accepted edges keeps each per-step property. */
  lemma PrefixSteps(vs: seq<VertexRec>, origin: Label, steps: seq<Candidate>, n: nat)
    requires n <= |steps|
    ensures Grows(origin, steps) ==> Grows(origin, steps[..n])
    ensures OnGraph(vs, steps) ==> OnGraph(vs, steps[..n])
  {
    forall k | 0 <= k < n ensures steps[..n][..k] == steps[..k] && steps[..n][k] == steps[k] {
    }
  }

  /** Every included vertex is reachable from the origin. */
  lemma {:induction false} StepsReachable(vs: seq<VertexRec>, origin: Label, steps: seq<Candidate>, x: Label)
    requires Grows(origin, steps) && OnGraph(vs, steps) && Included(origin, steps, x)
    ensures Reachable(vs, origin, x)
    decreases |steps|
  {
    if x == origin {
      ReachableRefl(vs, origin);
    } else {
      var n := |steps| - 1;
      var c := steps[n];
      Last(steps);
      TargetsSnoc(steps[..n], c);
      PrefixSteps(vs, origin, steps, n);
      if x in Targets(steps[..n]) {
        StepsReachable(vs, origin, steps[..n], x);
      } else {
        assert Crosses(origin, steps[..n], c) && HasEdge(vs, c.0, c.1);
        StepsReachable(vs, origin, steps[..n], c.0);
        ReachableStep(vs, origin, c.0, x);
      }
    }
  }

  // ---------------------------------------------------------------------
  // Growing the tree
  // ---------------------------------------------------------------------

  /** insertVertex for a label the tree does not hold yet. */
  function Admit(t: State, l: Label): (r: State)
    requires Valid(t)
    ensures Valid(r) && r.directed == t.directed && r.weighted == t.weighted
    ensures Labels(r.verts) == Labels(t.verts) + (if l in Labels(t.verts) then [] else [l])
    ensures forall u, v :: W(r.verts, u, v) == W(t.verts, u, v)
  {
    if l in Labels(t.verts) then t else InsertVertex(t, l).value
  }

  /** The calls on the tree in an accepting round: the endpoints it does
      not hold yet, then insertEdge. */
  function Attach(tree: State, c: Candidate): (r: State)
    requires Valid(tree)
    ensures Valid(r) && r.directed == tree.directed && r.weighted == tree.weighted
  {
    InsertEdge(Admit(Admit(tree, c.0), c.1), c.0, c.1, c.2).value
  }

  /** Attaching a new edge between two different labels of a directed
      graph adds the missing endpoints, in order, and that one edge. */
  lemma AttachEffect(tree: State, c: Candidate)
    requires Valid(tree) && tree.directed && c.0 != c.1 && !HasEdge(tree.verts, c.0, c.1)
    ensures Labels(Attach(tree, c).verts) ==
      Labels(tree.verts) + (if c.0 in Labels(tree.verts) then [] else [c.0])
                         + (if c.1 in Labels(tree.verts) then [] else [c.1])
    ensures forall p, q :: W(Attach(tree, c).verts, p, q) ==
                           (if p == c.0 && q == c.1 then Some(c.2) else W(tree.verts, p, q))
  {
    var t1 := Admit(tree, c.0);
    var t2 := Admit(t1, c.1);
    assert (c.1 in Labels(t1.verts)) == (c.1 in Labels(tree.verts));
    assert !HasEdge(t2.verts, c.0, c.1);
  }

  /** A tree grown by one edge between an included and a new vertex, as
      attaching does, is the tree of one more step. */
  lemma ShapeStep(origin: Label, steps: seq<Candidate>, verts: seq<VertexRec>, c: Candidate, verts': seq<VertexRec>)
    requires Shaped(origin, steps, verts) && Crosses(origin, steps, c)
    requires Labels(verts') ==
      Labels(verts) + (if c.0 in Labels(verts) then [] else [c.0])
                    + (if c.1 in Labels(verts) then [] else [c.1])
    requires forall p, q :: W(verts', p, q) ==
                           (if p == c.0 && q == c.1 then Some(c.2) else W(verts, p, q))
    ensures Shaped(origin, steps + [c], verts')
  {
    TargetsSnoc(steps, c);
    if steps == [] {
      assert Labels(verts') == [] + [origin] + [c.1];
    } else {
      Text.Assoc([origin], Targets(steps), [c.1]);
    }
  }

  /** Attaching a crossing edge to the tree of some steps gives the tree of
      one more step. */
  lemma TreeStep(origin: Label, steps: seq<Candidate>, tree: State, c: Candidate)
    requires TreeOf(origin, steps, tree) && Crosses(origin, steps, c)
    ensures TreeOf(origin, steps + [c], Attach(tree, c))
  {
    StepWeightTarget(steps, c.0, c.1);
    AttachEffect(tree, c);
    ShapeStep(origin, steps, tree.verts, c, Attach(tree, c).verts);
  }

  // ---------------------------------------------------------------------
  // The loop invariant
  // ---------------------------------------------------------------------

  /** Every queued candidate is an edge of the graph, with its weight,
      leaving a visited vertex. */
  ghost predicate Queued(vs: seq<VertexRec>, visited: set<Label>, pq: seq<Candidate>)
  {
    forall k :: 0 <= k < |pq| ==> pq[k].0 in visited && W(vs, pq[k].0, pq[k].1) == Some(pq[k].2)
  }

  /** Every edge from a visited to an unvisited vertex is queued. */
  ghost predicate Frontier(vs: seq<VertexRec>, visited: set<Label>, pq: seq<Candidate>)
  {
    forall p, q :: p in visited && q !in visited && HasEdge(vs, p, q) ==> (p, q, W(vs, p, q).value) in pq
  }

  /** The state of primSpanningTree between rounds: the visited set is the
      included set, the queue holds graph edges leaving it and all edges
      crossing out of it, the accepted edges are lightest crossing edges of
      the graph, and the tree is theirs. */
  ghost predicate PrimInv(vs: seq<VertexRec>, origin: Label, visited: set<Label>, pq: seq<Candidate>,
                          steps: seq<Candidate>, tree: State)
  {
    && origin in Labels(vs)
    && (forall x :: x in visited <==> Included(origin, steps, x))
    && Queued(vs, visited, pq) && Frontier(vs, visited, pq)
    && Grows(origin, steps) && OnGraph(vs, steps) && Greedy(vs, origin, steps)
    && TreeOf(origin, steps, tree)
  }

  /** The empty directed, weighted graph is the tree of no steps. */
  lemma EmptyTree(origin: Label)
    ensures TreeOf(origin, [], State(true, true, []))
  {
    forall p, q ensures W([], p, q) == StepWeight([], p, q) {
      assert EdgesOf([], p) == [];
    }
  }

  /** Before the first round the queue holds exactly the origin's edges. */
  lemma StartQueue(vs: seq<VertexRec>, origin: Label, pq: seq<Candidate>)
    requires WellFormed(vs) && pq == [] + Out(origin, EdgesOf(vs, origin))
    ensures Queued(vs, {origin}, pq) && Frontier(vs, {origin}, pq)
  {
    forall k | 0 <= k < |pq| ensures pq[k].0 == origin && W(vs, pq[k].0, pq[k].1) == Some(pq[k].2) {
      OutOf(vs, origin, pq[k]);
    }
    forall p, q | p == origin && q != origin && HasEdge(vs, p, q) ensures (p, q, W(vs, p, q).value) in pq {
      OutOf(vs, origin, (p, q, W(vs, p, q).value));
    }
  }

  /** Before the first round only the origin is visited, and the queue
      holds what it must. */
  lemma Start(vs: seq<VertexRec>, origin: Label, pq: seq<Candidate>)
    requires origin in Labels(vs) && Queued(vs, {origin}, pq) && Frontier(vs, {origin}, pq)
    ensures PrimInv(vs, origin, {origin}, pq, [], State(true, true, [])) == true
  {
    EmptyTree(origin);
  }

  /** A candidate taken off the queue leaves the others on it. */
  lemma Rest(pq: seq<Candidate>, m: nat, k: nat)
    requires m < |pq| && k < |pq| - 1
    ensures (pq[..m] + pq[m + 1..])[k] == if k < m then pq[k] else pq[k + 1]
  {
  }

  /** A round that takes a candidate whose destination is visited only
      shortens the queue. */
  lemma SkipRound(vs: seq<VertexRec>, visited: set<Label>, pq: seq<Candidate>, m: nat)
    requires Queued(vs, visited, pq) && Frontier(vs, visited, pq) && m < |pq| && pq[m].1 in visited
    ensures Queued(vs, visited, pq[..m] + pq[m + 1..]) && Frontier(vs, visited, pq[..m] + pq[m + 1..])
  {
    var rest := pq[..m] + pq[m + 1..];
    forall k | 0 <= k < |rest| ensures rest[k] in pq {
      Rest(pq, m, k);
    }
    forall p, q | p in visited && q !in visited && HasEdge(vs, p, q) ensures (p, q, W(vs, p, q).value) in rest {
      Search.InRest(pq, m, (p, q, W(vs, p, q).value));
    }
  }

  /** The queue after an accepting round still holds only graph edges
      leaving visited vertices, and every edge leaving the visited set. */
  lemma QueueStep(vs: seq<VertexRec>, visited: set<Label>, pq: seq<Candidate>, m: nat)
    requires WellFormed(vs) && m < |pq| && pq[m].1 !in visited
    requires Queued(vs, visited, pq) && Frontier(vs, visited, pq)
    ensures var pq' := pq[..m] + pq[m + 1..] + Out(pq[m].1, EdgesOf(vs, pq[m].1));
      Queued(vs, visited + {pq[m].1}, pq') && Frontier(vs, visited + {pq[m].1}, pq')
  {
    var c := pq[m];
    var rest := pq[..m] + pq[m + 1..];
    var out := Out(c.1, EdgesOf(vs, c.1));
    var pq' := rest + out;
    forall k | 0 <= k < |pq'| ensures pq'[k].0 in visited + {c.1} && W(vs, pq'[k].0, pq'[k].1) == Some(pq'[k].2) {
      if k < |rest| {
        Rest(pq, m, k);
      } else {
        assert pq'[k] in out;
        OutOf(vs, c.1, pq'[k]);
      }
    }
    forall p, q | p in visited + {c.1} && q !in visited + {c.1} && HasEdge(vs, p, q)
      ensures (p, q, W(vs, p, q).value) in pq'
    {
      var e := (p, q, W(vs, p, q).value);
      if p == c.1 {
        OutOf(vs, c.1, e);
      } else {
        Search.InRest(pq, m, e);
      }
    }
  }

  /** The prefixes of the steps with one more step. */
  lemma SnocPrefixes(steps: seq<Candidate>, c: Candidate, k: nat)
    requires k <= |steps|
    ensures (steps + [c])[..k] == steps[..k]
  {
  }

  /** The steps with one more crossing edge still grow. */
  lemma GrowsSnoc(origin: Label, steps: seq<Candidate>, c: Candidate)
    requires Grows(origin, steps) && Crosses(origin, steps, c)
    ensures Grows(origin, steps + [c])
  {
    forall k | 0 <= k < |steps| + 1 ensures Crosses(origin, (steps + [c])[..k], (steps + [c])[k]) {
      SnocPrefixes(steps, c, k);
    }
  }

  /** The steps with one more edge of the graph are still on the graph. */
  lemma OnGraphSnoc(vs: seq<VertexRec>, steps: seq<Candidate>, c: Candidate)
    requires OnGraph(vs, steps) && W(vs, c.0, c.1) == Some(c.2)
    ensures OnGraph(vs, steps + [c])
  {
    forall k | 0 <= k < |steps| + 1 ensures (steps + [c])[k] == if k < |steps| then steps[k] else c {
    }
  }

  /** The steps with one more lightest crossing edge are still greedy. */
  lemma GreedySnoc(vs: seq<VertexRec>, origin: Label, steps: seq<Candidate>, c: Candidate)
    requires Greedy(vs, origin, steps) && Lightest(vs, origin, steps, c.2)
    ensures Greedy(vs, origin, steps + [c])
  {
    forall k | 0 <= k < |steps| + 1 ensures Lightest(vs, origin, (steps + [c])[..k], (steps + [c])[k].2) {
      SnocPrefixes(steps, c, k);
    }
  }

  /** The candidate accepted in a round is a lightest crossing edge. */
  lemma AcceptLightest(vs: seq<VertexRec>, origin: Label, visited: set<Label>, pq: seq<Candidate>,
                       steps: seq<Candidate>, m: nat)
    requires IsMin(pq, m) && Frontier(vs, visited, pq)
    requires forall x :: x in visited <==> Included(origin, steps, x)
    ensures Lightest(vs, origin, steps, pq[m].2)
  {
    forall p, q | Included(origin, steps, p) && !Included(origin, steps, q) && HasEdge(vs, p, q)
      ensures pq[m].2 <= W(vs, p, q).value
    {
      var k :| 0 <= k < |pq| && pq[k] == (p, q, W(vs, p, q).value);
    }
  }

  /** A round that accepts a candidate keeps the invariant. */
  lemma TakeRound(vs: seq<VertexRec>, origin: Label, visited: set<Label>, pq: seq<Candidate>,
                  steps: seq<Candidate>, tree: State, m: nat)
    requires WellFormed(vs) && PrimInv(vs, origin, visited, pq, steps, tree) == true && IsMin(pq, m)
    requires pq[m].1 !in visited
    ensures pq[m].1 in Labels(vs)
    ensures PrimInv(vs, origin, visited + {pq[m].1}, pq[..m] + pq[m + 1..] + Out(pq[m].1, EdgesOf(vs, pq[m].1)),
                    steps + [pq[m]], Attach(tree, pq[m])) == true
  {
    var c := pq[m];
    assert Queued(vs, visited, pq) && Crosses(origin, steps, c);
    EdgeTargetsExist(vs, c.0, c.1);
    TargetsSnoc(steps, c);
    QueueStep(vs, visited, pq, m);
    AcceptLightest(vs, origin, visited, pq, steps, m);
    GrowsSnoc(origin, steps, c);
    OnGraphSnoc(vs, steps, c);
    GreedySnoc(vs, origin, steps, c);
    TreeStep(origin, steps, tree, c);
  }

  /** One round of the main loop. */
  lemma Round(vs: seq<VertexRec>, origin: Label, visited: set<Label>, pq: seq<Candidate>,
              steps: seq<Candidate>, tree: State, m: nat)
    requires WellFormed(vs) && PrimInv(vs, origin, visited, pq, steps, tree) == true && IsMin(pq, m)
    ensures Valid(tree)
    ensures pq[m].1 in visited ==> PrimInv(vs, origin, visited, pq[..m] + pq[m + 1..], steps, tree) == true
    ensures pq[m].1 !in visited ==>
      && pq[m].1 in Labels(vs)
      && PrimInv(vs, origin, visited + {pq[m].1}, pq[..m] + pq[m + 1..] + Out(pq[m].1, EdgesOf(vs, pq[m].1)),
                 steps + [pq[m]], Attach(tree, pq[m])) == true
  {
    if pq[m].1 in visited {
      SkipRound(vs, visited, pq, m);
    } else {
      TakeRound(vs, origin, visited, pq, steps, tree, m);
    }
  }

  /** The tree is empty exactly when the origin has no edge to another
      vertex. */
  lemma FirstStep(vs: seq<VertexRec>, origin: Label, visited: set<Label>, steps: seq<Candidate>)
    requires Grows(origin, steps) && OnGraph(vs, steps) && Closed(vs, visited)
    requires forall x :: x in visited <==> Included(origin, steps, x)
    ensures steps == [] <==> forall q :: HasEdge(vs, origin, q) ==> q == origin
  {
    if steps != [] {
      assert Crosses(origin, steps[..0], steps[0]);
      assert Targets(steps[..0]) == [];
      assert HasEdge(vs, origin, steps[0].1);
    }
  }

  /** A queue that ran empty leaves the visited set closed under edges: the
      tree spans what the origin reaches. */
  lemma Done(vs: seq<VertexRec>, origin: Label, visited: set<Label>, steps: seq<Candidate>, tree: State)
    requires WellFormed(vs) && PrimInv(vs, origin, visited, [], steps, tree) == true
    ensures Spans(vs, origin, steps, tree)
  {
    assert Frontier(vs, visited, []);
    assert Closed(vs, visited);
    forall x ensures x in Labels(tree.verts) <==> steps != [] && Reachable(vs, origin, x) {
      if x in Labels(tree.verts) {
        StepsReachable(vs, origin, steps, x);
      }
      if steps != [] && Reachable(vs, origin, x) {
        ClosedReachable(vs, visited, origin, x);
      }
    }
    FirstStep(vs, origin, visited, steps);
  }

  /** Some index holds a lightest candidate of a non-empty queue. */
  lemma {:induction false} MinExists(pq: seq<Candidate>)
    requires pq != []
    ensures exists m :: IsMin(pq, m)
  {
    if |pq| > 1 {
      var init := pq[..|pq| - 1];
      MinExists(init);
      var m: nat :| IsMin(init, m);
      if pq[m].2 <= pq[|pq| - 1].2 {
        assert IsMin(pq, m);
      } else {
        assert IsMin(pq, |pq| - 1);
      }
    } else {
      assert IsMin(pq, 0);
    }
  }

  // ---------------------------------------------------------------------
  // The algorithm
  // ---------------------------------------------------------------------

  /** Queue every edge of u, in list order. */
  method PushEdges(vs: seq<VertexRec>, u: Label, pq: seq<Candidate>) returns (pq': seq<Candidate>)
    ensures pq' == pq + Out(u, EdgesOf(vs, u))
  {
    var es := EdgesOf(vs, u);
    pq' := pq;
    var k := 0;
    while k < |es|
      invariant k <= |es| && pq' == pq + Out(u, es[..k])
    {
      OutStep(u, es, k);
      pq' := pq' + [(u, es[k].dest, es[k].weight)];
      k := k + 1;
    }
    assert es[..k] == es;
  }

  /** primSpanningTree.  `steps` lists the accepted candidates in order. */
  method Prim(s: State, origin: Label) returns (r: Result<State>, ghost steps: seq<Candidate>)
    requires Valid(s)
    ensures r.Err? <==> origin !in Labels(s.verts)
    ensures r.Err? ==> r.error == VertexNotFound
    ensures r.Ok? ==> Spans(s.verts, origin, steps, r.value)
  {
    steps := [];
    if origin !in Labels(s.verts) {
      return Err(VertexNotFound), steps;
    }
    var vs := s.verts;
    var tree := State(true, true, []);
    var visited := {origin};
    var pq := PushEdges(vs, origin, []);
    StartQueue(vs, origin, pq);
    Start(vs, origin, pq);
    ghost var labels := set x | x in Labels(vs);
    while pq != []
      invariant visited <= labels
      invariant PrimInv(vs, origin, visited, pq, steps, tree) == true
      decreases |labels - visited|, |pq|
    {
      MinExists(pq);
      // a lightest candidate; the queue orders equal weights arbitrarily
      var m :| 0 <= m < |pq| && IsMin(pq, m);
      var c := pq[m];
      ghost var before := pq;
      pq := pq[..m] + pq[m + 1..];
      Round(vs, origin, visited, before, steps, tree, m);
      if c.1 !in visited {
        Search.Fewer(labels, visited, c.1);
        visited := visited + {c.1};
        pq := PushEdges(vs, c.1, pq);
        tree := Attach(tree, c);
        steps := steps + [c];
      }
    }
    Done(vs, origin, visited, steps, tree);
    return Ok(tree), steps;
  }

  // ---------------------------------------------------------------------
  // What the tree is
  // ---------------------------------------------------------------------

  /** Every edge of the tree is an edge of the graph with the same weight. */
  lemma TreeEdgesFromGraph(vs: seq<VertexRec>, origin: Label, steps: seq<Candidate>, tree: State, p: Label, q: Label)
    requires Shaped(origin, steps, tree.verts) && OnGraph(vs, steps) && HasEdge(tree.verts, p, q)
    ensures W(tree.verts, p, q) == W(vs, p, q)
  {
    var w := StepWeight(steps, p, q).value;
    StepWeightAt(steps, p, q, w);
  }

  /** No accepted edge enters the origin. */
  lemma NoEntry(origin: Label, steps: seq<Candidate>, p: Label)
    requires Grows(origin, steps)
    ensures StepWeight(steps, p, origin) == None
  {
    if StepWeight(steps, p, origin).Some? {
      var w := StepWeight(steps, p, origin).value;
      StepWeightAt(steps, p, origin, w);
    }
  }

  /** A later step does not enter a vertex an earlier step entered. */
  lemma LaterTarget(origin: Label, steps: seq<Candidate>, i: nat, j: nat)
    requires Grows(origin, steps) && i < j < |steps|
    ensures steps[i].1 != steps[j].1
  {
    assert Crosses(origin, steps[..j], steps[j]);
    TargetsAt(steps[..j], i);
  }

  /** Two accepted edges never share a destination. */
  lemma OneEntry(origin: Label, steps: seq<Candidate>, p: Label, p': Label, v: Label)
    requires Grows(origin, steps)
    requires StepWeight(steps, p, v).Some? && StepWeight(steps, p', v).Some?
    ensures p == p'
  {
    var w, w' := StepWeight(steps, p, v).value, StepWeight(steps, p', v).value;
    StepWeightAt(steps, p, v, w);
    StepWeightAt(steps, p', v, w');
    var i :| 0 <= i < |steps| && steps[i] == (p, v, w);
    var j :| 0 <= j < |steps| && steps[j] == (p', v, w');
    if i < j {
      LaterTarget(origin, steps, i, j);
    } else if j < i {
      LaterTarget(origin, steps, j, i);
    }
  }

  /** In the tree the origin has no incoming edge and every other vertex
      exactly one: the accepted edge that brought it in. */
  lemma TreeParents(origin: Label, steps: seq<Candidate>, tree: State, v: Label)
    requires Shaped(origin, steps, tree.verts) && Grows(origin, steps)
    ensures forall p :: !HasEdge(tree.verts, p, origin)
    ensures v in Labels(tree.verts) && v != origin ==> exists p :: HasEdge(tree.verts, p, v)
    ensures forall p, p' :: HasEdge(tree.verts, p, v) && HasEdge(tree.verts, p', v) ==> p == p'
  {
    forall p ensures !HasEdge(tree.verts, p, origin) {
      NoEntry(origin, steps, p);
    }
    if v in Labels(tree.verts) && v != origin {
      assert v in Targets(steps);
      TargetEntered(steps, v);
      var p :| StepWeight(steps, p, v).Some?;
      assert HasEdge(tree.verts, p, v);
    }
    forall p, p' | HasEdge(tree.verts, p, v) && HasEdge(tree.verts, p', v) ensures p == p' {
      OneEntry(origin, steps, p, p', v);
    }
  }
}
