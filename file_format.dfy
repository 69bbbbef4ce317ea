/**
 * The file format of graph.cpp (saveToFile / getFromFile) and the replay of a
 * graph's contents through insertVertex and insertEdge, which getFromFile and
 * copyGraph both perform.
 *
 * A saved file is a sequence of newline-terminated lines:
 *   the two flags as `d|w` with 0 or 1 each;
 *   the number of vertices;
 *   one line per label, in vertex-list order;
 *   then for every vertex, in list order, its number of edges followed by one
 *   line `origin|destination|weight` per edge, in edge-list order.
 */
module FileFormat {
  import opened Wrappers
  import opened GraphState
  import opened Decimal
  import opened Text

  datatype EdgeLine = EdgeLine(origin: Label, dest: Label, weight: int)

  /** What a file carries: the flags, the labels, and per vertex its edges. */
  datatype Content = Content(directed: bool, weighted: bool, labels: seq<Label>, blocks: seq<seq<EdgeLine>>)

  function EdgeLinesOf(u: Label, es: seq<EdgeRec>): (r: seq<EdgeLine>)
    ensures |r| == |es|
    ensures forall k :: 0 <= k < |es| ==> r[k] == EdgeLine(u, es[k].dest, es[k].weight)
  {
    seq(|es|, k requires 0 <= k < |es| => EdgeLine(u, es[k].dest, es[k].weight))
  }

  /** The contents of a graph in the order saveToFile and copyGraph visit
      them. */
  function ContentOf(s: State): (c: Content)
    ensures c.directed == s.directed && c.weighted == s.weighted
    ensures c.labels == Labels(s.verts) && |c.blocks| == |s.verts|
    ensures forall i :: 0 <= i < |s.verts| ==> c.blocks[i] == EdgeLinesOf(s.verts[i].name, s.verts[i].edges)
  {
    Content(s.directed, s.weighted, Labels(s.verts),
            seq(|s.verts|, i requires 0 <= i < |s.verts| => EdgeLinesOf(s.verts[i].name, s.verts[i].edges)))
  }

  // ---------------------------------------------------------------------
  // Writing
  // ---------------------------------------------------------------------

  /** `stream << bool` without boolalpha. */
  function BoolText(b: bool): string
  {
    if b then "1" else "0"
  }

  function HeaderLine(directed: bool, weighted: bool): string
  {
    BoolText(directed) + "|" + BoolText(weighted)
  }

  function EdgeText(e: EdgeLine): string
  {
    e.origin + "|" + e.dest + "|" + IntToString(e.weight)
  }

  function EdgeTexts(es: seq<EdgeLine>): (r: seq<string>)
    ensures |r| == |es|
    ensures forall k :: 0 <= k < |es| ==> r[k] == EdgeText(es[k])
  {
    seq(|es|, k requires 0 <= k < |es| => EdgeText(es[k]))
  }

  /** One block: the edge count, then the edge lines. */
  function BlockText(es: seq<EdgeLine>): seq<string>
  {
    [NatToString(|es|)] + EdgeTexts(es)
  }

  function BlocksText(bs: seq<seq<EdgeLine>>): seq<string>
  {
    if bs == [] then [] else BlocksText(bs[..|bs| - 1]) + BlockText(bs[|bs| - 1])
  }

  function ContentText(c: Content): seq<string>
  {
    [HeaderLine(c.directed, c.weighted), NatToString(|c.labels|)] + c.labels + BlocksText(c.blocks)
  }

  /** The file saveToFile writes: every line followed by a newline. */
  function SaveText(s: State): (r: string)
    ensures HeaderLine(s.directed, s.weighted) + "\n" <= r && r[|r| - 1] == '\n'
  {
    var ls := ContentText(ContentOf(s));
    SuffixedEnds(ls, "\n");
    Suffixed(ls, "\n")
  }

  // ---------------------------------------------------------------------
  // Reading
  // ---------------------------------------------------------------------

  /** `stream >> bool` without boolalpha reads 0 or 1. */
  function ParseBool(t: string): Option<bool>
  {
    var v := ParseInt(t);
    if v == Some(0) then Some(false) else if v == Some(1) then Some(true) else None
  }

  function ParseHeader(line: string): (r: Option<(bool, bool)>)
    ensures r.Some? ==>
      && '|' in line
      && ParseInt(SplitAt(line, '|').0) == Some(if r.value.0 then 1 else 0)
      && ParseInt(SplitAt(line, '|').1) == Some(if r.value.1 then 1 else 0)
  {
    if '|' !in line then None
    else
      var p := SplitAt(line, '|');
      match (ParseBool(p.0), ParseBool(p.1))
      case (Some(d), Some(w)) => Some((d, w))
      case _ => None
  }

  /** Two `getline(.., '|')` calls and a `>> weight`. */
  function ParseEdge(line: string): (r: Option<EdgeLine>)
    ensures r.Some? ==>
      && '|' !in r.value.origin && '|' !in r.value.dest
      && r.value.origin + "|" + r.value.dest + "|" <= line
  {
    if '|' !in line then None
    else
      var p := SplitAt(line, '|');
      if '|' !in p.1 then None
      else
        var q := SplitAt(p.1, '|');
        SplitAtParts(line, '|');
        SplitAtParts(p.1, '|');
        assert p.0 + "|" + q.0 + "|" + q.1 == line;
        match ParseInt(q.1)
        case None => None
        case Some(w) => Some(EdgeLine(p.0, q.0, w))
  }

  /** How many times `for (int i(0); i < n; i++)` runs. */
  function Count(n: int): nat
  {
    if n < 0 then 0 else n
  }

  function ParseEdges(ls: seq<string>): Option<seq<EdgeLine>>
    decreases |ls|
  {
    if ls == [] then Some([])
    else
      var e, es := ParseEdge(ls[0]), ParseEdges(ls[1..]);
      if e.Some? && es.Some? then Some([e.value] + es.value) else None
  }

  /** k blocks, each an edge count followed by that many edge lines. */
  function ParseBlocks(ls: seq<string>, k: nat): (r: Option<seq<seq<EdgeLine>>>)
    ensures r.Some? ==> |r.value| == k
    decreases k
  {
    if k == 0 then Some([])
    else if ls == [] then None
    else
      match ParseInt(ls[0])
      case None => None
      case Some(c) =>
        var n := Count(c);
        if |ls| < 1 + n then None
        else
          var es, bs := ParseEdges(ls[1..1 + n]), ParseBlocks(ls[1 + n..], k - 1);
          if es.Some? && bs.Some? then Some([es.value] + bs.value) else None
  }

  /** The lines of a file in the layout above; whatever follows the last
      block is not read. */
  function Decode(ls: seq<string>): (r: Option<Content>)
    ensures r.Some? ==>
      && |r.value.blocks| == |r.value.labels| && 2 + |r.value.labels| <= |ls|
      && r.value.labels == ls[2..2 + |r.value.labels|]
  {
    if |ls| < 2 then None
    else
      match (ParseHeader(ls[0]), ParseInt(ls[1]))
      case (Some(h), Some(c)) =>
        var n := Count(c);
        if |ls| < 2 + n then None
        else
          (match ParseBlocks(ls[2 + n..], n)
           case Some(bs) => Some(Content(h.0, h.1, ls[2..2 + n], bs))
           case None => None)
      case _ => None
  }

  // ---------------------------------------------------------------------
  // Reading back what was written
  // ---------------------------------------------------------------------

  /** A label that fits on one line and in one field of an edge line. */
  predicate Plain(l: Label)
  {
    '|' !in l && '\n' !in l
  }

  predicate PlainEdges(es: seq<EdgeLine>)
  {
    forall k :: 0 <= k < |es| ==> Plain(es[k].origin) && Plain(es[k].dest)
  }

  predicate PlainBlocks(bs: seq<seq<EdgeLine>>)
  {
    forall i :: 0 <= i < |bs| ==> PlainEdges(bs[i])
  }

  predicate PlainContent(c: Content)
  {
    && (forall k :: 0 <= k < |c.labels| ==> Plain(c.labels[k]))
    && PlainBlocks(c.blocks)
  }

  lemma ParseNatText(n: nat)
    ensures ParseInt(NatToString(n)) == Some(n)
  {
    ParseIntToString(n);
  }

  lemma ParseHeaderText(d: bool, w: bool)
    ensures ParseHeader(HeaderLine(d, w)) == Some((d, w))
  {
    SplitAtJoin(BoolText(d), '|', BoolText(w));
    ParseNatText(if d then 1 else 0);
    ParseNatText(if w then 1 else 0);
  }

  lemma ParseEdgeText(e: EdgeLine)
    requires Plain(e.origin) && Plain(e.dest)
    ensures ParseEdge(EdgeText(e)) == Some(e)
  {
    var rest := e.dest + "|" + IntToString(e.weight);
    assert EdgeText(e) == e.origin + ['|'] + rest;
    SplitAtJoin(e.origin, '|', rest);
    SplitAtJoin(e.dest, '|', IntToString(e.weight));
    ParseIntToString(e.weight);
  }

  lemma {:induction false} ParseEdgesText(es: seq<EdgeLine>)
    requires PlainEdges(es)
    ensures ParseEdges(EdgeTexts(es)) == Some(es)
    decreases |es|
  {
    if es != [] {
      ParseEdgeText(es[0]);
      assert EdgeTexts(es)[1..] == EdgeTexts(es[1..]);
      ParseEdgesText(es[1..]);
      assert es == [es[0]] + es[1..];
    }
  }

  /** BlocksText, read from the front. */
  lemma {:induction false} BlocksTextCons(bs: seq<seq<EdgeLine>>)
    requires bs != []
    ensures BlocksText(bs) == BlockText(bs[0]) + BlocksText(bs[1..])
    decreases |bs|
  {
    if |bs| > 1 {
      var init := bs[..|bs| - 1];
      BlocksTextCons(init);
      InitTail(bs);
      assert BlocksText(bs[1..]) == BlocksText(init[1..]) + BlockText(bs[|bs| - 1]);
      Assoc(BlockText(bs[0]), BlocksText(init[1..]), BlockText(bs[|bs| - 1]));
    } else {
      assert bs[..0] == [] && bs[1..] == [];
    }
  }

  /** The pieces of a concatenation of four sequences. */
  lemma Pieces<T>(a: seq<T>, b: seq<T>, c: seq<T>, d: seq<T>)
    ensures var s := a + b + c + d;
      && |s| == |a| + |b| + |c| + |d|
      && s[..|a|] == a && s[|a|..|a| + |b|] == b && s[|a| + |b|..] == c + d
      && (|a| > 0 ==> s[0] == a[0]) && (|a| > 1 ==> s[1] == a[1])
  {
  }

  /** Where the pieces of a list of blocks sit, followed by other lines. */
  lemma BlocksTextParts(bs: seq<seq<EdgeLine>>, rest: seq<string>)
    requires bs != []
    ensures var ls := BlocksText(bs) + rest; var n := |bs[0]|;
      && |ls| >= 1 + n && ls[0] == NatToString(n)
      && ls[1..1 + n] == EdgeTexts(bs[0]) && ls[1 + n..] == BlocksText(bs[1..]) + rest
  {
    BlocksTextCons(bs);
    var a := [NatToString(|bs[0]|)];
    Pieces(a, EdgeTexts(bs[0]), BlocksText(bs[1..]), rest);
  }

  /** ParseBlocks reads one block, then the others. */
  lemma ParseBlocksStep(ls: seq<string>, k: nat, es: seq<EdgeLine>, bs: seq<seq<EdgeLine>>)
    requires k > 0 && |ls| >= 1 + |es|
    requires ParseInt(ls[0]) == Some(|es|)
    requires ParseEdges(ls[1..1 + |es|]) == Some(es)
    requires ParseBlocks(ls[1 + |es|..], k - 1) == Some(bs)
    ensures ParseBlocks(ls, k) == Some([es] + bs)
  {
    assert Count(ParseInt(ls[0]).value) == |es|;
  }

  /** The head, then the tail. */
  lemma ConsTail<T>(xs: seq<T>)
    requires xs != []
    ensures [xs[0]] + xs[1..] == xs
  {
  }

  /** Reading the first block of a written list, given that the rest of
      the list reads back. */
  lemma ParseBlocksHead(bs: seq<seq<EdgeLine>>, rest: seq<string>)
    requires bs != [] && PlainBlocks(bs)
    requires ParseBlocks(BlocksText(bs[1..]) + rest, |bs| - 1) == Some(bs[1..])
    ensures ParseBlocks(BlocksText(bs) + rest, |bs|) == Some(bs)
  {
    BlocksTextParts(bs, rest);
    ParseEdgesText(bs[0]);
    ParseNatText(|bs[0]|);
    ParseBlocksStep(BlocksText(bs) + rest, |bs|, bs[0], bs[1..]);
    ConsTail(bs);
  }

  lemma {:induction false} ParseBlocksText(bs: seq<seq<EdgeLine>>, rest: seq<string>)
    requires PlainBlocks(bs)
    ensures ParseBlocks(BlocksText(bs) + rest, |bs|) == Some(bs)
    decreases |bs|
  {
    if bs != [] {
      ParseBlocksText(bs[1..], rest);
      ParseBlocksHead(bs, rest);
    }
  }

  /** Where the pieces of an encoded content sit, followed by other lines. */
  lemma ContentTextParts(c: Content, rest: seq<string>)
    ensures var ls := ContentText(c) + rest; var n := |c.labels|;
      && |ls| >= 2 + n && ls[0] == HeaderLine(c.directed, c.weighted) && ls[1] == NatToString(n)
      && ls[2..2 + n] == c.labels && ls[2 + n..] == BlocksText(c.blocks) + rest
  {
    var a := [HeaderLine(c.directed, c.weighted), NatToString(|c.labels|)];
    Pieces(a, c.labels, BlocksText(c.blocks), rest);
  }

  /** Decoding the lines of an encoded content gives the content back. */
  lemma DecodeContentText(c: Content, rest: seq<string>)
    requires PlainContent(c) && |c.blocks| == |c.labels|
    ensures Decode(ContentText(c) + rest) == Some(c)
  {
    ContentTextParts(c, rest);
    ParseHeaderText(c.directed, c.weighted);
    ParseNatText(|c.labels|);
    ParseBlocksText(c.blocks, rest);
  }

  lemma {:induction false} BlocksTextNoNewline(bs: seq<seq<EdgeLine>>)
    requires PlainBlocks(bs)
    ensures forall k :: 0 <= k < |BlocksText(bs)| ==> '\n' !in BlocksText(bs)[k]
    decreases |bs|
  {
    if bs != [] {
      var init := bs[..|bs| - 1];
      BlocksTextNoNewline(init);
      var last := bs[|bs| - 1];
      forall k | 0 <= k < |last| ensures '\n' !in EdgeText(last[k]) {
        IntToStringChars(last[k].weight);
      }
    }
  }

  /** The lines of a saved file are the encoded content, then nothing. */
  lemma SaveTextLines(s: State)
    requires PlainContent(ContentOf(s))
    ensures SplitLines(SaveText(s)) == ContentText(ContentOf(s)) + [""]
  {
    var c := ContentOf(s);
    BlocksTextNoNewline(c.blocks);
    SplitLinesOfSuffixed(ContentText(c));
  }

  // ---------------------------------------------------------------------
  // Replaying a content through insertVertex and insertEdge
  // ---------------------------------------------------------------------

  /** The graph reached by a replay, and the error that stopped it, if any
      (a thrown GraphException leaves what was inserted so far in place). */
  datatype Replayed = Replayed(state: State, error: Option<GraphError>)

  /** insertVertex on each label in turn. */
  function InsertVertices(t: State, ls: seq<Label>): (r: Replayed)
    requires Valid(t)
    ensures Valid(r.state) && r.state.directed == t.directed && r.state.weighted == t.weighted
    decreases |ls|
  {
    if ls == [] then Replayed(t, None)
    else
      match InsertVertex(t, ls[0])
      case Err(e) => Replayed(t, Some(e))
      case Ok(t') => InsertVertices(t', ls[1..])
  }

  /** insertEdge on each edge line in turn. */
  function InsertEdgeLines(t: State, es: seq<EdgeLine>): (r: Replayed)
    requires Valid(t)
    ensures Valid(r.state) && r.state.directed == t.directed && r.state.weighted == t.weighted
    decreases |es|
  {
    if es == [] then Replayed(t, None)
    else
      match InsertEdge(t, es[0].origin, es[0].dest, es[0].weight)
      case Err(e) => Replayed(t, Some(e))
      case Ok(t') => InsertEdgeLines(t', es[1..])
  }

  function InsertBlocks(t: State, bs: seq<seq<EdgeLine>>): (r: Replayed)
    requires Valid(t)
    ensures Valid(r.state) && r.state.directed == t.directed && r.state.weighted == t.weighted
    decreases |bs|
  {
    if bs == [] then Replayed(t, None)
    else
      var r := InsertEdgeLines(t, bs[0]);
      if r.error.Some? then r else InsertBlocks(r.state, bs[1..])
  }

  /** An empty graph with the content's flags, then its vertices, then its
      edges: what both getFromFile and copyGraph do. */
  function Load(c: Content): (r: Replayed)
    ensures Valid(r.state) && r.state.directed == c.directed && r.state.weighted == c.weighted
  {
    var empty := State(c.directed, c.weighted, []);
    assert Valid(empty);
    var v := InsertVertices(empty, c.labels);
    if v.error.Some? then v else InsertBlocks(v.state, c.blocks)
  }

  /** copyGraph: the copy is the replay of the original's contents. */
  function Copy(s: State): (r: State)
    ensures Valid(r) && r.directed == s.directed && r.weighted == s.weighted
  {
    Load(ContentOf(s)).state
  }

  /** getFromFile: the graph is emptied first; an absent file leaves it
      empty and gives false, a present one is decoded and replayed. */
  function LoadFile(s: State, file: Option<string>): (r: (Result<bool>, State))
    requires file.Some? ==> Decode(SplitLines(file.value)).Some?
    ensures Valid(r.1)
    ensures file.None? ==> r == (Ok(false), State(s.directed, s.weighted, []))
    ensures r.0 == Ok(false) <==> file.None?
  {
    if file.None? then
      var empty := State(s.directed, s.weighted, []);
      assert Valid(empty);
      (Ok(false), empty)
    else
      var rep := Load(Decode(SplitLines(file.value)).value);
      (if rep.error.None? then Ok(true) else Err(rep.error.value), rep.state)
  }

  // ---------------------------------------------------------------------
  // Replay restores the graph
  // ---------------------------------------------------------------------

  lemma {:induction false} VerticesReplay(t: State, ls: seq<Label>)
    requires Valid(t) && Distinct(ls)
    requires forall k :: 0 <= k < |ls| ==> ls[k] !in Labels(t.verts)
    ensures var r := InsertVertices(t, ls);
      && r.error == None
      && Labels(r.state.verts) == Labels(t.verts) + ls
      && forall u, v :: W(r.state.verts, u, v) == W(t.verts, u, v)
    decreases |ls|
  {
    if ls != [] {
      var t' := InsertVertex(t, ls[0]).value;
      forall k | 0 <= k < |ls| - 1 ensures ls[1..][k] !in Labels(t'.verts) {
        assert ls[k + 1] != ls[0];
      }
      DistinctSuffix(ls, 1);
      VerticesReplay(t', ls[1..]);
      assert Labels(t'.verts) + ls[1..] == Labels(t.verts) + ls;
    }
  }

  /** Edge u -> v has been replayed once the first i vertices and the first
      j edges of vertex i have been. */
  ghost predicate Done(vs: seq<VertexRec>, i: nat, j: nat, p: Label, q: Label)
  {
    && p in Labels(vs)
    && var k := IndexOf(Labels(vs), p);
       k < i || (k == i && j <= |vs[k].edges| && q in Dests(vs[k].edges)[..j])
  }

  /** The state of a replay of s after i vertices and j edges of the next:
      the replayed edges (and, when undirected, their mirrors) are in place
      with their weights, and nothing else is. */
  ghost predicate Partial(s: State, t: State, i: nat, j: nat)
  {
    && Valid(t)
    && t.directed == s.directed && t.weighted == s.weighted
    && Labels(t.verts) == Labels(s.verts)
    && i <= |s.verts| && (i < |s.verts| ==> j <= |s.verts[i].edges|)
    && forall p, q :: W(t.verts, p, q) == Expected(s, i, j, p, q)
  }

  /** The weight of p -> q once i vertices and j edges of the next have been
      replayed. */
  ghost function Expected(s: State, i: nat, j: nat, p: Label, q: Label): Option<int>
  {
    if Done(s.verts, i, j, p, q) || (!s.directed && Done(s.verts, i, j, q, p)) then W(s.verts, p, q) else None
  }

  /** The (j+1)-th edge of vertex i is the one replayed after the first j. */
  lemma DoneStep(vs: seq<VertexRec>, i: nat, j: nat)
    requires WellFormed(vs) && i < |vs| && j < |vs[i].edges|
    ensures !Done(vs, i, j, vs[i].name, vs[i].edges[j].dest)
    ensures forall p, q :: (Done(vs, i, j + 1, p, q) <==>
                             Done(vs, i, j, p, q) || (p == vs[i].name && q == vs[i].edges[j].dest))
  {
    var es := vs[i].edges;
    var d := es[j].dest;
    assert EdgesOk(vs, es);
    IndexOfDistinct(Labels(vs), i);
    assert Dests(es)[..j + 1] == Dests(es)[..j] + [d];
    assert d !in Dests(es)[..j] by {
      forall m | 0 <= m < j ensures Dests(es)[..j][m] != d {
        assert Dests(es)[m] != Dests(es)[j];
      }
    }
  }

  /** The weight of one pair after the next edge is inserted. */
  lemma PartialPoint(s: State, t: State, t': State, i: nat, j: nat, p: Label, q: Label)
    requires WellFormed(s.verts) && i < |s.verts| && j < |s.verts[i].edges|
    requires var o, e := s.verts[i].name, s.verts[i].edges[j];
      && W(s.verts, o, e.dest) == Some(e.weight)
      && (!s.directed ==> W(s.verts, e.dest, o) == Some(e.weight))
      && W(t.verts, p, q) == Expected(s, i, j, p, q)
      && W(t.verts, o, e.dest) == Expected(s, i, j, o, e.dest)
      && W(t'.verts, p, q) ==
           if !HasEdge(t.verts, o, e.dest) && ((p, q) == (o, e.dest) || (!s.directed && (p, q) == (e.dest, o)))
           then Some(e.weight) else W(t.verts, p, q)
    ensures W(t'.verts, p, q) == Expected(s, i, j + 1, p, q)
  {
    DoneStep(s.verts, i, j);
  }

  /** Inserting the next edge keeps the replay invariant. */
  lemma PartialInsert(s: State, t: State, i: nat, j: nat, t': State)
    requires Valid(s) && Partial(s, t, i, j) && i < |s.verts| && j < |s.verts[i].edges|
    requires InsertEdge(t, s.verts[i].name, s.verts[i].edges[j].dest, s.verts[i].edges[j].weight) == Ok(t')
    requires W(s.verts, s.verts[i].name, s.verts[i].edges[j].dest) == Some(s.verts[i].edges[j].weight)
    ensures Partial(s, t', i, j + 1)
  {
    var o, e := s.verts[i].name, s.verts[i].edges[j];
    assert W(t.verts, o, e.dest) == Expected(s, i, j, o, e.dest);
    assert !s.directed ==> W(s.verts, e.dest, o) == Some(e.weight);
    forall p, q ensures W(t'.verts, p, q) == Expected(s, i, j + 1, p, q) {
      PartialPoint(s, t, t', i, j, p, q);
    }
  }

  lemma EdgeStep(s: State, t: State, i: nat, j: nat)
    requires Valid(s) && Partial(s, t, i, j) && i < |s.verts| && j < |s.verts[i].edges|
    ensures var e := s.verts[i].edges[j];
      var r := InsertEdge(t, s.verts[i].name, e.dest, e.weight);
      r.Ok? && Partial(s, r.value, i, j + 1)
  {
    var vs := s.verts;
    var es := vs[i].edges;
    assert EdgesOk(vs, es);
    EdgesOfAt(vs, i);
    WeightInAt(es, j);
    var r := InsertEdge(t, vs[i].name, es[j].dest, es[j].weight);
    PartialInsert(s, t, i, j, r.value);
  }

  /** After vertex i, a pair is done when it was done after the last edge
      of vertex i, or when it starts at vertex i with no edge. */
  lemma DoneLast(vs: seq<VertexRec>, i: nat, p: Label, q: Label)
    requires Distinct(Labels(vs)) && i < |vs|
    ensures Done(vs, i + 1, 0, p, q) <==>
      Done(vs, i, |vs[i].edges|, p, q) || (p == vs[i].name && q !in Dests(vs[i].edges))
  {
    IndexOfDistinct(Labels(vs), i);
    assert Dests(vs[i].edges)[..|vs[i].edges|] == Dests(vs[i].edges);
  }

  /** The weight of one pair once every edge of vertex i has been replayed. */
  lemma EdgesDonePoint(s: State, t: State, i: nat, p: Label, q: Label)
    requires Valid(s) && i < |s.verts|
    requires W(t.verts, p, q) == Expected(s, i, |s.verts[i].edges|, p, q)
    ensures W(t.verts, p, q) == Expected(s, i + 1, 0, p, q)
  {
    var vs := s.verts;
    DoneLast(vs, i, p, q);
    DoneLast(vs, i, q, p);
    EdgesOfAt(vs, i);
    if p == vs[i].name && q !in Dests(vs[i].edges) {
      assert W(vs, p, q) == None;
    }
    if !s.directed && q == vs[i].name && p !in Dests(vs[i].edges) {
      assert W(vs, q, p) == None;
    }
  }

  /** Once every edge of vertex i has been replayed, vertex i is done. */
  lemma EdgesDone(s: State, t: State, i: nat)
    requires Valid(s) && i < |s.verts| && Partial(s, t, i, |s.verts[i].edges|)
    ensures Partial(s, t, i + 1, 0)
  {
    forall p, q ensures W(t.verts, p, q) == Expected(s, i + 1, 0, p, q) {
      EdgesDonePoint(s, t, i, p, q);
    }
  }

  /** The first element after a drop, and what follows it. */
  lemma DropCons<T>(xs: seq<T>, j: nat)
    requires j < |xs|
    ensures xs[j..][0] == xs[j] && xs[j..][1..] == xs[j + 1..]
  {
  }

  lemma {:induction false} EdgesReplay(s: State, t: State, i: nat, j: nat)
    requires Valid(s) && Partial(s, t, i, j) && i < |s.verts|
    ensures var r := InsertEdgeLines(t, EdgeLinesOf(s.verts[i].name, s.verts[i].edges)[j..]);
      r.error == None && Partial(s, r.state, i + 1, 0)
    decreases |s.verts[i].edges| - j
  {
    var o := s.verts[i].name;
    var es := s.verts[i].edges;
    var ls := EdgeLinesOf(o, es);
    if j == |es| {
      assert ls[j..] == [];
      EdgesDone(s, t, i);
    } else {
      EdgeStep(s, t, i, j);
      var t' := InsertEdge(t, o, es[j].dest, es[j].weight).value;
      DropCons(ls, j);
      EdgesReplay(s, t', i, j + 1);
    }
  }

  lemma {:induction false} BlocksReplay(s: State, t: State, i: nat)
    requires Valid(s) && Partial(s, t, i, 0)
    ensures var r := InsertBlocks(t, ContentOf(s).blocks[i..]);
      r.error == None && Partial(s, r.state, |s.verts|, 0)
    decreases |s.verts| - i
  {
    var bs := ContentOf(s).blocks;
    if i < |s.verts| {
      assert EdgeLinesOf(s.verts[i].name, s.verts[i].edges)[0..] == bs[i..][0];
      EdgesReplay(s, t, i, 0);
      var r := InsertEdgeLines(t, bs[i]);
      assert bs[i..][1..] == bs[i + 1..];
      BlocksReplay(s, r.state, i + 1);
    } else {
      assert bs[i..] == [];
    }
  }

  /** After the vertex phase no edge has been replayed. */
  lemma PartialStart(s: State)
    requires Valid(s)
    ensures var r := InsertVertices(State(s.directed, s.weighted, []), Labels(s.verts));
      r.error == None && Partial(s, r.state, 0, 0)
  {
    var empty := State(s.directed, s.weighted, []);
    assert Valid(empty);
    VerticesReplay(empty, Labels(s.verts));
    var t := InsertVertices(empty, Labels(s.verts)).state;
    forall p, q ensures W(t.verts, p, q) == Expected(s, 0, 0, p, q) {
      assert W(empty.verts, p, q) == None;
    }
  }

  /** Once every vertex has been replayed, every weight is the original. */
  lemma PartialEnd(s: State, t: State)
    requires Valid(s) && Partial(s, t, |s.verts|, 0)
    ensures forall p, q :: W(t.verts, p, q) == W(s.verts, p, q)
  {
    forall p, q ensures W(t.verts, p, q) == W(s.verts, p, q) {
      assert W(t.verts, p, q) == Expected(s, |s.verts|, 0, p, q);
      if p !in Labels(s.verts) {
        assert EdgesOf(s.verts, p) == [];
      }
    }
  }

  /** Replaying the contents of a graph rebuilds its flags, its labels in
      order and every edge with its weight (in an undirected graph the
      mirrors are appended as they come, so a list may be ordered
      differently). */
  lemma ReplayRestores(s: State)
    requires Valid(s)
    ensures var r := Load(ContentOf(s));
      && r.error == None
      && r.state.directed == s.directed && r.state.weighted == s.weighted
      && Labels(r.state.verts) == Labels(s.verts)
      && forall p, q :: W(r.state.verts, p, q) == W(s.verts, p, q)
  {
    var c := ContentOf(s);
    PartialStart(s);
    var t := InsertVertices(State(s.directed, s.weighted, []), c.labels).state;
    assert c.blocks[0..] == c.blocks;
    BlocksReplay(s, t, 0);
    PartialEnd(s, InsertBlocks(t, c.blocks).state);
  }

  /** The copy made by copyGraph has the original's flags, labels and
      weighted edges. */
  lemma CopyRestores(s: State)
    requires Valid(s)
    ensures Copy(s).directed == s.directed && Copy(s).weighted == s.weighted
    ensures Labels(Copy(s).verts) == Labels(s.verts)
    ensures forall p, q :: W(Copy(s).verts, p, q) == W(s.verts, p, q)
  {
    ReplayRestores(s);
  }

  /** Loading what saveToFile wrote restores the graph, whatever the graph
      loaded into held before, as long as no label holds '|' or a newline. */
  lemma LoadSaved(s: State, s0: State)
    requires Valid(s)
    requires forall k :: 0 <= k < |s.verts| ==> Plain(s.verts[k].name)
    ensures Decode(SplitLines(SaveText(s))) == Some(ContentOf(s))
    ensures var r := LoadFile(s0, Some(SaveText(s)));
      && r.0 == Ok(true)
      && r.1.directed == s.directed && r.1.weighted == s.weighted
      && Labels(r.1.verts) == Labels(s.verts)
      && forall p, q :: W(r.1.verts, p, q) == W(s.verts, p, q)
  {
    var c := ContentOf(s);
    forall i, k | 0 <= i < |c.blocks| && 0 <= k < |c.blocks[i]|
      ensures Plain(c.blocks[i][k].origin) && Plain(c.blocks[i][k].dest)
    {
      assert EdgesOk(s.verts, s.verts[i].edges);
      var l := s.verts[i].edges[k].dest;
      var m :| 0 <= m < |s.verts| && Labels(s.verts)[m] == l;
    }
    assert PlainContent(c);
    SaveTextLines(s);
    DecodeContentText(c, [""]);
    ReplayRestores(s);
  }
}
