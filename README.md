# dinamic_graph in Dafny

A model of the `Graph` class of dinamic_graph and of its two node classes,
`Vertex` and `Edge`. The C++ graph is an adjacency list:
- a singly linked chain of vertices, each holding a string label;
- for each vertex, a singly linked chain of outgoing edges, each holding an
  integer weight and a pointer to its destination vertex.

The graph has two flags, *directed* and *weighted*. It offers:
- vertex and edge insertion, deletion and editing, all reporting failures
  by throwing `GraphException`;
- switching from directed to undirected, which mirrors every edge;
- a text rendering, and saving to and loading from a line-oriented file;
- breadth-first and depth-first traversal and route finding;
- Prim's spanning tree grown from an origin vertex.

The model keeps this structure as values:
- the vertex chain is a sequence of `VertexRec(name, edges)`, in list order;
- each edge chain is a sequence of `EdgeRec(dest, weight)`, in list order;
- a destination is named by its label.

Two views of a vertex list are used by every contract:
- `Labels(vs)`, the labels in list order;
- `W(vs, u, v)`, the weight of the edge u -> v, or `None` when there is
  no such edge.

`GraphState.Valid` is the class invariant of the model:
- labels are distinct;
- every destination is a vertex;
- no vertex list names a destination twice;
- an undirected graph has `W(u, v) == W(v, u)`.

A thrown `GraphException` becomes an `Err` of a `Result` (or an
`Option<GraphError>` returned by a method). In every mutation the throw
happens before the first change, so the graph is then left as it was.
`getFromFile` is the exception: it empties the graph first, and an
insertion that throws during the replay leaves the vertices and edges
inserted so far (`FileFormat.LoadFile` returns that partial state with the
error).

Some definitions are plain views or rebuilt lists and carry no row of
their own below; their meaning is stated by the lemmas about them:
- `GraphState.Labels`, the labels in list order;
- `GraphState.Detach(vs, x)`, every list with its edge to x removed
  (`DetachEffect`, `DetachLists`);
- `GraphState.Renamed(vs, a, b)`, the lists with label a swapped for b
  (`RenamedLabels`, `RenamedEdgesOf`, `RenamedEffect`);
- `FileFormat.ContentOf` and `FileFormat.EdgeLinesOf`, the content
  `saveToFile` writes: flags, labels and one block of edge lines per
  vertex (`ReplayRestores`, `LoadSaved`).

Modules, one per concern of graph.cpp:

| module | file | what |
|---|---|---|
| `Wrappers` | wrappers.dfy | `Option` |
| `Decimal` | decimal.dfy | `to_string` of an int and reading an int back (`stream >> int`) |
| `Text` | text.dfy | strings built by `+= x + sep`, `substr(0, len - 3)`, splitting into lines |
| `GraphState` | graph_state.dfy | the state, its invariant, and every mutation as a function of the state |
| `Symmetry` | symmetry.dfy | the edge-mirroring walk of `setIsDirected(false)` |
| `Paths` | paths.dfy | paths and reachability |
| `Search` | search.dfy | the queue/stack exploration shared by the four traversal and route functions, and `getRoute` |
| `FileFormat` | file_format.dfy | the file `saveToFile` writes, `getFromFile`'s reading and replay, `copyGraph` |
| `Spanning` | prim.dfy | `primSpanningTree` |
| `Nodes` | nodes.dfy | the `Vertex` and `Edge` node classes |
| `GraphEngine` | graph.dfy | the `Graph` class: fields `isDirected`, `isWeighted`, `verts` |

Each method of the `Graph` class states its new state as a function of
the old one, `Model() == F(old(Model()), ...)`. The lemmas and `ensures`
clauses of `F` in `GraphState`, `Symmetry`, `FileFormat` and `Spanning`
state what the operation means.

## Model

| member | source | states |
|---|---|---|
| Decimal.Digit | graph.cpp:376 | the character written for a digit value reads back as that digit |
| Decimal.NatToString | graph.cpp:393 | the decimal text of a natural number is a non-empty digit string without a leading zero |
| Decimal.NatToStringValue | graph.cpp:393 | the digits written for n read back as n |
| Decimal.ParseIntToString | graph.cpp:443 | reading an integer back from the text `to_string`/`<<` writes for it gives that integer, negatives included |
| Decimal.IntToStringChars | graph.cpp:406 | the text of an integer holds only digits and a minus sign, so it never contains the separators `\|` or newline |
| Decimal.IntToStringInjective | graph.cpp:376 | two integers with the same text are equal |
| Decimal.IntToString | graph.cpp:376 | the text of an integer is non-empty and starts with a minus sign exactly when the integer is negative |
| Decimal.ParseInt | graph.cpp:429 | an integer is read only from a non-empty text made of an optional sign or a digit followed by digits, and a negative one only from a text starting with a minus sign |
| Text.SuffixedInterleaved | graph.cpp:472 | appending `x + sep` for every item gives the items joined by sep followed by one more sep |
| Text.TrimmedList | graph.cpp:25 | dropping the last three characters of `x + " <- "` repeated gives "" for no items, otherwise the items joined by the separator plus its first character |
| Text.SuffixedSnoc | graph.cpp:16 | one more `+= x + sep` appends exactly x and sep |
| Text.SuffixedCons | graph.cpp:16 | the same text split at its first item |
| Text.FirstIndex | graph.cpp:441 | the position `getline(.., c)` stops at is an occurrence of c |
| Text.FirstIndexFirst | graph.cpp:441 | no occurrence of c comes before that position |
| Text.SplitAtParts | graph.cpp:441 | splitting at the first c gives a part without c, then c, then the rest, whose concatenation is the input; without c the whole input is the first part |
| Text.SplitAtJoin | graph.cpp:441-442 | splitting `a + c + b` (c not in a) at c gives back a and b |
| Text.SplitLines | graph.cpp:432 | a text has at least one line |
| Text.SplitLinesCons | graph.cpp:432 | a text starting with a newline-free line and a newline splits into that line and the rest's lines |
| Text.SplitLinesOfSuffixed | graph.cpp:391-411 | lines each written with a trailing newline are read back by getline as those lines, then an empty rest |
| Text.Trim3 | graph.cpp:25 | `substr(0, length - 3)` gives a prefix of the text, three characters shorter when there are three to drop and the whole text otherwise |
| Text.SuffixedEnds | graph.cpp:391-411 | a text built by `+= item + sep` starts with its first item and sep, and ends with sep |
| GraphState.IndexOf | graph.cpp:220-231 | the position findVertex stops at holds the label and is the first such position |
| GraphState.WeightIn | graph.cpp:355-362 | a destination has a weight in an edge list exactly when it is one of the list's destinations |
| GraphState.WeightInAt | graph.cpp:332-336 | in a list with distinct destinations the weight found for the k-th edge's destination is the k-th edge's weight |
| GraphState.EdgesOfAt | graph.cpp:39-52 | with distinct labels the edge list looked up by a vertex's label is that vertex's own list |
| GraphState.EdgeTargetsExist | graph.cpp:347-363 | in a well-formed graph both ends of an edge are vertices |
| GraphState.Without | graph.cpp:287-302 | removing the edge to d never lengthens an edge list |
| GraphState.WeightInWithout | graph.cpp:287-302 | after removing the edge to d, d has no weight and every other destination keeps its weight |
| GraphState.WithoutSplit | graph.cpp:292-301 | removing the first edge to d unlinks exactly that edge: the edges before it, then those after it |
| GraphState.WithoutAbsent | graph.cpp:287-302 | removing a destination that is absent changes nothing |
| GraphState.Reweighted | graph.cpp:332-336 | setting a weight keeps the destinations in order |
| GraphState.WeightInReweighted | graph.cpp:336 | after setting d's weight to w, d weighs w when it was a destination, and the others are unchanged |
| GraphState.ReweightedSame | graph.cpp:336 | setting a weight to the weight it already has changes nothing |
| GraphState.RenamedDests | graph.cpp:217 | renaming a vertex renames every edge pointing to it and keeps the weights |
| GraphState.WeightInRenamed | graph.cpp:217 | after a rename, looking up a label finds what the swapped label found before |
| GraphState.WeightInAppend | graph.cpp:246-256 | appending an edge adds its destination's weight and changes no other |
| GraphState.SetEdges | graph.cpp:246-256 | replacing one vertex's edge list keeps the vertex labels |
| GraphState.SetEdgesEffect | graph.cpp:246-256 | replacing u's edge list changes u's edges and weights only |
| GraphState.SetEdgesWellFormed | graph.cpp:246-256 | replacing a list with one whose destinations are distinct vertices keeps the graph well formed |
| GraphState.EdgesOfWellFormed | graph.cpp:347-363 | every edge list of a well-formed graph points only at vertices, each once |
| GraphState.AddEdgeEffect | graph.cpp:240-256 | appending u -> d (new) keeps the labels and well-formedness and adds exactly W(u, d) = w |
| GraphState.SetWeightEffect | graph.cpp:332-336 | setting the weight of an existing u -> d changes W(u, d) to w and nothing else |
| GraphState.RemoveEdgeEffect | graph.cpp:287-302 | removing u -> d makes W(u, d) absent and changes nothing else |
| GraphState.AppendVertexEffect | graph.cpp:155-171 | appending a new vertex adds its label at the end and no edge |
| GraphState.DetachEffect | graph.cpp:183-195 | after detaching x no edge points to x and every other edge is unchanged |
| GraphState.DetachLists | graph.cpp:183-195 | each list after detaching is that list without its edge to x |
| GraphState.CutLabels | graph.cpp:197-206 | unlinking the i-th vertex removes exactly its label from the label list |
| GraphState.CutEdgesOfKept | graph.cpp:197-206 | unlinking a vertex leaves every other vertex's list as it was |
| GraphState.CutEdgesOf | graph.cpp:197-206 | after unlinking, the removed label has no edges and the others keep theirs |
| GraphState.CutWellFormed | graph.cpp:197-206 | unlinking a vertex no edge points to keeps the graph well formed |
| GraphState.CutEffect | graph.cpp:197-208 | unlinking a vertex removes its label and its outgoing edges and nothing else |
| GraphState.RenamedLabels | graph.cpp:217 | renaming a to a new b replaces a by b at a's position and labels stay distinct |
| GraphState.RenamedEdgesOf | graph.cpp:217 | the renamed graph's list of u is the old list of the swapped label with renamed destinations |
| GraphState.RenamedEffect | graph.cpp:211-218 | renaming a to b keeps the graph well formed, and an edge u -> v now is the old edge between the swapped labels |
| GraphState.InsertVertex | graph.cpp:155-171 | insertVertex fails exactly on a duplicate label, with the duplicate error; otherwise the label is appended, the old vertices stay in order, no edge changes and the invariant holds |
| GraphState.DeleteVertex | graph.cpp:173-209 | deleteVertex fails exactly when x is not a vertex; otherwise x is removed from the labels, every edge into or out of x disappears, the other edges keep their weights and every other list is the old list without its edge to x |
| GraphState.RemovedEffect | graph.cpp:183-206 | detaching then unlinking x gives a well-formed graph without x and without any edge touching x |
| GraphState.RemovedSymmetric | graph.cpp:183-206 | removing a vertex keeps an undirected graph symmetric |
| GraphState.EditVertex | graph.cpp:211-218 | editVertex fails exactly when a is missing or b exists, with the matching error; otherwise a is relabelled b in place and every edge is carried over to the swapped labels |
| GraphState.LinkEdgeEffect | graph.cpp:240-276 | a new edge o -> d appends to o's list, and in an undirected graph also d -> o, with weight w |
| GraphState.LinkMirror | graph.cpp:258-275 | the mirror edge d -> o of a new undirected edge is new too, and the result is symmetric |
| GraphState.LinkEdgeLists | graph.cpp:246-274 | the new edge is appended at the end of o's list and, undirected, of d's list; every other list is unchanged |
| GraphState.InsertEdge | graph.cpp:233-277 | insertEdge fails exactly when an endpoint is missing; inserting an existing edge changes nothing; otherwise o -> d with weight w is appended (and d -> o when undirected) and every other weight is unchanged |
| GraphState.UnlinkEdgeEffect | graph.cpp:287-321 | deleting o -> d removes it (and d -> o when undirected) and nothing else |
| GraphState.UnlinkMirror | graph.cpp:304-321 | removing both directions keeps an undirected graph symmetric |
| GraphState.UnlinkEdgeLists | graph.cpp:287-321 | the deleted edges are unlinked from o's (and d's) list; every other list is unchanged |
| GraphState.DeleteEdge | graph.cpp:279-322 | deleteEdge fails exactly when there is no edge o -> d; otherwise that edge (and its mirror when undirected) is gone and every other edge keeps its place and weight |
| GraphState.ReweighLists | graph.cpp:332-344 | editing a weight keeps the destinations of every list in order |
| GraphState.ReweighSymmetric | graph.cpp:336-344 | setting both directions to w keeps an undirected graph symmetric |
| GraphState.ReweighEffect | graph.cpp:324-345 | editing o -> d to w changes that weight (and d -> o's when undirected) and nothing else |
| GraphState.EditEdge | graph.cpp:324-345 | editEdge fails exactly when there is no edge o -> d; otherwise its weight (and the mirror's when undirected) becomes w and the lists keep their order |
| Symmetry.Mirror | graph.cpp:114-119 | mirroring one edge keeps the vertex labels |
| Symmetry.MirrorEdges | graph.cpp:113-122 | mirroring a vertex's list keeps the vertex labels |
| Symmetry.SymmetrizeFrom | graph.cpp:110-125 | the rest of the walk keeps the vertex labels |
| Symmetry.Symmetrize | graph.cpp:108-126 | the whole walk keeps the vertex labels |
| Symmetry.MirrorEffect | graph.cpp:114-119 | mirroring x -> d sets W(d, x) to the edge's weight (edited or inserted) and changes nothing else |
| Symmetry.MirrorKeepsList | graph.cpp:113-122 | mirroring the edges of x never changes x's own list, so the walk over it sees the list it started with |
| Symmetry.TargetSymmetric | graph.cpp:107-129 | the weight the walk settles on for a pair is the same in both directions |
| Symmetry.MirrorEdgesSettles | graph.cpp:113-122 | after walking x's list, every pair whose first-listed end is x has its final weight |
| Symmetry.SymmetrizeFromSettles | graph.cpp:110-125 | after walking the remaining vertices, every pair has its final weight |
| Symmetry.SymmetrizeEffect | graph.cpp:108-126 | the walk yields a well-formed symmetric graph whose weight for p, q is that of the edge whose origin comes first in the vertex list |
| Symmetry.TargetCases | graph.cpp:107-129 | a pair has a settled weight exactly when an edge joins it in either direction, and that weight comes from the edge with the earlier origin |
| Symmetry.SymmetrizeEdges | graph.cpp:107-129 | after switching to undirected an edge p -> q exists exactly when p -> q or q -> p existed; its weight is the one of the direction whose origin is earlier in the list, or of the only direction |
| Symmetry.SetDirected | graph.cpp:107-129 | setIsDirected keeps the invariant and the labels; only directed -> undirected touches edges, and then every weight is the settled one |
| Paths.ReachableRefl | graph.cpp:466 | every vertex reaches itself |
| Paths.ReachableStep | graph.cpp:476-482 | reachability extends along an edge |
| Paths.EnteredReachable | graph.cpp:466-484 | every label visited in an order where each one is entered from an earlier one is reachable from the first |
| Paths.ClosedReachable | graph.cpp:466-484 | a set closed under edges that holds a contains everything a reaches |
| Search.PushChildren | graph.cpp:476-482 | the inner loop pushes the unvisited destinations of the current vertex's list, in list order, and records one (current, destination) pair each |
| Search.UnvisitedIn | graph.cpp:478 | the pushed labels are exactly the unvisited destinations |
| Search.UnvisitedEdges | graph.cpp:476-482 | every pushed label is the end of an edge from the current vertex, and every such edge end is pushed or visited |
| Search.Round | graph.cpp:467-484 | one round of the loop (take the front of the queue or the top of the stack, skip it when visited, else visit it and push its children) keeps the exploration invariant, and a visited target is reachable |
| Search.Finish | graph.cpp:467-486 | when the queue or stack empties, the visited labels are exactly those reachable from the origin, and an unreached target is unreachable |
| Search.FoundReachable | graph.cpp:538-541 | the destination met by the route search is reachable from the origin |
| Search.ClosedOrder | graph.cpp:467-484 | the visit order holds exactly the vertices reachable from the origin |
| Search.Explore | graph.cpp:456-600 | the shared loop visits distinct labels, each entered from an earlier one; it reports the target exactly when the target is reachable; otherwise it visits exactly the reachable labels |
| Search.SeekChild | graph.cpp:17-19 | popping pairs until one ends in the current label leaves the stack prefix whose top ends there, or an empty stack |
| Search.GetRoute | graph.cpp:12-26 | getRoute returns the labels from the destination back to the origin joined by `" <- "` with the last three characters dropped; consecutive labels are recorded pairs (parent, child), the route is distinct and empty exactly when there are no pairs |
| Search.RouteEdges | graph.cpp:12-26 | every step of the route read backwards is an edge of the graph |
| Search.PairAt | graph.cpp:547-553 | each recorded pair links a visited parent to a different child, the child is never the origin, and a visited child comes after its parent |
| Spanning.OutOf | graph.cpp:622-630 | the candidates pushed for u are exactly u's edges with their weights |
| Spanning.OutMembers | graph.cpp:622-630 | a candidate is pushed for u exactly when u has that edge |
| Spanning.PushEdges | graph.cpp:622-630 | pushing u's edges appends one candidate per edge of u, in list order |
| Spanning.StepsReachable | graph.cpp:632-657 | every vertex the tree takes in is reachable from the origin |
| Spanning.Admit | graph.cpp:649-654 | adding a missing endpoint to the tree appends it once and adds no edge |
| Spanning.Attach | graph.cpp:649-655 | adding an accepted candidate keeps the tree's invariant and its flags |
| Spanning.AttachEffect | graph.cpp:649-655 | adding a candidate appends its missing endpoints in order and adds exactly its edge |
| Spanning.TreeStep | graph.cpp:636-656 | accepting a candidate that crosses from the tree to a new vertex keeps the tree equal to the accepted steps |
| Spanning.QueueStep | graph.cpp:636-647 | taking in a new vertex and pushing its edges keeps the queue exactly the unused edges out of visited vertices |
| Spanning.SkipRound | graph.cpp:636 | dropping a candidate whose target is visited keeps the queue invariant |
| Spanning.AcceptLightest | graph.cpp:632-636 | the minimum of the queue is an edge leaving the taken-in set with no lighter such edge |
| Spanning.TakeRound | graph.cpp:632-656 | one accepting round keeps Prim's invariant with one more step |
| Spanning.Round | graph.cpp:632-657 | any round, accepting or skipping, keeps Prim's invariant |
| Spanning.FirstStep | graph.cpp:632-657 | the tree gets no edge exactly when the origin has no edge to another vertex |
| Spanning.Done | graph.cpp:632-658 | when the queue empties the result spans the origin's reachable vertices with steps that each take the lightest crossing edge |
| Spanning.MinExists | graph.cpp:633 | a non-empty queue has a minimum |
| Spanning.Prim | graph.cpp:602-659 | primSpanningTree fails exactly when the origin is missing; otherwise the result is a directed weighted tree holding the origin and every vertex it reaches (none when the origin has no edge to another vertex); each edge is a graph edge with its weight, taken in an order where each one is a lightest edge from the taken-in vertices to a new one |
| Spanning.TreeEdgesFromGraph | graph.cpp:655 | every tree edge is a graph edge with the same weight |
| Spanning.LaterTarget | graph.cpp:636-637 | no vertex is taken in twice |
| Spanning.OneEntry | graph.cpp:636-655 | each vertex is entered by one tree edge only |
| Spanning.TreeParents | graph.cpp:602-659 | in the tree no edge enters the origin and every other tree vertex has exactly one incoming edge |
| FileFormat.ParseHeaderText | graph.cpp:424-427 | the header written for the flags reads back as those flags |
| FileFormat.ParseNatText | graph.cpp:429 | a written count reads back as that count |
| FileFormat.ParseEdgeText | graph.cpp:441-444 | an edge line whose labels contain no separator reads back as that edge |
| FileFormat.ParseEdgesText | graph.cpp:440-447 | a run of edge lines reads back as those edges |
| FileFormat.ParseBlocksText | graph.cpp:436-448 | the edge blocks read back as the written blocks whatever follows them |
| FileFormat.DecodeContentText | graph.cpp:424-448 | the written content reads back as itself |
| FileFormat.SaveTextLines | graph.cpp:388-414 | the saved file splits into the written lines followed by an empty rest |
| FileFormat.InsertVertices | graph.cpp:431-434 | inserting the read labels keeps the invariant and the flags |
| FileFormat.InsertEdgeLines | graph.cpp:440-447 | inserting the read edges keeps the invariant and the flags |
| FileFormat.InsertBlocks | graph.cpp:436-448 | inserting every block keeps the invariant and the flags |
| FileFormat.Load | graph.cpp:417-448 | replaying a content gives a valid graph with the content's flags |
| FileFormat.VerticesReplay | graph.cpp:61-64 | inserting distinct new labels never fails, appends them in order and adds no edge |
| FileFormat.EdgeStep | graph.cpp:67-75 | replaying the next edge of the original never fails and advances the replay invariant |
| FileFormat.EdgesReplay | graph.cpp:68-72 | replaying the rest of one vertex's edge list never fails |
| FileFormat.BlocksReplay | graph.cpp:66-75 | replaying every remaining list never fails |
| FileFormat.PartialEnd | graph.cpp:66-75 | a finished replay has exactly the original's weights |
| FileFormat.ReplayRestores | graph.cpp:54-76 | replaying a graph's content never fails and restores its flags, its labels in order and every weight |
| FileFormat.Copy | graph.cpp:54-76 | a copy is valid and has the original's flags |
| FileFormat.CopyRestores | graph.cpp:54-76 | the copy has the original's flags, labels in order and every weight |
| FileFormat.LoadFile | graph.cpp:416-454 | getFromFile always leaves a valid graph; without a file it returns false and leaves an empty graph with the old flags; it returns false only then |
| FileFormat.LoadSaved | graph.cpp:388-454 | loading what saveToFile wrote returns true and restores the flags, the labels in order and every weight, when no label contains a separator |
| FileFormat.SaveText | graph.cpp:388-414 | the saved text starts with the header line `directed\|weighted` and a newline, and ends with a newline |
| FileFormat.ParseHeader | graph.cpp:424-427 | a header is read only from a line holding `\|`, whose two sides read as the integers 1 or 0 of the two flags |
| FileFormat.ParseEdge | graph.cpp:441-444 | an edge line is read as origin, `\|`, destination, `\|`, weight: neither label holds `\|` and the line starts with `origin\|destination\|` |
| FileFormat.Decode | graph.cpp:424-448 | a decoded file has one edge block per label, and its labels are the lines following the header and the vertex count |
| Nodes.Vertex.Empty | vertex.cpp:3 | a default vertex has an empty label and no next vertex or edge |
| Nodes.Vertex.constructor | vertex.cpp:5-7 | a new vertex has the given label and no next vertex or edge |
| Nodes.Vertex.SetLabel | vertex.cpp:21-23 | setLabel changes the label only |
| Nodes.Vertex.SetNextVertex | vertex.cpp:25-27 | setNextVertex changes the next link only |
| Nodes.Vertex.SetFirstEdge | vertex.cpp:29-31 | setFirstEdge changes the first edge only |
| Nodes.Edge.Empty | edge.cpp:3 | a default edge has no next edge and no destination |
| Nodes.Edge.constructor | edge.cpp:5-7 | a new edge has the given weight and no next edge or destination |
| Nodes.Edge.SetWeight | edge.cpp:21-23 | setWeight changes the weight only |
| Nodes.Edge.SetNextEdge | edge.cpp:25-27 | setNextEdge changes the next link only |
| Nodes.Edge.SetDestVertex | edge.cpp:29-31 | setDestVertex changes the destination only |
| GraphEngine.TypeNameInjective | graph.cpp:135-153 | the four type names are distinct: the name determines both flags |
| GraphEngine.TypeName | graph.cpp:135-153 | the type name starts with `D` exactly when directed and names `Weighted` (not `Unweighted`) exactly when weighted |
| GraphEngine.WeightShown | graph.cpp:375-377 | two edges to the same destination with different weights are written differently exactly when the graph is weighted |
| GraphEngine.ToStringLines | graph.cpp:365-386 | toString's text has one line per vertex, the k-th being the k-th vertex's label and its edges |
| GraphEngine.EdgeListText | graph.cpp:372-379 | the inner loop of toString writes `" -> dest"` (and `":weight"` when weighted) per edge in list order |
| GraphEngine.MirrorList | graph.cpp:112-122 | the inner loop of setIsDirected mirrors the edges of one list in order |
| GraphEngine.SymmetrizeList | graph.cpp:109-125 | the outer loop of setIsDirected walks every vertex in list order |
| GraphEngine.Graph.constructor | graph.cpp:79 | a new graph is empty, directed and weighted |
| GraphEngine.Graph.Copy | graph.cpp:81-83 | the copy constructor builds copyGraph's replay of the original |
| GraphEngine.Graph.Assign | graph.cpp:89-93 | assignment empties the graph and replays the other graph into it |
| GraphEngine.Graph.DeleteAll | graph.cpp:661-679 | deleteAll leaves no vertex and keeps the flags |
| GraphEngine.Graph.IsEmpty | graph.cpp:95-97 | the graph is empty exactly when no label is a vertex |
| GraphEngine.Graph.GetIsDirected | graph.cpp:99-101 | the answer is the directed flag; when it is false, every weight is symmetric |
| GraphEngine.Graph.GetIsWeighted | graph.cpp:103-105 | the answer is the weighted flag, which decides whether toString shows the weights |
| GraphEngine.Graph.GetGraphType | graph.cpp:135-153 | the text is the type name of exactly the graph's two flags |
| GraphEngine.Graph.SetIsWeighted | graph.cpp:131-133 | only the weighted flag changes |
| GraphEngine.Graph.SetIsDirected | graph.cpp:107-129 | the new state is the settled symmetric graph when switching to undirected, and otherwise only the flag changes |
| GraphEngine.Graph.NumVertices | graph.cpp:28-37 | the count is the number of vertices |
| GraphEngine.Graph.NumEdges | graph.cpp:39-52 | the count is the length of the vertex's edge list |
| GraphEngine.Graph.FindVertex | graph.cpp:220-231 | no position is found exactly when the label is not a vertex; a found position is the first holding the label |
| GraphEngine.Graph.ExistsEdge | graph.cpp:347-363 | the answer is true exactly when the edge o -> d exists |
| GraphEngine.Graph.InsertVertex | graph.cpp:155-171 | the graph and the thrown error are those of GraphState.InsertVertex |
| GraphEngine.Graph.DeleteVertex | graph.cpp:173-209 | the graph and the thrown error are those of GraphState.DeleteVertex |
| GraphEngine.Graph.EditVertex | graph.cpp:211-218 | the graph and the thrown error are those of GraphState.EditVertex |
| GraphEngine.Graph.InsertEdge | graph.cpp:233-277 | the graph and the thrown error are those of GraphState.InsertEdge |
| GraphEngine.Graph.DeleteEdge | graph.cpp:279-322 | the graph and the thrown error are those of GraphState.DeleteEdge |
| GraphEngine.Graph.EditEdge | graph.cpp:324-345 | the graph and the thrown error are those of GraphState.EditEdge |
| GraphEngine.Graph.ToString | graph.cpp:365-386 | the text is each vertex's line followed by a newline, in list order |
| GraphEngine.Graph.SaveToFile | graph.cpp:388-414 | the file text is the header, the vertex count, the labels and one block per vertex, each line ending in a newline |
| GraphEngine.Graph.GetFromFile | graph.cpp:416-454 | the result and the new graph are those of FileFormat.LoadFile |
| GraphEngine.Graph.Traverse | graph.cpp:456-520 | a missing origin gives the fixed message; otherwise the text is the visit order joined by `" -> "` plus a space, the order starts at the origin, repeats no label, enters each label from an earlier one and holds exactly the reachable labels |
| GraphEngine.Graph.BreadthFirstTraverse | graph.cpp:456-487 | as Traverse, with a queue |
| GraphEngine.Graph.DepthFirstTraverse | graph.cpp:489-520 | as Traverse, with a stack |
| GraphEngine.Graph.Route | graph.cpp:522-600 | a missing endpoint gives one message and an unreachable destination another; otherwise the text is a route from the destination back to the origin, each step an edge, no label twice, empty exactly when origin and destination coincide |
| GraphEngine.Graph.BreadthFirstRoute | graph.cpp:522-560 | as Route, with a queue |
| GraphEngine.Graph.DepthFirstRoute | graph.cpp:562-600 | as Route, with a stack |
| GraphEngine.Graph.PrimSpanningTree | graph.cpp:602-659 | as Spanning.Prim on the graph's vertices |

## Left out

- Memory: node allocation, `new` failing, `delete` and the destructor.
  `deleteAll` is modelled as emptying the vertex list.
- `GraphEngine.Graph.DeleteVertex`, `InsertEdge`, `DeleteEdge` and
  `EditEdge` do not walk the linked chains step by step. They compute the
  new lists through the `GraphState` functions, whose contracts and lemmas
  state the effect of the source's relinking. The same holds for
  `Nodes.Vertex`/`Nodes.Edge`: they are modelled as classes, but the
  graph keeps its chains as sequences, so pointer aliasing between nodes is
  not modelled. `SetIsDirected`, `ToString`, `FindVertex`, `ExistsEdge`,
  `NumVertices`, `NumEdges` and the traversal loops are loops.
- Edges name their destination by label rather than by pointer, so
  `EditVertex` renames the destinations too. In the source the pointers
  follow the renamed node, which is the same observable graph.
- GraphEngine.Graph.DeleteVertex and GraphState.DeleteVertex: require a
  directed graph or no self-loop on x. In an undirected graph the source removes the self-loop
  and then looks for its mirror in the same list. That walk runs off the
  end of the list (graph.cpp:304-308), which the model cannot state.
- GraphEngine.Graph.DeleteEdge and GraphState.DeleteEdge: require a
  directed graph or `o != d`, for the same reason.
- GraphEngine.Graph.Assign: requires `g != this`. Self-assignment in the
  source empties the graph before copying it, so the graph ends empty.
- GraphEngine.Graph.NumEdges: takes a vertex position. The source's
  "no such vertex" exception cannot arise from its callers, which pass
  vertices of the graph.
- Exception texts: a thrown `GraphException` is the error kind
  (`DuplicateVertex`, `VertexNotFound`, `EdgeNotFound`), not its message.
- Integers are unbounded. The source's 32-bit `int` overflow (weights,
  counts) is not modelled.
- `Edge()` leaves the weight uninitialised. `Nodes.Edge.Empty` gives it an
  arbitrary value that the contract does not constrain.
- Files: the file system is not modelled. `GraphEngine.Graph.SaveToFile`
  returns the text it would write. `GraphEngine.Graph.GetFromFile` takes
  the file's text, or `None` when the file cannot be opened.
- GraphEngine.Graph.GetFromFile and FileFormat.LoadFile: require the file
  to be in the layout `saveToFile` writes. On malformed input the C++ stream extraction fails
  silently and carries on; that behaviour is not modelled.
- GraphEngine.Graph.GetFromFile: the reload is proved to restore the
  flags, the labels in order and every weight. The order of each edge list
  after the reload is not proved, for directed and undirected graphs alike
  (in an undirected graph the reload inserts both directions from the
  first line naming a pair).
- FileFormat.LoadSaved: covers labels without `|` or newline only. A label
  holding a newline cannot be read back by the source, nor can a label
  holding `|` on a vertex that has or receives an edge, since edge lines
  are split at `|`. A label holding `|` on a vertex without edges is read
  back intact by the source, but the lemma does not cover it.
- GraphEngine.Graph.Copy and GraphEngine.Graph.Assign: the copy restores
  the flags, the labels in order and every weight
  (FileFormat.CopyRestores). The order of each edge list in the copy is
  not proved, for directed and undirected graphs alike.
- GraphEngine.Graph.InsertEdge: the default argument `weight = 1` of
  `insertEdge` is not modelled; every caller in the model passes a weight.
- Spanning.Prim: the priority queue's order among equal weights is
  unspecified in the source. The model picks any minimum, so the contract
  holds for every tie-break.
- Spanning.Prim: each step is proved to take a lightest edge leaving the
  tree. Global minimality of the total weight is not proved. The result is
  returned as a graph value, not a `Graph` object.
- Traversal and route texts are stated over the ghost visit order and
  route. The choice of BFS or DFS is a flag of one shared loop: the source
  repeats the loop four times, with a queue or a stack.
- Search.Explore: the contract holds for every search order. The effect of
  the `lifo` flag (first-in-first-out queue or last-in-first-out stack) on
  the order of the visit is not stated.
- GraphEngine.Graph.Traverse: the visit order is stated only as some search
  order from the origin. Neither breadth-first nor depth-first order is
  stated.
- GraphEngine.Graph.BreadthFirstTraverse: the order is not proved to be by
  hop distance from the origin; the contract is that of any search order.
- GraphEngine.Graph.DepthFirstTraverse: the order is not proved to follow
  the stack discipline; the contract is that of any search order.
- GraphEngine.Graph.BreadthFirstRoute and GraphEngine.Graph.DepthFirstRoute:
  the route need not be the shortest, even breadth-first: `getRoute` walks
  back through the last recorded pair whose child is the current label.
  Which route the queue or the stack yields is not stated; the contract is
  that of any search order.
