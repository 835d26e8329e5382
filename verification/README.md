# Graph editor decision logic, in Dafny

This project models the integer and sequence logic of the graph editor's panel,
`GraphVisualizer`, that runs before the panel calls into its graph:

- id allocation for new vertices (`getNextId` and the add-vertex click);
- the hit test `isInsideNode`;
- the click handlers that set the start and end markers, remove a vertex,
  add an edge and remove an edge;
- drag-to-pan bookkeeping (press, drag and release handlers);
- the guard of the shortest-path command.

The `Graph` and `Node` classes are not part of this model. The panel's view of
a node is a record `Node(handle, id, x, y)`. `handle` stands for the Java object's
identity, because the handlers compare nodes with `==` and `!=`. The radius
`Node.RADIUS` is a parameter. `graph.getVoisins` is a neighbour function
`(G, Handle) -> seq<Handle>` over an abstract graph state `G`. The state after
`graph.addEdge` is a function `link` of that state. `graph.shortestPath` is a
function parameter. The model makes no claim about any of these.

Java's 32-bit `int` is modelled explicitly (`JavaInt`). Ids, coordinates and
pointer positions are `Int32`, and every `+` or `-` in the modelled handlers
wraps around through `JavaInt.Wrap`. So the hit test is an exact closed square only
while the square's corners are themselves `int`s (`Nodes.CornersFit`), and
`Nodes.WrappedSquareMissesCentre` shows a node at the largest `x` that does not
contain its own centre.

Each click handler is a left fold over the node list, as the Java loop is.

- The marker handlers and the edge handlers do not `break`. Every qualifying
  node acts, so the last one wins for a marker. For an edge, several edges can
  be requested by one click when node squares overlap.
- The remove-vertex handler stops at the first hit.
- "Armed" is whether a handler's listener is still registered after the click.
  The marker and edge listeners stay registered until they act. The
  remove-vertex listener unregisters after any click.

The marker and edge handlers take the hit test as a predicate
`hit: Node -> bool`. At a click at (x, y) that predicate is
`Nodes.Under(radius, x, y)`, which is `isInsideNode` at the click. The
remove-vertex click takes the click position itself.

Modules: `JavaInt` (int arithmetic), `Optional`, `Nodes` (node record, hit test,
first-hit scan), `Ids`, `Markers`, `Removal`, `Edges`, `Drag`.

Three behaviours of the code worth stating plainly:
- Setting a marker onto the other marker's node is not an error. That node is
  skipped, and a later node under the pointer can still be taken.
- `getNextId` starts its maximum at 0, so a list whose ids are all negative
  still gets id 1.
- Self-loops are excluded by the `node != node1` test, not by the
  duplicate-edge check.

## Model

| member | source | states |
|---|---|---|
| `Nodes.IsInsideNode` | src/GraphVisualizer.java:156-163 | when no corner sum wraps, the pointer is on the node exactly when it lies in the closed square of half-side RADIUS around the centre (a square, not a disc) |
| `Nodes.CentreIsInside` | src/GraphVisualizer.java:156-163 | with a non-negative radius and no wrap-around, a node's centre is inside it |
| `Nodes.WrappedSquareMissesCentre` | src/GraphVisualizer.java:162 | with Java int sums, every node at the largest x coordinate with a positive radius fails to contain its own centre |
| `Nodes.FirstMatch` | src/GraphVisualizer.java:201-207 | the loop with `break` yields the first node in iteration order that is hit, with no earlier hit; nothing exactly when no node is hit |
| `Ids.MaxId` | src/GraphVisualizer.java:92-96 | the running maximum is at least 0, at least every id, and is 0 or one of the ids |
| `Ids.NextIdAsWritten` | src/GraphVisualizer.java:91-98 | getNextId returns 1 on an empty list; while no id is the largest int, it is at least 1 and above every id |
| `Ids.MaxIdReachesMaxInt` | src/GraphVisualizer.java:92-96 | when some id is the largest int, the running maximum is the largest int |
| `Ids.NextIdAsWrittenRepeats` | src/GraphVisualizer.java:91-98 | for every list holding the largest int as an id, getNextId wraps to the smallest int, and after a node with that id is appended it returns the same id again |
| `Ids.NextId` | src/GraphVisualizer.java:91-98 | the corrected allocation: an id of at least 1 that is above every id and is max(0, largest id) + 1; nothing exactly when the largest int is taken; 1 on an empty list |
| `Ids.NextIdAgreesBelowMaxInt` | src/GraphVisualizer.java:91-98 | while no id is the largest int, the corrected allocation equals getNextId as written |
| `Ids.AddVertexClick` | src/GraphVisualizer.java:171-179 | with the corrected allocation: only a single click requests a node; it is at the click position and its id is used by no existing node; no request when the largest int is taken |
| `Ids.PlaceVertices` | src/GraphVisualizer.java:171-179 | a run of single add-vertex clicks keeps the existing nodes in place at the front and appends at most one node per click |
| `Ids.PlacedIdsStayDistinct` | src/GraphVisualizer.java:175-178 | with the corrected allocation, a run of add-vertex clicks keeps all node ids pairwise distinct |
| `Markers.ScanMarker` | src/GraphVisualizer.java:110-116 | the non-breaking marker loop (also lines 134-140): the marker either keeps its value or becomes a node that is not the other marker, in which case the listener unregisters; an unregistered listener stays so |
| `Markers.ScanMarkerLastWins` | src/GraphVisualizer.java:110-116 | the marker loop leaves the marker and the listener unchanged if no node is eligible; otherwise the last eligible node wins and the listener unregisters |
| `Markers.ClickStart` | src/GraphVisualizer.java:106-117 | a set-start click leaves the end marker alone; it takes the last node under the pointer that is not the end marker, or changes nothing and stays armed; the new start is never the end marker, so distinct markers stay distinct |
| `Markers.ClickEnd` | src/GraphVisualizer.java:130-141 | the mirror image for the end marker, which never becomes the start marker |
| `Markers.RunMarkersKeepsApart` | src/GraphVisualizer.java:104-146 | any run of set-start and set-end clicks keeps start and end different whenever both are set |
| `Markers.PathRequest` | src/GraphVisualizer.java:401-404 | the shortest path is queried exactly when both markers are set, from start to end; with distinct markers the endpoints differ |
| `Markers.ShowShortestPath` | src/GraphVisualizer.java:401-408 | without both markers the shown path is kept; with both it becomes graph.shortestPath(start, end) |
| `Markers.QueryEndpointsDiffer` | src/GraphVisualizer.java:402-404 | from unset markers, whatever marker clicks follow, a shortest-path query never has equal endpoints |
| `Removal.ClickRemoveVertex` | src/GraphVisualizer.java:197-208 | the node handed to removeNode is the first in iteration order under the pointer; none exactly when no node is hit |
| `Removal.AfterRemoveVertex` | src/GraphVisualizer.java:201-206 | at most one node leaves the list (the one hit first), every node not under the pointer stays, and a miss leaves the list unchanged |
| `Edges.EdgeExistsAsWritten` | src/GraphVisualizer.java:232-244 | the duplicate-edge check as written: it finds an edge recorded from node1 to node, and anything else it finds is an edge in either direction or a self-loop on node |
| `Edges.EdgeExistsEitherOrientation` | src/GraphVisualizer.java:232-244 | the corrected duplicate-edge check is symmetric in its two nodes |
| `Edges.AsWrittenMissesReverseEdge` | src/GraphVisualizer.java:235-244 | with only the edge from node 2 to node 1 recorded, the check as written reports no edge between 1 and 2 |
| `Edges.AsWrittenSeesSelfLoop` | src/GraphVisualizer.java:240-244 | on symmetric adjacency where only the clicked node 2 has a self-loop, the check as written reports an edge between 1 and 2 that does not exist |
| `Edges.AsWrittenAgreesOnSymmetricGraphs` | src/GraphVisualizer.java:232-244 | on symmetric adjacency without a self-loop at the clicked node, the check as written and the corrected check agree |
| `Edges.AddEdgeStep` | src/GraphVisualizer.java:228-250 | one hit requests addEdge(node1.id, node.id) exactly when node1 is set, the node is not node1 and no edge between them is recorded; otherwise the graph and the listener are untouched |
| `Edges.ClickAddEdge` | src/GraphVisualizer.java:227-252 | the add-edge loop for one click: node1 is kept once set, addEdge calls are only ever added, and an unregistered listener stays so |
| `Edges.ClickAddEdgeFirst` | src/GraphVisualizer.java:227-231 | node1 never changes once set; while unset, the click's first hit becomes node1, and a click with no hit changes nothing |
| `Edges.ClickAddEdgeLinks` | src/GraphVisualizer.java:227-252 | earlier addEdge calls are kept; each new call goes from node1 to a different node under the pointer; the listener unregisters exactly when a call was made |
| `Edges.ClickOnFirstIsIgnored` | src/GraphVisualizer.java:229-231 | a click whose only hits are node1 itself changes nothing |
| `Edges.RemoveEdgeStep` | src/GraphVisualizer.java:272-279 | one hit requests removeEdge(node1, node) and unregisters exactly when node1 is set and the node is not node1; otherwise nothing is requested and the listener is untouched |
| `Edges.ClickRemoveEdge` | src/GraphVisualizer.java:271-281 | the remove-edge loop for one click: node1 is kept once set, removal requests are only ever added, and an unregistered listener stays so |
| `Edges.Partners` | src/GraphVisualizer.java:271-280 | the removal requests of a click go from node1 to other nodes under the pointer; there are none exactly when every hit is node1 |
| `Edges.ClickRemoveEdgeFromFirst` | src/GraphVisualizer.java:271-281 | with node1 set, a click requests removal of the edge from node1 to every other node under the pointer, in order, and unregisters exactly when it requested one |
| `Edges.ClickRemoveEdgeSetsFirst` | src/GraphVisualizer.java:271-281 | with node1 unset, a miss changes nothing; otherwise the first hit becomes node1 and the later hits are its removal partners |
| `Drag.OnEvent` | src/GraphVisualizer.java:26-53 | a drag moves the graph only while dragging, by the pointer's displacement from the recorded position (exact unless it wraps), then records the new position; press starts and release ends a drag; a drag outside a drag changes nothing |
| `Drag.DragOffsetsTelescope` | src/GraphVisualizer.java:43-49 | over a run of drag events, one offset per event is passed, and they sum, modulo 2^32, to the last pointer position minus the recorded one |
| `Drag.DragOffsetsSumExactly` | src/GraphVisualizer.java:43-49 | when no single difference wraps, the offsets sum exactly to the pointer's total displacement |
| `Drag.NoMovesWithoutPress` | src/GraphVisualizer.java:33-43 | after a release and until the next press, no offset reaches moveGraph |
| `Drag.PressThenDrag` | src/GraphVisualizer.java:26-49 | a press followed by drags moves the graph in total by the last drag position minus the press position, modulo 2^32 |

## Findings

| source | as written | input that shows it | evidently intended | confidence | as-written member | corrected member |
|---|---|---|---|---|---|---|
| src/GraphVisualizer.java:235-244 | the duplicate-edge check tests `node` against `getVoisins(node1)` and then against `getVoisins(node)` itself | adjacency recording only the edge from node 2 to node 1; the check as written finds no edge, so addEdge(1, 2) is called | test `node1` against `getVoisins(node)`, the reverse direction | low: it only shows if Graph's adjacency can be asymmetric or the clicked node has a self-loop (`Edges.AsWrittenSeesSelfLoop`: then an edge is reported where none exists and addEdge is skipped), and Graph is not part of this model; not executed | `Edges.AsWrittenMissesReverseEdge` | `Edges.AddEdgeStep` |
| src/GraphVisualizer.java:97 | `maxId + 1` in Java `int` arithmetic | a node with id 2147483647: getNextId returns -2147483648, and after that vertex is added it returns -2147483648 again, so two nodes share the id | an id above every existing one, or no new vertex when none exists | low: the ids must reach the largest int, e.g. through an imported graph; not executed | `Ids.NextIdAsWrittenRepeats` | `Ids.NextId` |

The as-written halves are `Edges.EdgeExistsAsWritten` and `Ids.NextIdAsWritten`.
The rest of the model uses the corrected `Edges.EdgeExists` (in `Edges.AddEdgeStep`)
and `Ids.NextId` (in `Ids.AddVertexClick`).

## Left out

- The `Graph` and `Node` classes (breadth-first `shortestPath`, `addNode`, `removeNode`, `addEdge`, `removeEdge`, `getVoisins`, `moveGraph`, `RADIUS`): Graph and Node are not part of this model. They appear only as the node list, the neighbour function, the `link` state update, the radius and the shortest-path function, with no claims about their behaviour.
- Removal.AfterRemoveVertex: assumes graph.removeNode deletes exactly the node it is given. Whether it also clears a marker pointing at that node is unknown and not modelled.
- Ids.AddVertexClick: uses the corrected allocation `Ids.NextId`. On a list holding id 2147483647 the code as written calls addNode(-2147483648, x, y), while the model requests nothing (see Findings).
- Ids.PlacedIdsStayDistinct: holds for the corrected allocation only; as written, two clicks on a list holding id 2147483647 both add id -2147483648 (`Ids.NextIdAsWrittenRepeats`). It also assumes graph.addNode appends a node with the requested id and position to the node list.
- Edges.ClickAddEdgeLinks: states the duplicate-edge guard per loop iteration (in `Edges.AddEdgeStep`), not for the whole click, because the graph state between two addEdge calls of one click is abstract.
- Edges.AddEdgeStep: uses the corrected duplicate-edge check. It differs from the code as written in two ways, in opposite directions (see Findings). On asymmetric adjacency, with an edge recorded only from the clicked node to node1, the code calls addEdge and the model does not. When the clicked node has a self-loop recorded, the code makes no call and the model requests one.
- Node identity: a Java `Node` object is represented by its `handle`. The model cannot express two distinct objects being confused.
- Painting, colours, text and hover labels (`paint`, `handleNodeHover`, `mouseMoved`): pure rendering.
- Zoom (`mouseWheelMoved`, `scaleFactor`): floating point, presentation only.
- Listener registration and swapping (`activeListener`, `addMouseListener`, `removeMouseListener`) and `repaint`: UI event plumbing. Whether a handler stays registered after a click is modelled for the marker, add-edge and remove-edge handlers only. The add-vertex handler unregisters after a click with count 1 (src/GraphVisualizer.java:182) and the remove-vertex handler after every click (line 208); `Ids.AddVertexClick` and `Removal.ClickRemoveVertex` return only the graph call they make, not this flag.
- The message printed by `getShortestPath` when a marker is missing: I/O.
