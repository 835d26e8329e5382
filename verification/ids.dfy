/**
 * Id allocation for new vertices (getNextId and the add-vertex click).
 *
 * getNextId scans the node list keeping the largest id seen, starting from
 * 0, and returns that maximum plus one in Java `int` arithmetic. At the
 * largest `int` the addition wraps around; `NextIdAsWritten` keeps that
 * behaviour and `NextId` is the allocation the rest of the model uses.
 */
module Ids {
  import opened JavaInt
  import opened Optional
  import opened Nodes

  /** The running maximum of getNextId's loop: the largest id in the list, or 0 when that is larger. */
  function MaxId(nodes: seq<Node>): (m: Int32)
    ensures 0 <= m
    ensures forall i :: 0 <= i < |nodes| ==> nodes[i].id <= m
    ensures m == 0 || exists i :: 0 <= i < |nodes| && nodes[i].id == m
  {
    if |nodes| == 0 then 0
    else
      var m := MaxId(nodes[..|nodes| - 1]);
      var id := nodes[|nodes| - 1].id;
      if id > m then id else m
  }

  /** getNextId as written: `maxId + 1` wraps to the smallest `int` when the maximum is the largest one. */
  function NextIdAsWritten(nodes: seq<Node>): (r: Int32)
    ensures (forall i :: 0 <= i < |nodes| ==> nodes[i].id < MaxInt) ==>
              1 <= r && forall i :: 0 <= i < |nodes| ==> nodes[i].id < r
    ensures |nodes| == 0 ==> r == 1
  {
    Wrap(MaxId(nodes) + 1)
  }

  /** A list holding the largest `int` as an id has that as its running maximum. */
  lemma {:induction false} MaxIdReachesMaxInt(nodes: seq<Node>)
    requires exists i :: 0 <= i < |nodes| && nodes[i].id == MaxInt
    ensures MaxId(nodes) == MaxInt
  {
    var i :| 0 <= i < |nodes| && nodes[i].id == MaxInt;
    assert nodes[i].id <= MaxId(nodes);
  }

  /**
   * Once some node carries the largest `int` as id, getNextId returns the
   * smallest `int`; after a vertex is added with that id, the next call
   * returns the same id again, so two nodes end up sharing it.
   */
  lemma NextIdAsWrittenRepeats(nodes: seq<Node>, h: Handle, px: Int32, py: Int32)
    requires exists i :: 0 <= i < |nodes| && nodes[i].id == MaxInt
    ensures NextIdAsWritten(nodes) == MinInt
    ensures NextIdAsWritten(nodes + [Node(h, MinInt, px, py)]) == MinInt
  {
    MaxIdReachesMaxInt(nodes);
    var i :| 0 <= i < |nodes| && nodes[i].id == MaxInt;
    assert (nodes + [Node(h, MinInt, px, py)])[i].id == MaxInt;
    MaxIdReachesMaxInt(nodes + [Node(h, MinInt, px, py)]);
  }

  /**
   * The id allocation the editor intends: one more than the largest id (and
   * at least 1), or nothing when the largest `int` is already taken and no
   * larger id exists.
   */
  function NextId(nodes: seq<Node>): (r: Option<Int32>)
    ensures r.Some? ==> 1 <= r.value && forall i :: 0 <= i < |nodes| ==> nodes[i].id < r.value
    ensures r.Some? ==> r.value == 1 || exists i :: 0 <= i < |nodes| && nodes[i].id == r.value - 1
    ensures r.None? <==> exists i :: 0 <= i < |nodes| && nodes[i].id == MaxInt
    ensures |nodes| == 0 ==> r == Some(1)
  {
    var m := MaxId(nodes);
    if m == MaxInt then None else Some(m + 1)
  }

  /** Where the id from `NextId` differs from getNextId's, the list holds the largest `int`. */
  lemma NextIdAgreesBelowMaxInt(nodes: seq<Node>)
    requires forall i :: 0 <= i < |nodes| ==> nodes[i].id < MaxInt
    ensures NextId(nodes) == Some(NextIdAsWritten(nodes))
  {
  }

  /** All node ids are pairwise different. */
  predicate DistinctIds(nodes: seq<Node>) {
    forall i, j :: 0 <= i < j < |nodes| ==> nodes[i].id != nodes[j].id
  }

  /** The graph.addNode call an add-vertex click makes: the new id and the click position. */
  datatype NodeRequest = NodeRequest(id: Int32, x: Int32, y: Int32)

  /**
   * The add-vertex click: only a single click places a vertex, at the click
   * position, under a fresh id. A click event whose click count is not 1
   * places nothing and leaves the listener registered.
   */
  function AddVertexClick(nodes: seq<Node>, clickCount: int, px: Int32, py: Int32): (r: Option<NodeRequest>)
    ensures r.Some? ==> clickCount == 1 && r.value.x == px && r.value.y == py
    ensures r.Some? ==> forall i :: 0 <= i < |nodes| ==> nodes[i].id != r.value.id
    ensures r.None? <==> clickCount != 1 || exists i :: 0 <= i < |nodes| && nodes[i].id == MaxInt
  {
    if clickCount != 1 then None
    else match NextId(nodes)
      case None => None
      case Some(k) => Some(NodeRequest(k, px, py))
  }

  /**
   * A run of single clicks in add-vertex mode, each placing the requested
   * node at the end of the list (the node list keeps insertion order); the
   * handles stand for the new Node objects.
   */
  function PlaceVertices(nodes: seq<Node>, clicks: seq<(Handle, Int32, Int32)>): (r: seq<Node>)
    ensures |nodes| <= |r| <= |nodes| + |clicks|
    ensures r[..|nodes|] == nodes
    decreases |clicks|
  {
    if |clicks| == 0 then nodes
    else
      var (h, px, py) := clicks[0];
      var placed := match AddVertexClick(nodes, 1, px, py)
        case None => nodes
        case Some(q) => nodes + [Node(h, q.id, q.x, q.y)];
      PlaceVertices(placed, clicks[1..])
  }

  /** Ids handed out by add-vertex clicks never collide with each other or with the ids already present. */
  lemma {:induction false} PlacedIdsStayDistinct(nodes: seq<Node>, clicks: seq<(Handle, Int32, Int32)>)
    requires DistinctIds(nodes)
    ensures DistinctIds(PlaceVertices(nodes, clicks))
    decreases |clicks|
  {
    if |clicks| > 0 {
      var (h, px, py) := clicks[0];
      match AddVertexClick(nodes, 1, px, py)
      case None =>
        PlacedIdsStayDistinct(nodes, clicks[1..]);
      case Some(q) =>
        var placed := nodes + [Node(h, q.id, q.x, q.y)];
        assert DistinctIds(placed);
        PlacedIdsStayDistinct(placed, clicks[1..]);
    }
  }

}
