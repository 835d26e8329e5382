/**
 * The remove-vertex click: the loop stops at the first node under the
 * pointer and hands it to graph.removeNode. The listener unregisters itself
 * after the click whether or not a node was hit.
 */
module Removal {
  import opened JavaInt
  import opened Optional
  import opened Nodes

  /** The node passed to graph.removeNode, if any: the first under the pointer in iteration order. */
  function ClickRemoveVertex(nodes: seq<Node>, radius: Int32, px: Int32, py: Int32): (r: Option<Node>)
    ensures r.None? <==> forall j :: 0 <= j < |nodes| ==> !IsInsideNode(nodes[j], radius, px, py)
    ensures r.Some? ==> exists i :: 0 <= i < |nodes| && nodes[i] == r.value && IsInsideNode(r.value, radius, px, py) &&
                                    forall j :: 0 <= j < i ==> !IsInsideNode(nodes[j], radius, px, py)
  {
    match FirstMatch(nodes, Under(radius, px, py))
    case None => None
    case Some(i) => Some(nodes[i])
  }

  /**
   * The node list after the click, when graph.removeNode deletes exactly the
   * node it is given: at most one node goes, and none when the click hits
   * nothing.
   */
  function AfterRemoveVertex(nodes: seq<Node>, radius: Int32, px: Int32, py: Int32): (r: seq<Node>)
    ensures ClickRemoveVertex(nodes, radius, px, py).None? ==> r == nodes
    ensures ClickRemoveVertex(nodes, radius, px, py).Some? ==>
              |r| + 1 == |nodes| &&
              multiset(r) + multiset{ClickRemoveVertex(nodes, radius, px, py).value} == multiset(nodes)
    ensures forall n :: n in nodes && !IsInsideNode(n, radius, px, py) ==> n in r
  {
    match FirstMatch(nodes, Under(radius, px, py))
    case None => nodes
    case Some(i) =>
      assert nodes == nodes[..i] + [nodes[i]] + nodes[i + 1..];
      nodes[..i] + nodes[i + 1..]
  }

}
