/**
 * The editor's view of the graph's nodes and its hit test.
 *
 * The `Graph` and `Node` classes are not part of this model: a node is a
 * record of what the panel reads from it, and the radius (`Node.RADIUS`) is a
 * parameter.
 */
module Nodes {
  import opened JavaInt
  import opened Optional

  /** Stands for the identity of a Java `Node` object; the panel compares nodes with `==` and `!=`. */
  type Handle = nat

  datatype Node = Node(handle: Handle, id: Int32, x: Int32, y: Int32)

  /** The closed axis-aligned square of half-side `radius` around the node's centre, in exact arithmetic. */
  ghost predicate InSquare(n: Node, radius: int, px: int, py: int) {
    && n.x - radius <= px <= n.x + radius
    && n.y - radius <= py <= n.y + radius
  }

  /** None of the four sums and differences in the hit test wraps around. */
  predicate CornersFit(n: Node, radius: Int32) {
    && InRange(n.x - radius) && InRange(n.x + radius)
    && InRange(n.y - radius) && InRange(n.y + radius)
  }

  /** isInsideNode: is the pointer at (px, py) on the node? Computed with Java's `int` sums. */
  function IsInsideNode(n: Node, radius: Int32, px: Int32, py: Int32): (r: bool)
    ensures CornersFit(n, radius) ==> (r <==> InSquare(n, radius, px, py))
  {
    px <= Wrap(n.x + radius) && px >= Wrap(n.x - radius) && py <= Wrap(n.y + radius) && py >= Wrap(n.y - radius)
  }

  lemma CentreIsInside(n: Node, radius: Int32)
    requires 0 <= radius && CornersFit(n, radius)
    ensures IsInsideNode(n, radius, n.x, n.y)
  {
  }

  /** At the largest `x` the sum `x + radius` wraps and a node of positive radius no longer contains its own centre. */
  lemma WrappedSquareMissesCentre(n: Node, radius: Int32)
    requires n.x == MaxInt && 0 < radius
    ensures !IsInsideNode(n, radius, n.x, n.y)
  {
  }

  /** The pointer at (px, py), as the predicate "the pointer is on this node" that the click handlers' loops test. */
  function Under(radius: Int32, px: Int32, py: Int32): Node -> bool {
    n => IsInsideNode(n, radius, px, py)
  }

  /** The index of the first node, in iteration order, that `hit` selects. */
  function FirstMatch(nodes: seq<Node>, hit: Node -> bool): (r: Option<nat>)
    ensures r.Some? ==> r.value < |nodes| && hit(nodes[r.value])
    ensures r.Some? ==> forall j :: 0 <= j < r.value ==> !hit(nodes[j])
    ensures r.None? <==> forall j :: 0 <= j < |nodes| ==> !hit(nodes[j])
  {
    if |nodes| == 0 then None
    else if hit(nodes[0]) then Some(0)
    else match FirstMatch(nodes[1..], hit)
      case None => None
      case Some(k) => Some(k + 1)
  }

}
