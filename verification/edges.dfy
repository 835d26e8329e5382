/**
 * The add-edge and remove-edge clicks.
 *
 * Both listeners keep a `node1` field across clicks. Within one click they
 * scan every node under the pointer without stopping: the first hit while
 * `node1` is unset only records it, a hit on `node1` itself is ignored, and
 * every other hit asks the graph to add (or remove) an edge from `node1`.
 * The graph's adjacency is not part of this model: `voisins` stands for
 * graph.getVoisins and `link` for the graph state after graph.addEdge.
 */
module Edges {
  import opened JavaInt
  import opened Optional
  import opened Nodes

  /** graph.getVoisins: the neighbours the graph state `G` records for a node. */
  type Neighbours<!G> = (G, Handle) -> seq<Handle>

  /**
   * The duplicate-edge check of the add-edge handler as written: `b` among
   * the neighbours of `a`, or `b` among its own neighbours. The second test
   * looks for a self-loop rather than for the edge recorded from `b` to `a`.
   */
  function EdgeExistsAsWritten<G>(g: G, voisins: Neighbours<G>, a: Handle, b: Handle): (r: bool)
    ensures b in voisins(g, a) ==> r
    ensures r ==> EdgeExists(g, voisins, a, b) || b in voisins(g, b)
  {
    b in voisins(g, a) || b in voisins(g, b)
  }

  /** The duplicate-edge check the handler intends: an edge is recorded between `a` and `b` in either direction. */
  predicate EdgeExists<G>(g: G, voisins: Neighbours<G>, a: Handle, b: Handle) {
    b in voisins(g, a) || a in voisins(g, b)
  }

  lemma EdgeExistsEitherOrientation<G>(g: G, voisins: Neighbours<G>, a: Handle, b: Handle)
    ensures EdgeExists(g, voisins, a, b) <==> EdgeExists(g, voisins, b, a)
  {
  }

  /** With only the edge from node 2 to node 1 recorded, the check as written finds no edge between 1 and 2. */
  lemma AsWrittenMissesReverseEdge()
    ensures var voisins := (g: int, h: Handle) => if h == 2 then [1] else [];
            EdgeExists(0, voisins, 1, 2) && !EdgeExistsAsWritten(0, voisins, 1, 2)
  {
    var voisins := (g: int, h: Handle) => if h == 2 then [1] else [];
    assert voisins(0, 2) == [1];
    assert voisins(0, 1) == [];
  }

  /**
   * With symmetric adjacency where only node 2 has a self-loop, the check as
   * written reports an edge between 1 and 2 that does not exist.
   */
  lemma AsWrittenSeesSelfLoop()
    ensures var voisins := (g: int, h: Handle) => if h == 2 then [2] else [];
            !EdgeExists(0, voisins, 1, 2) && EdgeExistsAsWritten(0, voisins, 1, 2)
  {
    var voisins := (g: int, h: Handle) => if h == 2 then [2] else [];
    assert voisins(0, 2) == [2];
    assert voisins(0, 1) == [];
  }

  /** When adjacency is symmetric and `b` has no self-loop, the two checks give the same answer. */
  lemma AsWrittenAgreesOnSymmetricGraphs<G>(g: G, voisins: Neighbours<G>, a: Handle, b: Handle)
    requires b in voisins(g, a) <==> a in voisins(g, b)
    requires b !in voisins(g, b)
    ensures EdgeExistsAsWritten(g, voisins, a, b) <==> EdgeExists(g, voisins, a, b)
  {
  }

  /** The ids passed to graph.addEdge. */
  datatype Link = Link(from: Int32, to: Int32)

  /** The add-edge listener: the graph, its `node1` field, the addEdge calls so far, and whether it is registered. */
  datatype EdgeTool<G> = EdgeTool(graph: G, first: Option<Node>, links: seq<Link>, armed: bool)

  /** One iteration of the add-edge handler's loop. */
  function AddEdgeStep<G>(voisins: Neighbours<G>, link: (G, Int32, Int32) -> G,
                          hit: Node -> bool, t: EdgeTool<G>, n: Node): (r: EdgeTool<G>)
    ensures r.links != t.links ==>
              && t.first.Some? && hit(n) && n.handle != t.first.value.handle
              && !EdgeExists(t.graph, voisins, t.first.value.handle, n.handle)
              && r.links == t.links + [Link(t.first.value.id, n.id)]
    ensures (&& t.first.Some? && hit(n) && n.handle != t.first.value.handle
             && !EdgeExists(t.graph, voisins, t.first.value.handle, n.handle)) ==> r.links != t.links
    ensures r.links == t.links ==> r.graph == t.graph && r.armed == t.armed
    ensures r.links != t.links ==> !r.armed
  {
    if !hit(n) then t
    else if t.first.None? then t.(first := Some(n))
    else if n.handle == t.first.value.handle then t
    else if EdgeExists(t.graph, voisins, t.first.value.handle, n.handle) then t
    else EdgeTool(link(t.graph, t.first.value.id, n.id), t.first, t.links + [Link(t.first.value.id, n.id)], false)
  }

  /** The add-edge handler's loop over the node list for one click. */
  function ClickAddEdge<G>(voisins: Neighbours<G>, link: (G, Int32, Int32) -> G,
                           nodes: seq<Node>, hit: Node -> bool, t: EdgeTool<G>): (r: EdgeTool<G>)
    ensures t.first.Some? ==> r.first == t.first
    ensures |t.links| <= |r.links|
    ensures r.armed ==> t.armed
    decreases |nodes|
  {
    if |nodes| == 0 then t
    else ClickAddEdge(voisins, link, nodes[1..], hit, AddEdgeStep(voisins, link, hit, t, nodes[0]))
  }

  /** `node1` stays once set; while unset, the click's first hit becomes `node1`. */
  lemma {:induction false} ClickAddEdgeFirst<G>(voisins: Neighbours<G>, link: (G, Int32, Int32) -> G,
                                                nodes: seq<Node>, hit: Node -> bool, t: EdgeTool<G>)
    ensures t.first.Some? ==> ClickAddEdge(voisins, link, nodes, hit, t).first == t.first
    ensures t.first.None? && FirstMatch(nodes, hit).Some? ==>
              ClickAddEdge(voisins, link, nodes, hit, t).first == Some(nodes[FirstMatch(nodes, hit).value])
    ensures t.first.None? && FirstMatch(nodes, hit).None? ==>
              ClickAddEdge(voisins, link, nodes, hit, t) == t
    decreases |nodes|
  {
    if |nodes| > 0 {
      var t' := AddEdgeStep(voisins, link, hit, t, nodes[0]);
      ClickAddEdgeFirst(voisins, link, nodes[1..], hit, t');
    }
  }

  /**
   * Every addEdge call in `links` from position `from` on goes from `first`
   * to a node of `nodes` that `hit` selects and that is not `first`.
   */
  ghost predicate LinksFromFirst(links: seq<Link>, from: nat, first: Option<Node>, nodes: seq<Node>, hit: Node -> bool) {
    forall k :: from <= k < |links| ==>
      && first.Some? && links[k].from == first.value.id
      && exists i :: 0 <= i < |nodes| && hit(nodes[i]) && nodes[i].handle != first.value.handle && links[k].to == nodes[i].id
  }

  /**
   * Every addEdge call of a click goes from `node1` to a node under the
   * pointer other than `node1`; earlier calls are kept; the listener
   * unregisters itself exactly when some call was made.
   */
  lemma {:induction false} ClickAddEdgeLinks<G>(voisins: Neighbours<G>, link: (G, Int32, Int32) -> G,
                                                nodes: seq<Node>, hit: Node -> bool, t: EdgeTool<G>)
    ensures var r := ClickAddEdge(voisins, link, nodes, hit, t);
            |t.links| <= |r.links| && r.links[..|t.links|] == t.links
    ensures var r := ClickAddEdge(voisins, link, nodes, hit, t);
            LinksFromFirst(r.links, |t.links|, r.first, nodes, hit)
    ensures var r := ClickAddEdge(voisins, link, nodes, hit, t);
            r.armed <==> t.armed && |r.links| == |t.links|
    decreases |nodes|
  {
    if |nodes| > 0 {
      var rest := nodes[1..];
      var t' := AddEdgeStep(voisins, link, hit, t, nodes[0]);
      var r := ClickAddEdge(voisins, link, rest, hit, t');
      assert ClickAddEdge(voisins, link, nodes, hit, t) == r;
      ClickAddEdgeLinks(voisins, link, rest, hit, t');
      ClickAddEdgeFirst(voisins, link, rest, hit, t');
      assert r.links[..|t'.links|] == t'.links;
      assert r.links[..|t.links|] == t'.links[..|t.links|];
      forall k | |t.links| <= k < |r.links|
        ensures && r.first.Some? && r.links[k].from == r.first.value.id
                && exists i :: 0 <= i < |nodes| && hit(nodes[i]) &&
                               nodes[i].handle != r.first.value.handle && r.links[k].to == nodes[i].id
      {
        if k < |t'.links| {
          assert t'.links == t.links + [Link(t.first.value.id, nodes[0].id)];
          assert t'.first == t.first && r.first == t.first;
          assert r.links[k] == Link(t.first.value.id, nodes[0].id);
          assert hit(nodes[0]) && nodes[0].handle != r.first.value.handle;
        } else {
          var i :| 0 <= i < |rest| && hit(rest[i]) &&
                   rest[i].handle != r.first.value.handle && r.links[k].to == rest[i].id;
          assert nodes[i + 1] == rest[i];
        }
      }
      assert LinksFromFirst(r.links, |t.links|, r.first, nodes, hit);
    }
  }

  /** A click whose only hits are on `node1` itself changes nothing. */
  lemma {:induction false} ClickOnFirstIsIgnored<G>(voisins: Neighbours<G>, link: (G, Int32, Int32) -> G,
                                                    nodes: seq<Node>, hit: Node -> bool, t: EdgeTool<G>)
    requires t.first.Some?
    requires forall i :: 0 <= i < |nodes| && hit(nodes[i]) ==> nodes[i].handle == t.first.value.handle
    ensures ClickAddEdge(voisins, link, nodes, hit, t) == t
    decreases |nodes|
  {
    if |nodes| > 0 {
      assert AddEdgeStep(voisins, link, hit, t, nodes[0]) == t;
      assert forall i :: 0 <= i < |nodes| - 1 ==> nodes[1..][i] == nodes[i + 1];
      ClickOnFirstIsIgnored(voisins, link, nodes[1..], hit, t);
    }
  }

  /** The nodes passed to graph.removeEdge. */
  datatype Unlink = Unlink(from: Handle, to: Handle)

  /** The remove-edge listener: its `node1` field, the removeEdge calls so far, and whether it is registered. */
  datatype UnlinkTool = UnlinkTool(first: Option<Node>, unlinks: seq<Unlink>, armed: bool)

  /** One iteration of the remove-edge handler's loop. */
  function RemoveEdgeStep(hit: Node -> bool, t: UnlinkTool, n: Node): (r: UnlinkTool)
    ensures r.unlinks == t.unlinks ||
            (&& t.first.Some? && hit(n) && n.handle != t.first.value.handle
             && r.unlinks == t.unlinks + [Unlink(t.first.value.handle, n.handle)] && !r.armed)
    ensures (t.first.Some? && hit(n) && n.handle != t.first.value.handle) ==> r.unlinks != t.unlinks
    ensures r.unlinks == t.unlinks ==> r.armed == t.armed
  {
    if !hit(n) then t
    else if t.first.None? then t.(first := Some(n))
    else if n.handle != t.first.value.handle then
      UnlinkTool(t.first, t.unlinks + [Unlink(t.first.value.handle, n.handle)], false)
    else t
  }

  /** The remove-edge handler's loop over the node list for one click. */
  function ClickRemoveEdge(nodes: seq<Node>, hit: Node -> bool, t: UnlinkTool): (r: UnlinkTool)
    ensures t.first.Some? ==> r.first == t.first
    ensures |t.unlinks| <= |r.unlinks|
    ensures r.armed ==> t.armed
    decreases |nodes|
  {
    if |nodes| == 0 then t
    else ClickRemoveEdge(nodes[1..], hit, RemoveEdgeStep(hit, t, nodes[0]))
  }

  /** The removal requests from `f` to every other node under the pointer, in iteration order. */
  function Partners(nodes: seq<Node>, hit: Node -> bool, f: Node): (r: seq<Unlink>)
    ensures forall k :: 0 <= k < |r| ==>
              && r[k].from == f.handle && r[k].to != f.handle
              && exists i :: 0 <= i < |nodes| && hit(nodes[i]) && nodes[i].handle == r[k].to
    ensures |r| == 0 <==> forall i :: 0 <= i < |nodes| && hit(nodes[i]) ==> nodes[i].handle == f.handle
    decreases |nodes|
  {
    if |nodes| == 0 then []
    else
      var rest := Partners(nodes[1..], hit, f);
      assert forall i :: 0 <= i < |nodes| - 1 ==> nodes[1..][i] == nodes[i + 1];
      if hit(nodes[0]) && nodes[0].handle != f.handle then
        [Unlink(f.handle, nodes[0].handle)] + rest
      else rest
  }

  /** With `node1` set, a click asks to remove the edge from `node1` to every other node under the pointer. */
  lemma {:induction false} ClickRemoveEdgeFromFirst(nodes: seq<Node>, hit: Node -> bool, t: UnlinkTool)
    requires t.first.Some?
    ensures var ps := Partners(nodes, hit, t.first.value);
            ClickRemoveEdge(nodes, hit, t) == UnlinkTool(t.first, t.unlinks + ps, t.armed && ps == [])
    decreases |nodes|
  {
    if |nodes| > 0 {
      var t' := RemoveEdgeStep(hit, t, nodes[0]);
      ClickRemoveEdgeFromFirst(nodes[1..], hit, t');
      var ps := Partners(nodes[1..], hit, t.first.value);
      assert t'.unlinks + ps == t.unlinks + Partners(nodes, hit, t.first.value);
    }
  }

  /** With `node1` unset, the first hit of the click becomes `node1` and the later hits are its partners. */
  lemma {:induction false} ClickRemoveEdgeSetsFirst(nodes: seq<Node>, hit: Node -> bool, t: UnlinkTool)
    requires t.first.None?
    ensures FirstMatch(nodes, hit).None? ==> ClickRemoveEdge(nodes, hit, t) == t
    ensures FirstMatch(nodes, hit).Some? ==>
              var i := FirstMatch(nodes, hit).value;
              var ps := Partners(nodes[i + 1..], hit, nodes[i]);
              ClickRemoveEdge(nodes, hit, t) == UnlinkTool(Some(nodes[i]), t.unlinks + ps, t.armed && ps == [])
    decreases |nodes|
  {
    if |nodes| > 0 {
      var t' := RemoveEdgeStep(hit, t, nodes[0]);
      if hit(nodes[0]) {
        ClickRemoveEdgeFromFirst(nodes[1..], hit, t');
      } else {
        ClickRemoveEdgeSetsFirst(nodes[1..], hit, t);
        if FirstMatch(nodes, hit).Some? {
          var i := FirstMatch(nodes, hit).value;
          assert nodes[1..][i - 1 + 1..] == nodes[i + 1..];
        }
      }
    }
  }

}
