/**
 * The start and end markers of the shortest-path query: the set-start and
 * set-end clicks, and the guard of the shortest-path command.
 *
 * Both click handlers scan the whole node list without stopping: every node
 * under the pointer that is not the other marker overwrites the marker, so
 * the last such node in iteration order wins. The listener unregisters itself
 * once some node was taken; a click that takes none leaves it armed.
 */
module Markers {
  import opened Optional
  import opened Nodes

  /** graph.startNode and graph.endNode, as node identities. */
  datatype Markers = Markers(start: Option<Handle>, end: Option<Handle>)

  /** The two markers never designate the same node. */
  predicate Apart(m: Markers) {
    m.start.None? || m.start != m.end
  }

  /** A node the scan takes: under the pointer and not the other marker. */
  predicate Eligible(n: Node, hit: Node -> bool, other: Option<Handle>) {
    hit(n) && Some(n.handle) != other
  }

  /** `nodes[i]` is eligible and no later node is. */
  predicate LastEligible(nodes: seq<Node>, i: int, hit: Node -> bool, other: Option<Handle>) {
    && 0 <= i < |nodes|
    && Eligible(nodes[i], hit, other)
    && forall j :: i < j < |nodes| ==> !Eligible(nodes[j], hit, other)
  }

  /** The state the scan updates: the marker and whether the listener is still registered. */
  datatype Pick = Pick(marker: Option<Handle>, armed: bool)

  /** The handler's loop: each eligible node overwrites the marker and unregisters the listener. */
  function ScanMarker(nodes: seq<Node>, hit: Node -> bool, other: Option<Handle>, p: Pick): (r: Pick)
    ensures r.marker == p.marker || (r.marker.Some? && r.marker != other && !r.armed)
    ensures r.armed ==> p.armed
    decreases |nodes|
  {
    if |nodes| == 0 then p
    else
      var p' := if Eligible(nodes[0], hit, other) then Pick(Some(nodes[0].handle), false) else p;
      ScanMarker(nodes[1..], hit, other, p')
  }

  lemma {:induction false} ScanMarkerLastWins(nodes: seq<Node>, hit: Node -> bool, other: Option<Handle>, p: Pick)
    ensures (forall i :: 0 <= i < |nodes| ==> !Eligible(nodes[i], hit, other)) ==>
              ScanMarker(nodes, hit, other, p) == p
    ensures forall i :: LastEligible(nodes, i, hit, other) ==>
              ScanMarker(nodes, hit, other, p) == Pick(Some(nodes[i].handle), false)
    ensures var r := ScanMarker(nodes, hit, other, p);
            r.marker == p.marker ||
            exists i :: 0 <= i < |nodes| && Eligible(nodes[i], hit, other) && r.marker == Some(nodes[i].handle)
    ensures ScanMarker(nodes, hit, other, p).armed <==>
              p.armed && forall i :: 0 <= i < |nodes| ==> !Eligible(nodes[i], hit, other)
    decreases |nodes|
  {
    if |nodes| > 0 {
      var rest := nodes[1..];
      var p' := if Eligible(nodes[0], hit, other) then Pick(Some(nodes[0].handle), false) else p;
      ScanMarkerLastWins(rest, hit, other, p');
      assert forall j :: 0 <= j < |rest| ==> rest[j] == nodes[j + 1];
      forall i | LastEligible(nodes, i, hit, other)
        ensures ScanMarker(nodes, hit, other, p) == Pick(Some(nodes[i].handle), false)
      {
        if i == 0 {
          assert forall j :: 0 <= j < |rest| ==> !Eligible(rest[j], hit, other);
        } else {
          assert LastEligible(rest, i - 1, hit, other);
        }
      }
    }
  }

  /** The outcome of one click in a marker mode: the markers, and whether the listener is still registered. */
  datatype MarkerClick = MarkerClick(markers: Markers, armed: bool)

  /** setStartNode's click handler: take a node under the pointer that is not the end marker. */
  function ClickStart(m: Markers, nodes: seq<Node>, hit: Node -> bool): (r: MarkerClick)
    ensures r.markers.end == m.end
    ensures r.armed <==> forall i :: 0 <= i < |nodes| ==> !Eligible(nodes[i], hit, m.end)
    ensures r.armed ==> r.markers == m
    ensures forall i :: LastEligible(nodes, i, hit, m.end) ==> r.markers.start == Some(nodes[i].handle)
    ensures r.markers.start == m.start ||
            exists i :: 0 <= i < |nodes| && Eligible(nodes[i], hit, m.end) && r.markers.start == Some(nodes[i].handle)
    ensures r.markers.start != m.start ==> r.markers.start != m.end
    ensures Apart(m) ==> Apart(r.markers)
  {
    var p := ScanMarker(nodes, hit, m.end, Pick(m.start, true));
    ScanMarkerLastWins(nodes, hit, m.end, Pick(m.start, true));
    MarkerClick(m.(start := p.marker), p.armed)
  }

  /** setEndNode's click handler: take a node under the pointer that is not the start marker. */
  function ClickEnd(m: Markers, nodes: seq<Node>, hit: Node -> bool): (r: MarkerClick)
    ensures r.markers.start == m.start
    ensures r.armed <==> forall i :: 0 <= i < |nodes| ==> !Eligible(nodes[i], hit, m.start)
    ensures r.armed ==> r.markers == m
    ensures forall i :: LastEligible(nodes, i, hit, m.start) ==> r.markers.end == Some(nodes[i].handle)
    ensures r.markers.end == m.end ||
            exists i :: 0 <= i < |nodes| && Eligible(nodes[i], hit, m.start) && r.markers.end == Some(nodes[i].handle)
    ensures r.markers.end != m.end ==> r.markers.end != m.start
    ensures Apart(m) ==> Apart(r.markers)
  {
    var p := ScanMarker(nodes, hit, m.start, Pick(m.end, true));
    ScanMarkerLastWins(nodes, hit, m.start, Pick(m.end, true));
    MarkerClick(m.(end := p.marker), p.armed)
  }

  /** A click in set-start or set-end mode, given by the nodes it is on (`Under` at the click position). */
  datatype MarkerCommand = StartAt(hit: Node -> bool) | EndAt(hit: Node -> bool)

  /** The markers after a run of marker clicks on the same node list. */
  function RunMarkers(m: Markers, nodes: seq<Node>, cmds: seq<MarkerCommand>): Markers
    decreases |cmds|
  {
    if |cmds| == 0 then m
    else
      var c := match cmds[0]
        case StartAt(hit) => ClickStart(m, nodes, hit)
        case EndAt(hit) => ClickEnd(m, nodes, hit);
      RunMarkers(c.markers, nodes, cmds[1..])
  }

  lemma {:induction false} RunMarkersKeepsApart(m: Markers, nodes: seq<Node>, cmds: seq<MarkerCommand>)
    requires Apart(m)
    ensures Apart(RunMarkers(m, nodes, cmds))
    decreases |cmds|
  {
    if |cmds| > 0 {
      var c := match cmds[0]
        case StartAt(hit) => ClickStart(m, nodes, hit)
        case EndAt(hit) => ClickEnd(m, nodes, hit);
      RunMarkersKeepsApart(c.markers, nodes, cmds[1..]);
    }
  }

  /** getShortestPath's guard: the query's endpoints, present only when both markers are set. */
  function PathRequest(m: Markers): (r: Option<(Handle, Handle)>)
    ensures r.Some? <==> m.start.Some? && m.end.Some?
    ensures r.Some? ==> Some(r.value.0) == m.start && Some(r.value.1) == m.end
    ensures r.Some? && Apart(m) ==> r.value.0 != r.value.1
  {
    if m.start.Some? && m.end.Some? then Some((m.start.value, m.end.value)) else None
  }

  /**
   * The shortest-path command: the path shown afterwards. `shortest` stands
   * for graph.shortestPath (None for a null result); without both markers
   * the shown path is kept.
   */
  function ShowShortestPath(m: Markers, shown: Option<seq<Handle>>,
                            shortest: (Handle, Handle) -> Option<seq<Handle>>): (r: Option<seq<Handle>>)
    ensures m.start.None? || m.end.None? ==> r == shown
    ensures m.start.Some? && m.end.Some? ==> r == shortest(m.start.value, m.end.value)
  {
    match PathRequest(m)
    case None => shown
    case Some((s, e)) => shortest(s, e)
  }

  /** Starting with no markers, however the markers are clicked, a shortest-path query never joins a node to itself. */
  lemma QueryEndpointsDiffer(nodes: seq<Node>, cmds: seq<MarkerCommand>)
    ensures var req := PathRequest(RunMarkers(Markers(None, None), nodes, cmds));
            req.Some? ==> req.value.0 != req.value.1
  {
    RunMarkersKeepsApart(Markers(None, None), nodes, cmds);
  }

}
