/**
 * The board air-wire builder: collects one net on one board into the
 * library builder, which is updated in place, with the anchor map and the
 * layer map threaded through each loop as values, and hands the graph to
 * the air-wire computation.
 * Each loop is proved to compute the functions of NetGraph, PlaneChain
 * and Collection.
 */
module BoardAirWires {
  import opened Wrappers
  import opened AirWires
  import opened BoardItems
  import opened NetGraph
  import opened PlaneChain
  import opened Collection

  type AnchorMap = map<AnchorRef, PointId>
  type LayerMap = map<PointId, Layer>

  ghost function StateOf(builder: AirWiresBuilder, anchorMap: AnchorMap, layerMap: LayerMap): Graph
    reads builder
  {
    Graph(builder.points, builder.edges, anchorMap, layerMap)
  }

  /** A step that may abort: `error` if it did, the graph if it did not. */
  ghost function Outcome(error: Option<BuildError>, g: Graph): Result<Graph, BuildError> {
    if error.Some? then Failure(error.value) else Success(g)
  }

  lemma RegisterCons(g: Graph, e: Entry, es: seq<Entry>)
    ensures Register(g, [e] + es) == Register(AddEntry(g, e), es)
  {
    assert ([e] + es)[1..] == es;
  }

  /** The pads of one component signal; pads on another board are skipped. */
  method RegisterPads(builder: AirWiresBuilder, pads: seq<Pad>, board: BoardId, anchorMap: AnchorMap, layerMap: LayerMap)
    returns (anchorMap': AnchorMap, layerMap': LayerMap)
    modifies builder
    ensures StateOf(builder, anchorMap', layerMap') ==
      Register(old(StateOf(builder, anchorMap, layerMap)), PadEntries(pads, board))
  {
    ghost var g0 := StateOf(builder, anchorMap, layerMap);
    anchorMap', layerMap' := anchorMap, layerMap;
    for j := 0 to |pads|
      invariant Register(g0, PadEntries(pads, board)) ==
        Register(StateOf(builder, anchorMap', layerMap'), PadEntries(pads[j..], board))
    {
      var pad := pads[j];
      assert pads[j..][1..] == pads[j + 1..];
      if pad.board != board {
        assert PadEntries(pads[j..], board) == PadEntries(pads[j + 1..], board);
        continue;
      }
      ghost var before := StateOf(builder, anchorMap', layerMap');
      assert PadEntries(pads[j..], board) == [PadEntry(pad)] + PadEntries(pads[j + 1..], board);
      var id := builder.AddPoint(pad.position);
      anchorMap' := anchorMap'[pad.Anchor() := id];
      if pad.side == Tht {
        layerMap' := layerMap'[id := None];
      } else {
        layerMap' := layerMap'[id := Some(pad.layerName)];
      }
      assert StateOf(builder, anchorMap', layerMap') == AddEntry(before, PadEntry(pad));
      RegisterCons(before, PadEntry(pad), PadEntries(pads[j + 1..], board));
    }
  }

  method CollectPads(
    builder: AirWiresBuilder, sigs: seq<ComponentSignal>, board: BoardId,
    anchorMap: AnchorMap, layerMap: LayerMap)
    returns (anchorMap': AnchorMap, layerMap': LayerMap)
    modifies builder
    ensures StateOf(builder, anchorMap', layerMap') ==
      Register(old(StateOf(builder, anchorMap, layerMap)), SignalPadEntries(sigs, board))
  {
    ghost var g0 := StateOf(builder, anchorMap, layerMap);
    anchorMap', layerMap' := anchorMap, layerMap;
    for i := 0 to |sigs|
      invariant Register(g0, SignalPadEntries(sigs, board)) ==
        Register(StateOf(builder, anchorMap', layerMap'), SignalPadEntries(sigs[i..], board))
    {
      assert sigs[i..][1..] == sigs[i + 1..];
      RegisterAppend(StateOf(builder, anchorMap', layerMap'),
                     PadEntries(sigs[i].pads, board), SignalPadEntries(sigs[i + 1..], board));
      anchorMap', layerMap' := RegisterPads(builder, sigs[i].pads, board, anchorMap', layerMap');
    }
  }

  /** Every via goes on all layers. */
  method RegisterVias(builder: AirWiresBuilder, vias: seq<Via>, anchorMap: AnchorMap, layerMap: LayerMap)
    returns (anchorMap': AnchorMap, layerMap': LayerMap)
    modifies builder
    ensures StateOf(builder, anchorMap', layerMap') ==
      Register(old(StateOf(builder, anchorMap, layerMap)), ViaEntries(vias))
  {
    ghost var g0 := StateOf(builder, anchorMap, layerMap);
    anchorMap', layerMap' := anchorMap, layerMap;
    for j := 0 to |vias|
      invariant Register(g0, ViaEntries(vias)) ==
        Register(StateOf(builder, anchorMap', layerMap'), ViaEntries(vias[j..]))
    {
      var via := vias[j];
      assert vias[j..][1..] == vias[j + 1..];
      var id := builder.AddPoint(via.position);
      anchorMap' := anchorMap'[via.Anchor() := id];
      layerMap' := layerMap'[id := None];
    }
  }

  /** Net points without a layer of lines are skipped. */
  method RegisterNetPoints(builder: AirWiresBuilder, nps: seq<NetPoint>, anchorMap: AnchorMap, layerMap: LayerMap)
    returns (anchorMap': AnchorMap, layerMap': LayerMap)
    modifies builder
    ensures StateOf(builder, anchorMap', layerMap') ==
      Register(old(StateOf(builder, anchorMap, layerMap)), NetPointEntries(nps))
  {
    ghost var g0 := StateOf(builder, anchorMap, layerMap);
    anchorMap', layerMap' := anchorMap, layerMap;
    for j := 0 to |nps|
      invariant Register(g0, NetPointEntries(nps)) ==
        Register(StateOf(builder, anchorMap', layerMap'), NetPointEntries(nps[j..]))
    {
      var np := nps[j];
      assert nps[j..][1..] == nps[j + 1..];
      if np.layerOfLines.Some? {
        ghost var before := StateOf(builder, anchorMap', layerMap');
        ghost var e := Entry(np.Anchor(), np.position, np.layerOfLines);
        assert NetPointEntries(nps[j..]) == [e] + NetPointEntries(nps[j + 1..]);
        var id := builder.AddPoint(np.position);
        anchorMap' := anchorMap'[np.Anchor() := id];
        layerMap' := layerMap'[id := np.layerOfLines];
        assert StateOf(builder, anchorMap', layerMap') == AddEntry(before, e);
        RegisterCons(before, e, NetPointEntries(nps[j + 1..]));
      } else {
        assert NetPointEntries(nps[j..]) == NetPointEntries(nps[j + 1..]);
      }
    }
  }

  /** Joins the anchors of each net line; aborts at the first unmapped anchor. */
  method ConnectNetLines(builder: AirWiresBuilder, lines: seq<NetLine>, anchorMap: AnchorMap, layerMap: LayerMap)
    returns (error: Option<BuildError>)
    modifies builder
    ensures Outcome(error, StateOf(builder, anchorMap, layerMap)) ==
      AddNetLines(old(StateOf(builder, anchorMap, layerMap)), lines)
  {
    ghost var g0 := StateOf(builder, anchorMap, layerMap);
    for k := 0 to |lines|
      invariant AddNetLines(g0, lines) == AddNetLines(StateOf(builder, anchorMap, layerMap), lines[k..])
    {
      var line := lines[k];
      assert lines[k..][1..] == lines[k + 1..];
      if line.startPoint !in anchorMap {
        return Some(UnregisteredAnchor(line.startPoint));
      }
      if line.endPoint !in anchorMap {
        return Some(UnregisteredAnchor(line.endPoint));
      }
      builder.AddEdge(anchorMap[line.startPoint], anchorMap[line.endPoint]);
    }
    return None;
  }

  /** One net segment: skipped on another board, else vias, net points, net lines. */
  method ProcessSegment(
    builder: AirWiresBuilder, seg: NetSegment, board: BoardId,
    anchorMap: AnchorMap, layerMap: LayerMap)
    returns (error: Option<BuildError>, anchorMap': AnchorMap, layerMap': LayerMap)
    modifies builder
    ensures Outcome(error, StateOf(builder, anchorMap', layerMap')) ==
      CollectSegment(old(StateOf(builder, anchorMap, layerMap)), seg, board)
  {
    anchorMap', layerMap' := anchorMap, layerMap;
    if seg.board != board {
      return None, anchorMap', layerMap';
    }
    anchorMap', layerMap' := RegisterVias(builder, seg.vias, anchorMap', layerMap');
    anchorMap', layerMap' := RegisterNetPoints(builder, seg.netPoints, anchorMap', layerMap');
    error := ConnectNetLines(builder, seg.netLines, anchorMap', layerMap');
  }

  method ProcessSegments(
    builder: AirWiresBuilder, segs: seq<NetSegment>, board: BoardId,
    anchorMap: AnchorMap, layerMap: LayerMap)
    returns (error: Option<BuildError>, anchorMap': AnchorMap, layerMap': LayerMap)
    modifies builder
    ensures Outcome(error, StateOf(builder, anchorMap', layerMap')) ==
      CollectSegments(old(StateOf(builder, anchorMap, layerMap)), segs, board)
  {
    ghost var g0 := StateOf(builder, anchorMap, layerMap);
    anchorMap', layerMap' := anchorMap, layerMap;
    for i := 0 to |segs|
      invariant CollectSegments(g0, segs, board) ==
        CollectSegments(StateOf(builder, anchorMap', layerMap'), segs[i..], board)
    {
      assert segs[i..][1..] == segs[i + 1..];
      error, anchorMap', layerMap' := ProcessSegment(builder, segs[i], board, anchorMap', layerMap');
      if error.Some? {
        return;
      }
    }
    error := None;
  }

  /**
   * Scans the points in builder order and joins each point that is
   * layer-compatible with the plane and inside the fragment to the
   * previous such point.
   */
  method ConnectFragment(
    builder: AirWiresBuilder, layerMap: LayerMap, planeLayer: string,
    frag: Fragment, contains: (Fragment, Point) -> bool)
    requires LayersCover(builder.points, layerMap)
    modifies builder
    ensures builder.points == old(builder.points)
    ensures builder.edges == old(builder.edges) + FragmentEdges(builder.points, layerMap, planeLayer, frag, contains)
  {
    var points := builder.points;
    var lastId: int := -1;
    for i := 0 to |points|
      invariant builder.points == points
      invariant builder.edges == old(builder.edges) + Chain(Qualifying(points, layerMap, planeLayer, frag, contains, i))
      invariant var q := Qualifying(points, layerMap, planeLayer, frag, contains, i);
        if q == [] then lastId == -1 else lastId == q[|q| - 1]
    {
      ghost var q := Qualifying(points, layerMap, planeLayer, frag, contains, i);
      var pointLayer := layerMap[i];
      if (pointLayer.None? || pointLayer.value == planeLayer) && contains(frag, points[i]) {
        assert Qualifies(points, layerMap, planeLayer, frag, contains, i);
        assert Qualifying(points, layerMap, planeLayer, frag, contains, i + 1) == q + [i];
        assert (q + [i])[..|q|] == q;
        if lastId >= 0 {
          assert Chain(q + [i]) == Chain(q) + [Edge(lastId, i)];
          builder.AddEdge(lastId, i);
          assert builder.edges == old(builder.edges) + (Chain(q) + [Edge(lastId, i)]);
        } else {
          assert Chain(q + [i]) == [];
        }
        lastId := i;
      } else {
        assert !Qualifies(points, layerMap, planeLayer, frag, contains, i);
        assert Qualifying(points, layerMap, planeLayer, frag, contains, i + 1) == q;
      }
    }
  }

  method ConnectPlane(
    builder: AirWiresBuilder, layerMap: LayerMap, plane: Plane, contains: (Fragment, Point) -> bool)
    requires LayersCover(builder.points, layerMap)
    modifies builder
    ensures builder.points == old(builder.points)
    ensures builder.edges == old(builder.edges) +
      FragmentsEdges(builder.points, layerMap, plane.layerName, plane.fragments, contains)
  {
    var points := builder.points;
    var frags := plane.fragments;
    ghost var start := builder.edges;
    ghost var total := FragmentsEdges(points, layerMap, plane.layerName, frags, contains);
    FragmentsEdgesEnds(points, layerMap, plane.layerName, frags, contains);
    for j := 0 to |frags|
      invariant builder.points == points && LayersCover(points, layerMap)
      invariant start + total == builder.edges + FragmentsEdges(points, layerMap, plane.layerName, frags[j..], contains)
    {
      FragmentsEdgesStep(points, layerMap, plane.layerName, frags, contains, j, builder.edges);
      ConnectFragment(builder, layerMap, plane.layerName, frags[j], contains);
    }
  }

  method ConnectPlanes(
    builder: AirWiresBuilder, layerMap: LayerMap, planes: seq<Plane>, board: BoardId,
    contains: (Fragment, Point) -> bool)
    requires LayersCover(builder.points, layerMap)
    modifies builder
    ensures builder.points == old(builder.points)
    ensures builder.edges == old(builder.edges) + PlanesEdges(builder.points, layerMap, planes, board, contains)
  {
    var points := builder.points;
    ghost var start := builder.edges;
    ghost var total := PlanesEdges(points, layerMap, planes, board, contains);
    PlanesEdgesEnds(points, layerMap, planes, board, contains);
    for i := 0 to |planes|
      invariant builder.points == points && LayersCover(points, layerMap)
      invariant start + total == builder.edges + PlanesEdges(points, layerMap, planes[i..], board, contains)
    {
      PlanesEdgesStep(points, layerMap, planes, board, contains, i, builder.edges);
      if planes[i].board == board {
        ConnectPlane(builder, layerMap, planes[i], contains);
      }
    }
  }

  /**
   * Builds the air wires of `net` on `board`: the collected graph is
   * handed to `airWires`, the library's air-wire computation. The build
   * aborts when a net line ends at an anchor without a point.
   */
  method BuildAirWires(
    board: BoardId, net: NetSignal, contains: (Fragment, Point) -> bool,
    airWires: (seq<Point>, seq<Edge>) -> seq<AirWire>)
    returns (r: Result<seq<AirWire>, BuildError>)
    ensures r.Failure? <==> Collect(board, net, contains).Failure?
    ensures r.Failure? ==> r.error == Collect(board, net, contains).error
    ensures r.Success? ==>
      var g := Collect(board, net, contains).value;
      r.value == airWires(g.points, g.edges)
  {
    var builder := new AirWiresBuilder();
    var anchorMap: AnchorMap := map[];
    var layerMap: LayerMap := map[];
    assert StateOf(builder, anchorMap, layerMap) == Empty;
    anchorMap, layerMap := CollectPads(builder, net.componentSignals, board, anchorMap, layerMap);
    var error;
    error, anchorMap, layerMap := ProcessSegments(builder, net.boardNetSegments, board, anchorMap, layerMap);
    if error.Some? {
      return Failure(error.value);
    }
    ConnectPlanes(builder, layerMap, net.boardPlanes, board, contains);
    return Success(airWires(builder.points, builder.edges));
  }
}
