/**
 * The whole collection for one net on one board: pads, then the net
 * segments (vias, net points, net lines), then the planes. The results
 * below are stated about this value; the methods in BoardAirWires compute
 * it step by step.
 */
module Collection {
  import opened Wrappers
  import opened AirWires
  import opened BoardItems
  import opened NetGraph
  import opened PlaneChain

  /** Everything that gets a point, in registration order. */
  function AllEntries(board: BoardId, net: NetSignal): seq<Entry> {
    SignalPadEntries(net.componentSignals, board) + SegmentsEntries(net.boardNetSegments, board)
  }

  function Collect(board: BoardId, net: NetSignal, contains: (Fragment, Point) -> bool): Result<Graph, BuildError> {
    var withPads := Register(Empty, SignalPadEntries(net.componentSignals, board));
    match CollectSegments(withPads, net.boardNetSegments, board)
    case Failure(e) => Failure(e)
    case Success(g) =>
      Success(g.(edges := g.edges + PlanesEdges(g.points, g.layers, net.boardPlanes, board, contains)))
  }

  /**
   * A successful collection has one point per entry, in order, at the
   * entry's position and with its layer; the anchor map holds exactly the
   * entries' anchors, each (unless registered again later) mapped to its
   * own point; every id has a layer and every edge joins existing points.
   * The plane pass comes last and its edges are those of the final points.
   */
  lemma CollectRegisters(board: BoardId, net: NetSignal, contains: (Fragment, Point) -> bool)
    requires Collect(board, net, contains).Success?
    ensures var g := Collect(board, net, contains).value;
      var es := AllEntries(board, net);
      && Valid(g)
      && |g.points| == |es|
      && (forall k | 0 <= k < |es| :: g.points[k] == es[k].pos)
      && (forall id: PointId | id < |es| :: g.layers[id] == es[id].layer)
      && (forall a :: a in g.anchors <==> a in AnchorsOf(es))
      && (forall k | 0 <= k < |es| && LastOfAnchor(es, k) :: g.anchors[es[k].anchor] == k)
      && (var pe := PlanesEdges(g.points, g.layers, net.boardPlanes, board, contains);
          |pe| <= |g.edges| && g.edges[|g.edges| - |pe|..] == pe)
  {
    var g := Collect(board, net, contains).value;
    var reg := Register(Empty, AllEntries(board, net));
    CollectIsRegister(board, net, contains);
    RegisterFromEmpty(AllEntries(board, net));
    CollectValid(board, net, contains);
    assert g.points == reg.points && g.layers == reg.layers && g.anchors == reg.anchors;
  }

  /** Every id of a successful build has a layer, and anchors and edges refer to existing points. */
  lemma CollectValid(board: BoardId, net: NetSignal, contains: (Fragment, Point) -> bool)
    requires Collect(board, net, contains).Success?
    ensures Valid(Collect(board, net, contains).value)
  {
    var withPads := Register(Empty, SignalPadEntries(net.componentSignals, board));
    var gs := CollectSegments(withPads, net.boardNetSegments, board).value;
    assert Valid(Empty);
    assert Valid(gs);
    PlanesEdgesInRange(gs.points, gs.layers, net.boardPlanes, board, contains);
  }

  /**
   * Apart from its edges, a successful collection is the registration of
   * all entries. It has one edge per net line of a segment on this board,
   * followed by the plane edges.
   */
  lemma CollectIsRegister(board: BoardId, net: NetSignal, contains: (Fragment, Point) -> bool)
    requires Collect(board, net, contains).Success?
    ensures var g := Collect(board, net, contains).value;
      && g == Register(Empty, AllEntries(board, net)).(edges := g.edges)
      && var pe := PlanesEdges(g.points, g.layers, net.boardPlanes, board, contains);
         && |g.edges| == |SegmentsLines(net.boardNetSegments, board)| + |pe|
         && g.edges[|g.edges| - |pe|..] == pe
  {
    var pads := SignalPadEntries(net.componentSignals, board);
    var segs := SegmentsEntries(net.boardNetSegments, board);
    var withPads := Register(Empty, pads);
    var gs := CollectSegments(withPads, net.boardNetSegments, board).value;
    var g := Collect(board, net, contains).value;
    assert withPads.edges == [] by {
      RegisterPoints(Empty, pads);
    }
    CollectSegmentsRegisters(withPads, net.boardNetSegments, board);
    RegisterAppend(Empty, pads, segs);
    var pe := PlanesEdges(g.points, g.layers, net.boardPlanes, board, contains);
    assert g.edges == gs.edges + pe;
    assert g.edges[|g.edges| - |pe|..] == pe;
  }

  /**
   * With distinct anchors, the first edges of a successful build are the
   * net lines of the segments on this board, one per line and in order,
   * each joining the points of the line's two anchors.
   */
  lemma CollectNetLineEdges(board: BoardId, net: NetSignal, contains: (Fragment, Point) -> bool)
    requires Collect(board, net, contains).Success?
    requires DistinctAnchors(AllEntries(board, net))
    ensures var g := Collect(board, net, contains).value;
      var lines := SegmentsLines(net.boardNetSegments, board);
      && |lines| <= |g.edges|
      && forall k | 0 <= k < |lines| ::
           && lines[k].startPoint in g.anchors && lines[k].endPoint in g.anchors
           && g.edges[k] == Edge(g.anchors[lines[k].startPoint], g.anchors[lines[k].endPoint])
  {
    var pads := SignalPadEntries(net.componentSignals, board);
    var segs := SegmentsEntries(net.boardNetSegments, board);
    var withPads := Register(Empty, pads);
    var gs := CollectSegments(withPads, net.boardNetSegments, board).value;
    var g := Collect(board, net, contains).value;
    var lines := SegmentsLines(net.boardNetSegments, board);
    assert withPads.edges == [] by {
      RegisterPoints(Empty, pads);
    }
    assert DistinctAnchors(segs) && AnchorsOf(pads) !! AnchorsOf(segs) by {
      DistinctAnchorsAppend(pads, segs);
    }
    assert forall a :: a in withPads.anchors <==> a in AnchorsOf(pads) by {
      RegisterAnchors(Empty, pads);
    }
    CollectSegmentsLineEdges(withPads, net.boardNetSegments, board);
    assert g.anchors == gs.anchors;
    assert g.edges[..|gs.edges|] == gs.edges;
    forall k | 0 <= k < |lines|
      ensures g.edges[k] == Edge(g.anchors[lines[k].startPoint], g.anchors[lines[k].endPoint])
    {
      assert g.edges[k] == g.edges[..|gs.edges|][k];
    }
  }

  /**
   * With distinct anchors, each net line of a segment on this board joins
   * the points of its two anchors in the final graph.
   */
  lemma CollectNetLineEdge(board: BoardId, net: NetSignal, contains: (Fragment, Point) -> bool, i: nat, k: nat)
    requires Collect(board, net, contains).Success?
    requires DistinctAnchors(AllEntries(board, net))
    requires i < |net.boardNetSegments| && net.boardNetSegments[i].board == board
    requires k < |net.boardNetSegments[i].netLines|
    ensures var g := Collect(board, net, contains).value;
      var line := net.boardNetSegments[i].netLines[k];
      && line.startPoint in g.anchors && line.endPoint in g.anchors
      && Edge(g.anchors[line.startPoint], g.anchors[line.endPoint]) in g.edges
  {
    var lines := SegmentsLines(net.boardNetSegments, board);
    CollectNetLineEdges(board, net, contains);
    SegmentsLinesMembers(net.boardNetSegments, board);
    assert net.boardNetSegments[i].netLines[k] in lines;
    var m :| 0 <= m < |lines| && lines[m] == net.boardNetSegments[i].netLines[k];
  }

  /**
   * The build succeeds iff every net line of a segment on this board ends
   * at pads on this board or at anchors its own or an earlier segment
   * registers: an anchor registered only later, or nowhere, fails it.
   */
  lemma CollectSucceeds(board: BoardId, net: NetSignal, contains: (Fragment, Point) -> bool)
    ensures Collect(board, net, contains).Success? <==>
      var segs := net.boardNetSegments;
      var padAnchors := AnchorsOf(SignalPadEntries(net.componentSignals, board));
      forall i, k | 0 <= i < |segs| && segs[i].board == board && 0 <= k < |segs[i].netLines| ::
        && (segs[i].netLines[k].startPoint in padAnchors ||
            segs[i].netLines[k].startPoint in AnchorsOf(SegmentsEntries(segs[..i + 1], board)))
        && (segs[i].netLines[k].endPoint in padAnchors ||
            segs[i].netLines[k].endPoint in AnchorsOf(SegmentsEntries(segs[..i + 1], board)))
  {
    var pads := SignalPadEntries(net.componentSignals, board);
    var withPads := Register(Empty, pads);
    assert forall a :: a in withPads.anchors <==> a in AnchorsOf(pads) by {
      RegisterAnchorsDomain(Empty, pads);
    }
    CollectSegmentsSuccess(withPads, net.boardNetSegments, board);
  }

  /**
   * An anchor gets a point iff it is a pad on this board, a via of a net
   * segment on this board, or a net point with a layer of lines of such a
   * segment.
   */
  lemma CollectAnchors(board: BoardId, net: NetSignal, contains: (Fragment, Point) -> bool)
    requires Collect(board, net, contains).Success?
    ensures forall a :: a in Collect(board, net, contains).value.anchors <==>
      || (exists i, j | 0 <= i < |net.componentSignals| && 0 <= j < |net.componentSignals[i].pads| ::
            net.componentSignals[i].pads[j].board == board && a == net.componentSignals[i].pads[j].Anchor())
      || (exists i, j | 0 <= i < |net.boardNetSegments| && 0 <= j < |net.boardNetSegments[i].vias| ::
            net.boardNetSegments[i].board == board && a == net.boardNetSegments[i].vias[j].Anchor())
      || (exists i, j | 0 <= i < |net.boardNetSegments| && 0 <= j < |net.boardNetSegments[i].netPoints| ::
            net.boardNetSegments[i].board == board && net.boardNetSegments[i].netPoints[j].layerOfLines.Some? &&
            a == net.boardNetSegments[i].netPoints[j].Anchor())
  {
    var g := Collect(board, net, contains).value;
    var sigs := net.componentSignals;
    var segs := net.boardNetSegments;
    var es := AllEntries(board, net);
    CollectRegisters(board, net, contains);
    forall a | a in g.anchors
      ensures
        || (exists i, j | 0 <= i < |sigs| && 0 <= j < |sigs[i].pads| ::
              sigs[i].pads[j].board == board && a == sigs[i].pads[j].Anchor())
        || (exists i, j | 0 <= i < |segs| && 0 <= j < |segs[i].vias| ::
              segs[i].board == board && a == segs[i].vias[j].Anchor())
        || (exists i, j | 0 <= i < |segs| && 0 <= j < |segs[i].netPoints| ::
              segs[i].board == board && segs[i].netPoints[j].layerOfLines.Some? && a == segs[i].netPoints[j].Anchor())
    {
      var e :| e in es && e.anchor == a;
      EntryOrigin(board, net, e);
    }
    forall i, j | 0 <= i < |sigs| && 0 <= j < |sigs[i].pads| && sigs[i].pads[j].board == board
      ensures sigs[i].pads[j].Anchor() in g.anchors
    {
      PadEntryIn(board, net, i, j);
      AnchorOfEntry(es, PadEntry(sigs[i].pads[j]));
    }
    forall i, j | 0 <= i < |segs| && 0 <= j < |segs[i].vias| && segs[i].board == board
      ensures segs[i].vias[j].Anchor() in g.anchors
    {
      ViaEntryIn(board, net, i, j);
      AnchorOfEntry(es, Entry(segs[i].vias[j].Anchor(), segs[i].vias[j].position, None));
    }
    forall i, j | 0 <= i < |segs| && 0 <= j < |segs[i].netPoints| && segs[i].board == board &&
                  segs[i].netPoints[j].layerOfLines.Some?
      ensures segs[i].netPoints[j].Anchor() in g.anchors
    {
      var np := segs[i].netPoints[j];
      NetPointEntryIn(board, net, i, j);
      AnchorOfEntry(es, Entry(np.Anchor(), np.position, np.layerOfLines));
    }
  }

  /** When every pad, via and net point is a distinct item, no anchor is registered twice. */
  lemma UniqueItemsDistinct(board: BoardId, net: NetSignal)
    requires UniqueItems(net)
    ensures DistinctAnchors(AllEntries(board, net))
  {
    var pads := SignalPadEntries(net.componentSignals, board);
    var segs := SegmentsEntries(net.boardNetSegments, board);
    SignalPadEntriesDistinct(net.componentSignals, board);
    SegmentsEntriesDistinct(net.boardNetSegments, board);
    assert AnchorsOf(pads) !! AnchorsOf(segs) by {
      SignalPadEntriesMembers(net.componentSignals, board);
      forall x | x in AnchorsOf(pads) ensures x.PadAnchor? {
        var e :| e in pads && e.anchor == x;
      }
      SegmentsAnchorsNotPads(net.boardNetSegments, board);
    }
    DistinctAnchorsAppend(pads, segs);
  }

  /** Each entry stems from a pad on this board, or a via or net point with a layer of a segment on it. */
  lemma EntryOrigin(board: BoardId, net: NetSignal, e: Entry)
    requires e in AllEntries(board, net)
    ensures var sigs := net.componentSignals; var segs := net.boardNetSegments;
      || (exists i, j | 0 <= i < |sigs| && 0 <= j < |sigs[i].pads| ::
            sigs[i].pads[j].board == board && e.anchor == sigs[i].pads[j].Anchor())
      || (exists i, j | 0 <= i < |segs| && 0 <= j < |segs[i].vias| ::
            segs[i].board == board && e.anchor == segs[i].vias[j].Anchor())
      || (exists i, j | 0 <= i < |segs| && 0 <= j < |segs[i].netPoints| ::
            segs[i].board == board && segs[i].netPoints[j].layerOfLines.Some? && e.anchor == segs[i].netPoints[j].Anchor())
  {
    var sigs := net.componentSignals;
    var segs := net.boardNetSegments;
    if e in SignalPadEntries(sigs, board) {
      SignalPadEntriesMembers(sigs, board);
      var i, j :| 0 <= i < |sigs| && 0 <= j < |sigs[i].pads| &&
        sigs[i].pads[j].board == board && e == PadEntry(sigs[i].pads[j]);
    } else {
      SegmentsEntriesMembers(segs, board);
      var i :| 0 <= i < |segs| && segs[i].board == board && e in SegmentEntries(segs[i]);
      if e in ViaEntries(segs[i].vias) {
        ViaEntriesAll(segs[i].vias);
        var j :| 0 <= j < |ViaEntries(segs[i].vias)| && ViaEntries(segs[i].vias)[j] == e;
        assert e.anchor == segs[i].vias[j].Anchor();
      } else {
        NetPointEntriesMembers(segs[i].netPoints);
        var j :| 0 <= j < |segs[i].netPoints| && segs[i].netPoints[j].layerOfLines.Some? &&
          e == Entry(segs[i].netPoints[j].Anchor(), segs[i].netPoints[j].position,
                     Some(segs[i].netPoints[j].layerOfLines.value));
      }
    }
  }

  lemma PadEntryIn(board: BoardId, net: NetSignal, i: nat, j: nat)
    requires i < |net.componentSignals| && j < |net.componentSignals[i].pads|
    requires net.componentSignals[i].pads[j].board == board
    ensures PadEntry(net.componentSignals[i].pads[j]) in AllEntries(board, net)
  {
    SignalPadEntriesMembers(net.componentSignals, board);
  }

  lemma ViaEntryIn(board: BoardId, net: NetSignal, i: nat, j: nat)
    requires i < |net.boardNetSegments| && j < |net.boardNetSegments[i].vias|
    requires net.boardNetSegments[i].board == board
    ensures var via := net.boardNetSegments[i].vias[j];
      Entry(via.Anchor(), via.position, None) in AllEntries(board, net)
  {
    var seg := net.boardNetSegments[i];
    SegmentsEntriesMembers(net.boardNetSegments, board);
    ViaEntriesAll(seg.vias);
    assert ViaEntries(seg.vias)[j] in SegmentEntries(seg);
  }

  lemma NetPointEntryIn(board: BoardId, net: NetSignal, i: nat, j: nat)
    requires i < |net.boardNetSegments| && j < |net.boardNetSegments[i].netPoints|
    requires net.boardNetSegments[i].board == board
    requires net.boardNetSegments[i].netPoints[j].layerOfLines.Some?
    ensures var np := net.boardNetSegments[i].netPoints[j];
      Entry(np.Anchor(), np.position, np.layerOfLines) in AllEntries(board, net)
  {
    var seg := net.boardNetSegments[i];
    var np := seg.netPoints[j];
    SegmentsEntriesMembers(net.boardNetSegments, board);
    NetPointEntriesMembers(seg.netPoints);
    assert Entry(np.Anchor(), np.position, Some(np.layerOfLines.value)) in NetPointEntries(seg.netPoints);
    assert Entry(np.Anchor(), np.position, np.layerOfLines) in SegmentEntries(seg);
  }

  /** With distinct anchors, each entry's anchor maps to a point at its position, on its layer. */
  lemma CollectEntryPoint(board: BoardId, net: NetSignal, contains: (Fragment, Point) -> bool, e: Entry)
    requires Collect(board, net, contains).Success?
    requires DistinctAnchors(AllEntries(board, net))
    requires e in AllEntries(board, net)
    ensures var g := Collect(board, net, contains).value;
      && e.anchor in g.anchors
      && var id := g.anchors[e.anchor];
         id < |g.points| && g.points[id] == e.pos && id in g.layers && g.layers[id] == e.layer
  {
    var es := AllEntries(board, net);
    CollectRegisters(board, net, contains);
    var k :| 0 <= k < |es| && es[k] == e;
    assert LastOfAnchor(es, k);
  }

  /**
   * A pad on this board gets a point at its position; its layer is "all
   * layers" when it is through-hole and its copper layer otherwise.
   */
  lemma CollectPadPoint(board: BoardId, net: NetSignal, contains: (Fragment, Point) -> bool, i: nat, j: nat)
    requires Collect(board, net, contains).Success?
    requires DistinctAnchors(AllEntries(board, net))
    requires i < |net.componentSignals| && j < |net.componentSignals[i].pads|
    requires net.componentSignals[i].pads[j].board == board
    ensures var g := Collect(board, net, contains).value;
      var pad := net.componentSignals[i].pads[j];
      && pad.Anchor() in g.anchors
      && var id := g.anchors[pad.Anchor()];
         && id < |g.points| && g.points[id] == pad.position && id in g.layers
         && (pad.side == Tht ==> g.layers[id] == None)
         && (pad.side != Tht ==> g.layers[id] == Some(pad.layerName))
  {
    PadEntryIn(board, net, i, j);
    CollectEntryPoint(board, net, contains, PadEntry(net.componentSignals[i].pads[j]));
  }

  /** Every via of a net segment on this board gets a point at its position, on all layers. */
  lemma CollectViaPoint(board: BoardId, net: NetSignal, contains: (Fragment, Point) -> bool, i: nat, j: nat)
    requires Collect(board, net, contains).Success?
    requires DistinctAnchors(AllEntries(board, net))
    requires i < |net.boardNetSegments| && j < |net.boardNetSegments[i].vias|
    requires net.boardNetSegments[i].board == board
    ensures var g := Collect(board, net, contains).value;
      var via := net.boardNetSegments[i].vias[j];
      && via.Anchor() in g.anchors
      && var id := g.anchors[via.Anchor()];
         id < |g.points| && g.points[id] == via.position && id in g.layers && g.layers[id] == None
  {
    var via := net.boardNetSegments[i].vias[j];
    ViaEntryIn(board, net, i, j);
    CollectEntryPoint(board, net, contains, Entry(via.Anchor(), via.position, None));
  }

  /** A net point with a layer of lines, on a segment on this board, gets a point on that layer. */
  lemma CollectNetPointPoint(board: BoardId, net: NetSignal, contains: (Fragment, Point) -> bool, i: nat, j: nat)
    requires Collect(board, net, contains).Success?
    requires DistinctAnchors(AllEntries(board, net))
    requires i < |net.boardNetSegments| && j < |net.boardNetSegments[i].netPoints|
    requires net.boardNetSegments[i].board == board
    requires net.boardNetSegments[i].netPoints[j].layerOfLines.Some?
    ensures var g := Collect(board, net, contains).value;
      var np := net.boardNetSegments[i].netPoints[j];
      && np.Anchor() in g.anchors
      && var id := g.anchors[np.Anchor()];
         id < |g.points| && g.points[id] == np.position && id in g.layers && g.layers[id] == np.layerOfLines
  {
    var np := net.boardNetSegments[i].netPoints[j];
    NetPointEntryIn(board, net, i, j);
    CollectEntryPoint(board, net, contains, Entry(np.Anchor(), np.position, np.layerOfLines));
  }

  /** Every edge one fragment of a plane on this board adds is among the final edges. */
  lemma FragmentEdgesKept(board: BoardId, net: NetSignal, contains: (Fragment, Point) -> bool, i: nat, j: nat)
    requires Collect(board, net, contains).Success?
    requires i < |net.boardPlanes| && j < |net.boardPlanes[i].fragments|
    requires net.boardPlanes[i].board == board
    ensures var g := Collect(board, net, contains).value;
      var plane := net.boardPlanes[i];
      && LayersCover(g.points, g.layers)
      && forall e | e in FragmentEdges(g.points, g.layers, plane.layerName, plane.fragments[j], contains) ::
           e in g.edges
  {
    var g := Collect(board, net, contains).value;
    var plane := net.boardPlanes[i];
    assert LayersCover(g.points, g.layers) by {
      CollectValid(board, net, contains);
    }
    var pe := PlanesEdges(g.points, g.layers, net.boardPlanes, board, contains);
    assert |pe| <= |g.edges| && g.edges[|g.edges| - |pe|..] == pe by {
      CollectIsRegister(board, net, contains);
    }
    forall e | e in FragmentEdges(g.points, g.layers, plane.layerName, plane.fragments[j], contains)
      ensures e in g.edges
    {
      assert e in pe by {
        FragmentEdgesInPlanes(g.points, g.layers, net.boardPlanes, board, contains, i, j);
      }
      var m :| 0 <= m < |pe| && pe[m] == e;
      assert g.edges[|g.edges| - |pe| + m] == pe[m];
    }
  }

  /**
   * Every id has a layer entry, so the plane scan never reads a missing
   * one; and all points that qualify for one fragment of a plane on this
   * board are connected by the final edges.
   */
  lemma CollectPlaneConnects(board: BoardId, net: NetSignal, contains: (Fragment, Point) -> bool, i: nat, j: nat)
    requires Collect(board, net, contains).Success?
    requires i < |net.boardPlanes| && j < |net.boardPlanes[i].fragments|
    requires net.boardPlanes[i].board == board
    ensures var g := Collect(board, net, contains).value;
      var plane := net.boardPlanes[i];
      && LayersCover(g.points, g.layers)
      && forall x: PointId, y: PointId |
           x < |g.points| && y < |g.points| &&
           Qualifies(g.points, g.layers, plane.layerName, plane.fragments[j], contains, x) &&
           Qualifies(g.points, g.layers, plane.layerName, plane.fragments[j], contains, y) ::
           Connected(g.edges, x, y)
  {
    var g := Collect(board, net, contains).value;
    var plane := net.boardPlanes[i];
    var frag := plane.fragments[j];
    FragmentEdgesKept(board, net, contains, i, j);
    var q := Qualifying(g.points, g.layers, plane.layerName, frag, contains, |g.points|);
    assert forall k | 0 <= k < |q| - 1 :: Edge(q[k], q[k + 1]) in g.edges by {
      var fe := FragmentEdges(g.points, g.layers, plane.layerName, frag, contains);
      FragmentChain(g.points, g.layers, plane.layerName, frag, contains);
      forall k | 0 <= k < |q| - 1 ensures Edge(q[k], q[k + 1]) in g.edges {
        assert fe[k] == Edge(q[k], q[k + 1]);
        assert fe[k] in fe;
      }
    }
    WalkConnects(q, g.edges);
    QualifyingSpec(g.points, g.layers, plane.layerName, frag, contains, |g.points|);
    forall x: PointId, y: PointId |
      x < |g.points| && y < |g.points| &&
      Qualifies(g.points, g.layers, plane.layerName, frag, contains, x) &&
      Qualifies(g.points, g.layers, plane.layerName, frag, contains, y)
      ensures Connected(g.edges, x, y)
    {
      assert x in q && y in q;
      var a :| 0 <= a < |q| && q[a] == x;
      var b :| 0 <= b < |q| && q[b] == y;
    }
  }
}
