/**
 * What collecting one net on one board computes, as functions on a graph
 * value: the builder's points and edges together with the anchor map
 * (anchor -> point id) and the layer map (point id -> layer).
 *
 * Pads, vias and net points become "entries" (anchor, position, layer);
 * registering an entry appends one point and updates both maps. Net lines
 * add edges between the points of their anchors, and abort the build when
 * an anchor has no point yet.
 */
module NetGraph {
  import opened Wrappers
  import opened AirWires
  import opened BoardItems

  /** A copper layer name, or None for "on all layers" (through-hole pads, vias). */
  type Layer = Option<string>

  datatype Graph = Graph(
    points: seq<Point>,
    edges: seq<Edge>,
    anchors: map<AnchorRef, PointId>,
    layers: map<PointId, Layer>)

  const Empty: Graph := Graph([], [], map[], map[])

  /**
   * Every point id has a layer entry and nothing else has one; the anchor
   * map and the edges only mention existing point ids.
   */
  ghost predicate Valid(g: Graph) {
    && (forall id: PointId :: id in g.layers <==> id < |g.points|)
    && (forall a | a in g.anchors :: g.anchors[a] < |g.points|)
    && (forall e | e in g.edges :: e.a < |g.points| && e.b < |g.points|)
  }

  /** Every point id has a layer entry (what the plane pass reads). */
  ghost predicate LayersCover(points: seq<Point>, layers: map<PointId, Layer>) {
    forall id: PointId | id < |points| :: id in layers
  }

  /** An anchor to register: where its point goes and on which layer. */
  datatype Entry = Entry(anchor: AnchorRef, pos: Point, layer: Layer)

  /** Adds the entry's point; the new id goes into both maps. */
  function AddEntry(g: Graph, e: Entry): Graph {
    var id := |g.points|;
    g.(points := g.points + [e.pos],
       anchors := g.anchors[e.anchor := id],
       layers := g.layers[id := e.layer])
  }

  function Register(g: Graph, es: seq<Entry>): (r: Graph)
    ensures Valid(g) ==> Valid(r)
    decreases |es|
  {
    if es == [] then g else Register(AddEntry(g, es[0]), es[1..])
  }

  function AnchorsOf(es: seq<Entry>): set<AnchorRef> {
    set e | e in es :: e.anchor
  }

  /** No later entry registers the same anchor again (which would overwrite it). */
  predicate LastOfAnchor(es: seq<Entry>, k: nat)
    requires k < |es|
  {
    forall j | k < j < |es| :: es[j].anchor != es[k].anchor
  }

  predicate DistinctAnchors(es: seq<Entry>) {
    forall i, j | 0 <= i < j < |es| :: es[i].anchor != es[j].anchor
  }

  /** Registering appends one point per entry, at that entry's position, and keeps the edges. */
  lemma {:induction false} RegisterPointList(g: Graph, es: seq<Entry>)
    ensures Register(g, es).edges == g.edges
    ensures |Register(g, es).points| == |g.points| + |es|
    ensures Register(g, es).points[..|g.points|] == g.points
    ensures forall k | 0 <= k < |es| :: Register(g, es).points[|g.points| + k] == es[k].pos
    decreases |es|
  {
    if es != [] {
      var g1 := AddEntry(g, es[0]);
      var r := Register(g, es);
      RegisterPointList(g1, es[1..]);
      assert r == Register(g1, es[1..]);
      assert r.points[..|g1.points|] == g1.points;
      assert r.points[..|g.points|] == g1.points[..|g.points|];
      forall k | 0 <= k < |es|
        ensures r.points[|g.points| + k] == es[k].pos
      {
        if k == 0 {
          assert r.points[|g.points|] == r.points[..|g1.points|][|g.points|];
        } else {
          assert es[1..][k - 1] == es[k];
          assert |g1.points| + (k - 1) == |g.points| + k;
        }
      }
    }
  }

  /** Registering gives each new id its entry's layer and keeps the old layer entries. */
  lemma {:induction false} RegisterPointLayers(g: Graph, es: seq<Entry>)
    ensures forall id: PointId | |g.points| <= id < |g.points| + |es| ::
      id in Register(g, es).layers && Register(g, es).layers[id] == es[id - |g.points|].layer
    ensures forall id | id in g.layers && id < |g.points| ::
      id in Register(g, es).layers && Register(g, es).layers[id] == g.layers[id]
    decreases |es|
  {
    if es != [] {
      var g1 := AddEntry(g, es[0]);
      var r := Register(g, es);
      RegisterPointLayers(g1, es[1..]);
      assert r == Register(g1, es[1..]);
      forall id: PointId | |g.points| <= id < |g.points| + |es|
        ensures id in r.layers && r.layers[id] == es[id - |g.points|].layer
      {
        if id == |g.points| {
          assert id in g1.layers && id < |g1.points| && g1.layers[id] == es[0].layer;
        } else {
          assert es[1..][id - |g1.points|] == es[id - |g.points|];
        }
      }
      forall id | id in g.layers && id < |g.points|
        ensures id in r.layers && r.layers[id] == g.layers[id]
      {
        assert id in g1.layers && id < |g1.points| && g1.layers[id] == g.layers[id];
      }
    }
  }

  /** Registering appends one point per entry, with that entry's position and layer. */
  lemma RegisterPoints(g: Graph, es: seq<Entry>)
    ensures Register(g, es).edges == g.edges
    ensures |Register(g, es).points| == |g.points| + |es|
    ensures Register(g, es).points[..|g.points|] == g.points
    ensures forall k | 0 <= k < |es| :: Register(g, es).points[|g.points| + k] == es[k].pos
    ensures forall id: PointId | |g.points| <= id < |g.points| + |es| ::
      id in Register(g, es).layers && Register(g, es).layers[id] == es[id - |g.points|].layer
    ensures forall id | id in g.layers && id < |g.points| ::
      id in Register(g, es).layers && Register(g, es).layers[id] == g.layers[id]
  {
    RegisterPointList(g, es);
    RegisterPointLayers(g, es);
  }

  lemma AnchorsOfCons(es: seq<Entry>)
    requires es != []
    ensures AnchorsOf(es) == {es[0].anchor} + AnchorsOf(es[1..])
  {
    assert es == [es[0]] + es[1..];
    forall a | a in AnchorsOf(es) ensures a in {es[0].anchor} + AnchorsOf(es[1..]) {
      var e :| e in es && e.anchor == a;
      if e != es[0] {
        assert e in es[1..];
      }
    }
  }

  lemma AnchorOfEntry(es: seq<Entry>, e: Entry)
    requires e in es
    ensures e.anchor in AnchorsOf(es)
  {
  }

  /** After registering, an anchor is mapped iff it was mapped before or some entry registers it. */
  lemma {:induction false} RegisterAnchorsDomain(g: Graph, es: seq<Entry>)
    ensures forall a :: a in Register(g, es).anchors <==> a in g.anchors || a in AnchorsOf(es)
    decreases |es|
  {
    if es != [] {
      RegisterAnchorsDomain(AddEntry(g, es[0]), es[1..]);
      AnchorsOfCons(es);
    }
  }

  /** An anchor no entry mentions keeps its id. */
  lemma {:induction false} RegisterAnchorsKept(g: Graph, es: seq<Entry>)
    ensures forall a | a in g.anchors && a !in AnchorsOf(es) ::
      a in Register(g, es).anchors && Register(g, es).anchors[a] == g.anchors[a]
    decreases |es|
  {
    if es != [] {
      RegisterAnchorsKept(AddEntry(g, es[0]), es[1..]);
      AnchorsOfCons(es);
    }
  }

  /** An entry that no later entry overrides maps its anchor to its own point. */
  lemma {:induction false} RegisterAnchorsLast(g: Graph, es: seq<Entry>)
    ensures forall k | 0 <= k < |es| && LastOfAnchor(es, k) ::
      es[k].anchor in Register(g, es).anchors && Register(g, es).anchors[es[k].anchor] == |g.points| + k
    decreases |es|
  {
    if es != [] {
      var g1 := AddEntry(g, es[0]);
      var r := Register(g, es);
      assert r == Register(g1, es[1..]);
      forall k | 0 <= k < |es| && LastOfAnchor(es, k)
        ensures es[k].anchor in r.anchors && r.anchors[es[k].anchor] == |g.points| + k
      {
        if k == 0 {
          assert es[0].anchor !in AnchorsOf(es[1..]) by {
            forall e | e in es[1..] ensures e.anchor != es[0].anchor {
              var j :| 0 <= j < |es[1..]| && es[1..][j] == e;
              assert es[j + 1] == e;
            }
          }
          RegisterAnchorsKept(g1, es[1..]);
        } else {
          assert es[1..][k - 1] == es[k];
          assert LastOfAnchor(es[1..], k - 1);
          RegisterAnchorsLast(g1, es[1..]);
        }
      }
    }
  }

  /**
   * After registering, an anchor is mapped iff it was mapped before or some
   * entry registers it; anchors no entry mentions keep their id, and an
   * entry that no later entry overrides maps its anchor to its own point.
   */
  lemma RegisterAnchors(g: Graph, es: seq<Entry>)
    ensures forall a :: a in Register(g, es).anchors <==> a in g.anchors || a in AnchorsOf(es)
    ensures forall a | a in g.anchors && a !in AnchorsOf(es) :: Register(g, es).anchors[a] == g.anchors[a]
    ensures forall k | 0 <= k < |es| && LastOfAnchor(es, k) ::
      es[k].anchor in Register(g, es).anchors && Register(g, es).anchors[es[k].anchor] == |g.points| + k
  {
    RegisterAnchorsDomain(g, es);
    RegisterAnchorsKept(g, es);
    RegisterAnchorsLast(g, es);
  }

  /** From the empty graph, entry k gets point k, and the anchor map holds exactly the entries' anchors. */
  lemma RegisterFromEmpty(es: seq<Entry>)
    ensures var r := Register(Empty, es);
      && |r.points| == |es|
      && (forall k | 0 <= k < |es| :: r.points[k] == es[k].pos)
      && (forall id: PointId | id < |es| :: id in r.layers && r.layers[id] == es[id].layer)
      && (forall a :: a in r.anchors <==> a in AnchorsOf(es))
      && (forall k | 0 <= k < |es| && LastOfAnchor(es, k) :: es[k].anchor in r.anchors && r.anchors[es[k].anchor] == k)
  {
    EmptyPoints(es);
    EmptyLayers(es);
    EmptyAnchors(es);
    EmptyLastAnchors(es);
  }

  lemma EmptyPoints(es: seq<Entry>)
    ensures var r := Register(Empty, es);
      |r.points| == |es| && forall k | 0 <= k < |es| :: r.points[k] == es[k].pos
  {
    var r := Register(Empty, es);
    RegisterPointList(Empty, es);
    forall k | 0 <= k < |es| ensures r.points[k] == es[k].pos {
      assert r.points[|Empty.points| + k] == es[k].pos;
    }
  }

  lemma EmptyLayers(es: seq<Entry>)
    ensures var r := Register(Empty, es);
      forall id: PointId | id < |es| :: id in r.layers && r.layers[id] == es[id].layer
  {
    var r := Register(Empty, es);
    RegisterPointLayers(Empty, es);
    forall id: PointId | id < |es| ensures id in r.layers && r.layers[id] == es[id].layer {
      assert es[id - |Empty.points|] == es[id];
    }
  }

  lemma EmptyAnchors(es: seq<Entry>)
    ensures forall a :: a in Register(Empty, es).anchors <==> a in AnchorsOf(es)
  {
    RegisterAnchorsDomain(Empty, es);
  }

  lemma EmptyLastAnchors(es: seq<Entry>)
    ensures var r := Register(Empty, es);
      forall k | 0 <= k < |es| && LastOfAnchor(es, k) :: es[k].anchor in r.anchors && r.anchors[es[k].anchor] == k
  {
    RegisterAnchorsLast(Empty, es);
  }

  lemma {:induction false} RegisterAppend(g: Graph, a: seq<Entry>, b: seq<Entry>)
    ensures Register(g, a + b) == Register(Register(g, a), b)
    decreases |a|
  {
    if a == [] {
      assert a + b == b;
    } else {
      assert (a + b)[1..] == a[1..] + b;
      RegisterAppend(AddEntry(g, a[0]), a[1..], b);
    }
  }

  /** Registration never looks at the edges. */
  lemma {:induction false} RegisterIgnoresEdges(g: Graph, es: seq<Entry>, edges: seq<Edge>)
    ensures Register(g.(edges := edges), es) == Register(g, es).(edges := edges)
    decreases |es|
  {
    if es != [] {
      assert AddEntry(g.(edges := edges), es[0]) == AddEntry(g, es[0]).(edges := edges);
      RegisterIgnoresEdges(AddEntry(g, es[0]), es[1..], edges);
    }
  }

  lemma AnchorsOfAppend(a: seq<Entry>, b: seq<Entry>)
    ensures AnchorsOf(a + b) == AnchorsOf(a) + AnchorsOf(b)
  {
    forall x | x in AnchorsOf(a + b) ensures x in AnchorsOf(a) + AnchorsOf(b) {
      var e :| e in a + b && e.anchor == x;
    }
    forall x | x in AnchorsOf(a) + AnchorsOf(b) ensures x in AnchorsOf(a + b) {
      if x in AnchorsOf(a) {
        var e :| e in a && e.anchor == x;
        assert e in a + b;
      } else {
        var e :| e in b && e.anchor == x;
        assert e in a + b;
      }
    }
  }
  /** Two lists have distinct anchors together iff each has and they share none. */
  lemma DistinctAnchorsAppend(a: seq<Entry>, b: seq<Entry>)
    ensures DistinctAnchors(a + b) <==>
      DistinctAnchors(a) && DistinctAnchors(b) && AnchorsOf(a) !! AnchorsOf(b)
  {
    var ab := a + b;
    if DistinctAnchors(ab) {
      forall i, j | 0 <= i < j < |a| ensures a[i].anchor != a[j].anchor {
        assert ab[i] == a[i] && ab[j] == a[j];
      }
      forall i, j | 0 <= i < j < |b| ensures b[i].anchor != b[j].anchor {
        assert ab[|a| + i] == b[i] && ab[|a| + j] == b[j];
      }
      forall x | x in AnchorsOf(a) ensures x !in AnchorsOf(b) {
        var i :| 0 <= i < |a| && a[i].anchor == x;
        forall e | e in b ensures e.anchor != x {
          var j :| 0 <= j < |b| && b[j] == e;
          assert ab[i] == a[i] && ab[|a| + j] == b[j];
        }
      }
    }
    if DistinctAnchors(a) && DistinctAnchors(b) && AnchorsOf(a) !! AnchorsOf(b) {
      forall i, j | 0 <= i < j < |ab| ensures ab[i].anchor != ab[j].anchor {
        if j < |a| {
          assert ab[i] == a[i] && ab[j] == a[j];
        } else if i >= |a| {
          assert ab[i] == b[i - |a|] && ab[j] == b[j - |a|];
        } else {
          assert ab[i] == a[i] && ab[j] == b[j - |a|];
          AnchorOfEntry(a, a[i]);
          AnchorOfEntry(b, b[j - |a|]);
        }
      }
    }
  }


  // ---------------------------------------------------------------- pads

  /** A through-hole pad is on all layers; any other pad on its own copper layer. */
  function PadEntry(pad: Pad): Entry {
    Entry(pad.Anchor(), pad.position, if pad.side == Tht then None else Some(pad.layerName))
  }

  /** The pads of one component signal that lie on `board`, in order. */
  function PadEntries(pads: seq<Pad>, board: BoardId): seq<Entry>
    decreases |pads|
  {
    if pads == [] then []
    else (if pads[0].board == board then [PadEntry(pads[0])] else []) + PadEntries(pads[1..], board)
  }

  function SignalPadEntries(sigs: seq<ComponentSignal>, board: BoardId): seq<Entry>
    decreases |sigs|
  {
    if sigs == [] then [] else PadEntries(sigs[0].pads, board) + SignalPadEntries(sigs[1..], board)
  }

  lemma {:induction false} PadEntriesMembers(pads: seq<Pad>, board: BoardId)
    ensures forall e :: e in PadEntries(pads, board) <==>
      exists j | 0 <= j < |pads| :: pads[j].board == board && e == PadEntry(pads[j])
    decreases |pads|
  {
    if pads != [] {
      PadEntriesMembers(pads[1..], board);
      forall e ensures e in PadEntries(pads, board) <==>
        exists j | 0 <= j < |pads| :: pads[j].board == board && e == PadEntry(pads[j])
      {
        if e in PadEntries(pads[1..], board) {
          var j :| 0 <= j < |pads[1..]| && pads[1..][j].board == board && e == PadEntry(pads[1..][j]);
          assert pads[j + 1] == pads[1..][j];
        }
        if j :| 0 <= j < |pads| && pads[j].board == board && e == PadEntry(pads[j]) {
          if j > 0 {
            assert pads[1..][j - 1] == pads[j];
          }
        }
      }
    }
  }

  /**
   * A pad is registered iff it lies on this board; its entry is at its
   * position, on all layers when it is through-hole and on its copper layer
   * otherwise.
   */
  lemma {:induction false} SignalPadEntriesMembers(sigs: seq<ComponentSignal>, board: BoardId)
    ensures forall e :: e in SignalPadEntries(sigs, board) <==>
      exists i, j | 0 <= i < |sigs| && 0 <= j < |sigs[i].pads| ::
        var pad := sigs[i].pads[j];
        pad.board == board &&
        e == Entry(pad.Anchor(), pad.position, if pad.side == Tht then None else Some(pad.layerName))
    decreases |sigs|
  {
    if sigs != [] {
      SignalPadEntriesMembers(sigs[1..], board);
      PadEntriesMembers(sigs[0].pads, board);
      forall e ensures e in SignalPadEntries(sigs, board) <==>
        exists i, j | 0 <= i < |sigs| && 0 <= j < |sigs[i].pads| ::
          var pad := sigs[i].pads[j];
          pad.board == board &&
          e == Entry(pad.Anchor(), pad.position, if pad.side == Tht then None else Some(pad.layerName))
      {
        if e in SignalPadEntries(sigs[1..], board) {
          var i, j :| 0 <= i < |sigs[1..]| && 0 <= j < |sigs[1..][i].pads| &&
            sigs[1..][i].pads[j].board == board && e == PadEntry(sigs[1..][i].pads[j]);
          assert sigs[i + 1] == sigs[1..][i];
        }
        if i, j :| (0 <= i < |sigs| && 0 <= j < |sigs[i].pads| &&
                    sigs[i].pads[j].board == board && e == PadEntry(sigs[i].pads[j]))
        {
          if i > 0 {
            assert sigs[1..][i - 1] == sigs[i];
          }
        }
      }
    }
  }

  // ---------------------------------------------------------- vias, net points

  function ViaEntries(vias: seq<Via>): seq<Entry>
    decreases |vias|
  {
    if vias == [] then [] else [Entry(vias[0].Anchor(), vias[0].position, None)] + ViaEntries(vias[1..])
  }

  /** Only net points with a layer of lines are registered, on that layer. */
  function NetPointEntries(nps: seq<NetPoint>): seq<Entry>
    decreases |nps|
  {
    if nps == [] then []
    else
      (match nps[0].layerOfLines
       case Some(name) => [Entry(nps[0].Anchor(), nps[0].position, Some(name))]
       case None => [])
      + NetPointEntries(nps[1..])
  }

  /** Every via of a segment is registered, in order, on all layers. */
  lemma {:induction false} ViaEntriesAll(vias: seq<Via>)
    ensures |ViaEntries(vias)| == |vias|
    ensures forall k | 0 <= k < |vias| :: ViaEntries(vias)[k] == Entry(vias[k].Anchor(), vias[k].position, None)
    decreases |vias|
  {
    if vias != [] {
      ViaEntriesAll(vias[1..]);
      forall k | 0 < k < |vias|
        ensures ViaEntries(vias)[k] == Entry(vias[k].Anchor(), vias[k].position, None)
      {
        assert vias[1..][k - 1] == vias[k];
      }
    }
  }

  /** A net point is registered iff it has a layer of lines, and then on that layer. */
  lemma {:induction false} NetPointEntriesMembers(nps: seq<NetPoint>)
    ensures forall e :: e in NetPointEntries(nps) <==>
      exists j | 0 <= j < |nps| ::
        nps[j].layerOfLines.Some? && e == Entry(nps[j].Anchor(), nps[j].position, Some(nps[j].layerOfLines.value))
    decreases |nps|
  {
    if nps != [] {
      NetPointEntriesMembers(nps[1..]);
      forall e ensures e in NetPointEntries(nps) <==>
        exists j | 0 <= j < |nps| ::
          nps[j].layerOfLines.Some? && e == Entry(nps[j].Anchor(), nps[j].position, Some(nps[j].layerOfLines.value))
      {
        if e in NetPointEntries(nps[1..]) {
          var j :| 0 <= j < |nps[1..]| && nps[1..][j].layerOfLines.Some? &&
            e == Entry(nps[1..][j].Anchor(), nps[1..][j].position, Some(nps[1..][j].layerOfLines.value));
          assert nps[j + 1] == nps[1..][j];
        }
        if j :| (0 <= j < |nps| && nps[j].layerOfLines.Some? &&
                 e == Entry(nps[j].Anchor(), nps[j].position, Some(nps[j].layerOfLines.value)))
        {
          if j > 0 {
            assert nps[1..][j - 1] == nps[j];
          }
        }
      }
    }
  }

  // ---------------------------------------------------------- net lines

  /** Joins the points of a net line's anchors; both must have a point already. */
  function AddNetLine(g: Graph, line: NetLine): Result<Graph, BuildError> {
    if line.startPoint !in g.anchors then Failure(UnregisteredAnchor(line.startPoint))
    else if line.endPoint !in g.anchors then Failure(UnregisteredAnchor(line.endPoint))
    else Success(g.(edges := g.edges + [Edge(g.anchors[line.startPoint], g.anchors[line.endPoint])]))
  }

  function AddNetLines(g: Graph, lines: seq<NetLine>): (r: Result<Graph, BuildError>)
    ensures r.Success? ==> r.value.points == g.points && r.value.anchors == g.anchors && r.value.layers == g.layers
    ensures Valid(g) && r.Success? ==> Valid(r.value)
    decreases |lines|
  {
    if lines == [] then Success(g)
    else
      match AddNetLine(g, lines[0])
      case Failure(e) => Failure(e)
      case Success(g1) => AddNetLines(g1, lines[1..])
  }

  /** Net lines succeed iff every line's two anchors are mapped. */
  lemma {:induction false} AddNetLinesSucceeds(g: Graph, lines: seq<NetLine>)
    ensures AddNetLines(g, lines).Success? <==>
      forall k | 0 <= k < |lines| :: lines[k].startPoint in g.anchors && lines[k].endPoint in g.anchors
    decreases |lines|
  {
    if lines != [] {
      var r0 := AddNetLine(g, lines[0]);
      if r0.Success? {
        AddNetLinesSucceeds(r0.value, lines[1..]);
        assert forall k | 0 < k < |lines| :: lines[1..][k - 1] == lines[k];
      }
    }
  }

  /** On success each line adds exactly one edge, in order, between the ids its anchors map to. */
  lemma {:induction false} AddNetLinesEdges(g: Graph, lines: seq<NetLine>)
    ensures AddNetLines(g, lines).Success? ==>
      var r := AddNetLines(g, lines).value;
      && |r.edges| == |g.edges| + |lines|
      && r.edges[..|g.edges|] == g.edges
      && forall k | 0 <= k < |lines| ::
           lines[k].startPoint in g.anchors && lines[k].endPoint in g.anchors &&
           r.edges[|g.edges| + k] == Edge(g.anchors[lines[k].startPoint], g.anchors[lines[k].endPoint])
    decreases |lines|
  {
    if lines != [] && AddNetLines(g, lines).Success? {
      var g1 := AddNetLine(g, lines[0]).value;
      AddNetLinesEdges(g1, lines[1..]);
      var rv := AddNetLines(g, lines).value;
      assert rv == AddNetLines(g1, lines[1..]).value;
      assert rv.edges[..|g1.edges|] == g1.edges;
      assert rv.edges[..|g.edges|] == g1.edges[..|g.edges|];
      forall k | 0 <= k < |lines|
        ensures lines[k].startPoint in g.anchors && lines[k].endPoint in g.anchors
        ensures rv.edges[|g.edges| + k] == Edge(g.anchors[lines[k].startPoint], g.anchors[lines[k].endPoint])
      {
        if k == 0 {
          assert rv.edges[|g.edges|] == rv.edges[..|g1.edges|][|g.edges|];
        } else {
          assert lines[1..][k - 1] == lines[k];
          assert |g1.edges| + (k - 1) == |g.edges| + k;
        }
      }
    }
  }

  /** A failure names an unmapped anchor of one of the lines. */
  lemma {:induction false} AddNetLinesError(g: Graph, lines: seq<NetLine>)
    ensures AddNetLines(g, lines).Failure? ==>
      var a := AddNetLines(g, lines).error.anchor;
      a !in g.anchors && exists k | 0 <= k < |lines| :: a == lines[k].startPoint || a == lines[k].endPoint
    decreases |lines|
  {
    if lines != [] && AddNetLines(g, lines).Failure? {
      var r0 := AddNetLine(g, lines[0]);
      if r0.Success? {
        AddNetLinesError(r0.value, lines[1..]);
        var a := AddNetLines(g, lines).error.anchor;
        var k :| 0 <= k < |lines[1..]| && (a == lines[1..][k].startPoint || a == lines[1..][k].endPoint);
        assert lines[k + 1] == lines[1..][k];
      }
    }
  }

  /**
   * Net lines succeed iff every line's two anchors are mapped; then each
   * line adds exactly one edge, in order, between the ids its anchors map
   * to. A failure names an unmapped anchor of one of the lines.
   */
  lemma AddNetLinesSpec(g: Graph, lines: seq<NetLine>)
    ensures AddNetLines(g, lines).Success? <==>
      forall k | 0 <= k < |lines| :: lines[k].startPoint in g.anchors && lines[k].endPoint in g.anchors
    ensures AddNetLines(g, lines).Success? ==>
      var r := AddNetLines(g, lines).value;
      && |r.edges| == |g.edges| + |lines|
      && r.edges[..|g.edges|] == g.edges
      && forall k | 0 <= k < |lines| ::
           r.edges[|g.edges| + k] == Edge(g.anchors[lines[k].startPoint], g.anchors[lines[k].endPoint])
    ensures AddNetLines(g, lines).Failure? ==>
      var a := AddNetLines(g, lines).error.anchor;
      a !in g.anchors && exists k | 0 <= k < |lines| :: a == lines[k].startPoint || a == lines[k].endPoint
  {
    AddNetLinesSucceeds(g, lines);
    AddNetLinesEdges(g, lines);
    AddNetLinesError(g, lines);
  }

  // ---------------------------------------------------------- net segments

  function SegmentEntries(seg: NetSegment): seq<Entry> {
    ViaEntries(seg.vias) + NetPointEntries(seg.netPoints)
  }

  /** A segment on another board contributes nothing; otherwise vias, net points, then net lines. */
  function CollectSegment(g: Graph, seg: NetSegment, board: BoardId): (r: Result<Graph, BuildError>)
    ensures Valid(g) && r.Success? ==> Valid(r.value)
  {
    if seg.board != board then Success(g)
    else AddNetLines(Register(Register(g, ViaEntries(seg.vias)), NetPointEntries(seg.netPoints)), seg.netLines)
  }

  function CollectSegments(g: Graph, segs: seq<NetSegment>, board: BoardId): (r: Result<Graph, BuildError>)
    ensures Valid(g) && r.Success? ==> Valid(r.value)
    decreases |segs|
  {
    if segs == [] then Success(g)
    else
      match CollectSegment(g, segs[0], board)
      case Failure(e) => Failure(e)
      case Success(g1) => CollectSegments(g1, segs[1..], board)
  }

  /** The entries of the segments that lie on `board`, in order. */
  function SegmentsEntries(segs: seq<NetSegment>, board: BoardId): seq<Entry>
    decreases |segs|
  {
    if segs == [] then []
    else (if segs[0].board == board then SegmentEntries(segs[0]) else []) + SegmentsEntries(segs[1..], board)
  }

  /** The net lines of the segments that lie on `board`, in order. */
  function SegmentsLines(segs: seq<NetSegment>, board: BoardId): seq<NetLine>
    decreases |segs|
  {
    if segs == [] then []
    else (if segs[0].board == board then segs[0].netLines else []) + SegmentsLines(segs[1..], board)
  }

  lemma {:induction false} SegmentsEntriesMembers(segs: seq<NetSegment>, board: BoardId)
    ensures forall e :: e in SegmentsEntries(segs, board) <==>
      exists i | 0 <= i < |segs| :: segs[i].board == board && e in SegmentEntries(segs[i])
    decreases |segs|
  {
    if segs != [] {
      SegmentsEntriesMembers(segs[1..], board);
      forall e ensures e in SegmentsEntries(segs, board) <==>
        exists i | 0 <= i < |segs| :: segs[i].board == board && e in SegmentEntries(segs[i])
      {
        if e in SegmentsEntries(segs[1..], board) {
          var i :| 0 <= i < |segs[1..]| && segs[1..][i].board == board && e in SegmentEntries(segs[1..][i]);
          assert segs[i + 1] == segs[1..][i];
        }
        if i :| 0 <= i < |segs| && segs[i].board == board && e in SegmentEntries(segs[i]) {
          if i > 0 {
            assert segs[1..][i - 1] == segs[i];
          }
        }
      }
    }
  }

  // ---------------------------------------------------------- distinct anchors

  lemma DistinctAnchorsCons(e: Entry, es: seq<Entry>)
    ensures DistinctAnchors([e] + es) <==> DistinctAnchors(es) && e.anchor !in AnchorsOf(es)
  {
    DistinctAnchorsAppend([e], es);
    assert AnchorsOf([e]) == {e.anchor};
  }

  /** Pads with distinct keys register distinct anchors. */
  lemma {:induction false} PadEntriesDistinct(pads: seq<Pad>, board: BoardId)
    requires forall j1, j2 | 0 <= j1 < j2 < |pads| :: pads[j1].key != pads[j2].key
    ensures DistinctAnchors(PadEntries(pads, board))
    decreases |pads|
  {
    if pads != [] {
      var rest := PadEntries(pads[1..], board);
      PadEntriesDistinct(pads[1..], board);
      if pads[0].board == board {
        assert pads[0].Anchor() !in AnchorsOf(rest) by {
          PadEntriesMembers(pads[1..], board);
          forall e | e in rest ensures e.anchor != pads[0].Anchor() {
            var j :| 0 <= j < |pads[1..]| && pads[1..][j].board == board && e == PadEntry(pads[1..][j]);
            assert pads[1..][j] == pads[j + 1];
          }
        }
        DistinctAnchorsCons(PadEntry(pads[0]), rest);
      }
    }
  }

  /** An anchor the pad pass registers is the anchor of a pad of one of the signals. */
  lemma SignalPadAnchorOrigin(sigs: seq<ComponentSignal>, board: BoardId, x: AnchorRef) returns (i: nat, j: nat)
    requires x in AnchorsOf(SignalPadEntries(sigs, board))
    ensures i < |sigs| && j < |sigs[i].pads| && x == PadAnchor(sigs[i].pads[j].key)
  {
    var e :| e in SignalPadEntries(sigs, board) && e.anchor == x;
    SignalPadEntriesMembers(sigs, board);
    var i', j' :| 0 <= i' < |sigs| && 0 <= j' < |sigs[i'].pads| &&
      sigs[i'].pads[j'].board == board && e == PadEntry(sigs[i'].pads[j']);
    var pad := sigs[i'].pads[j'];
    assert x == PadEntry(pad).anchor == PadAnchor(pad.key);
    i, j := i', j';
  }

  /** With unique keys, the pads of the first signal share no anchor with those of the later ones. */
  lemma SignalPadsHeadDisjoint(sigs: seq<ComponentSignal>, board: BoardId)
    requires UniquePads(sigs)
    requires sigs != []
    ensures AnchorsOf(PadEntries(sigs[0].pads, board)) !! AnchorsOf(SignalPadEntries(sigs[1..], board))
  {
    var first := PadEntries(sigs[0].pads, board);
    var tail := sigs[1..];
    forall x | x in AnchorsOf(SignalPadEntries(tail, board)) ensures x !in AnchorsOf(first) {
      var i2, j2 := SignalPadAnchorOrigin(tail, board, x);
      assert tail[i2] == sigs[i2 + 1];
      forall e | e in first ensures e.anchor != x {
        PadEntriesMembers(sigs[0].pads, board);
        var j :| 0 <= j < |sigs[0].pads| && sigs[0].pads[j].board == board && e == PadEntry(sigs[0].pads[j]);
        assert sigs[0].pads[j].key != sigs[i2 + 1].pads[j2].key;
      }
    }
  }

  /** Pads with pairwise distinct keys, over all signals, register distinct anchors. */
  lemma {:induction false} SignalPadEntriesDistinct(sigs: seq<ComponentSignal>, board: BoardId)
    requires UniquePads(sigs)
    ensures DistinctAnchors(SignalPadEntries(sigs, board))
    decreases |sigs|
  {
    if sigs != [] {
      assert UniquePads(sigs[1..]) by {
        forall i | 0 <= i < |sigs[1..]| ensures sigs[1..][i] == sigs[i + 1] { }
      }
      SignalPadEntriesDistinct(sigs[1..], board);
      PadEntriesDistinct(sigs[0].pads, board);
      SignalPadsHeadDisjoint(sigs, board);
      DistinctAnchorsAppend(PadEntries(sigs[0].pads, board), SignalPadEntries(sigs[1..], board));
    }
  }

  /** Net points with distinct keys register distinct anchors. */
  lemma {:induction false} NetPointEntriesDistinct(nps: seq<NetPoint>)
    requires forall j1, j2 | 0 <= j1 < j2 < |nps| :: nps[j1].key != nps[j2].key
    ensures DistinctAnchors(NetPointEntries(nps))
    decreases |nps|
  {
    if nps != [] {
      var rest := NetPointEntries(nps[1..]);
      NetPointEntriesDistinct(nps[1..]);
      if nps[0].layerOfLines.Some? {
        assert nps[0].Anchor() !in AnchorsOf(rest) by {
          NetPointEntriesMembers(nps[1..]);
          forall e | e in rest ensures e.anchor != nps[0].Anchor() {
            var j :| 0 <= j < |nps[1..]| && nps[1..][j].layerOfLines.Some? &&
              e == Entry(nps[1..][j].Anchor(), nps[1..][j].position, Some(nps[1..][j].layerOfLines.value));
            assert nps[1..][j] == nps[j + 1];
          }
        }
        DistinctAnchorsCons(Entry(nps[0].Anchor(), nps[0].position, Some(nps[0].layerOfLines.value)), rest);
      }
    }
  }

  /** An anchor a segment registers is one of its vias or one of its net points. */
  lemma SegmentAnchorOrigin(seg: NetSegment, x: AnchorRef)
    requires x in AnchorsOf(SegmentEntries(seg))
    ensures || (exists j | 0 <= j < |seg.vias| :: x == ViaAnchor(seg.vias[j].key))
            || (exists j | 0 <= j < |seg.netPoints| :: x == NetPointAnchor(seg.netPoints[j].key))
  {
    var e :| e in SegmentEntries(seg) && e.anchor == x;
    if e in ViaEntries(seg.vias) {
      ViaEntriesAll(seg.vias);
      var j :| 0 <= j < |ViaEntries(seg.vias)| && ViaEntries(seg.vias)[j] == e;
      assert x == ViaAnchor(seg.vias[j].key);
    } else {
      NetPointEntriesMembers(seg.netPoints);
      var j :| 0 <= j < |seg.netPoints| && seg.netPoints[j].layerOfLines.Some? &&
        e == Entry(seg.netPoints[j].Anchor(), seg.netPoints[j].position, Some(seg.netPoints[j].layerOfLines.value));
      assert x == NetPointAnchor(seg.netPoints[j].key);
    }
  }

  /** A segment whose vias and net points have distinct keys registers distinct anchors. */
  lemma SegmentEntriesDistinct(seg: NetSegment)
    requires forall j1, j2 | 0 <= j1 < j2 < |seg.vias| :: seg.vias[j1].key != seg.vias[j2].key
    requires forall j1, j2 | 0 <= j1 < j2 < |seg.netPoints| :: seg.netPoints[j1].key != seg.netPoints[j2].key
    ensures DistinctAnchors(SegmentEntries(seg))
  {
    var vs := ViaEntries(seg.vias);
    var ns := NetPointEntries(seg.netPoints);
    ViaEntriesAll(seg.vias);
    NetPointEntriesDistinct(seg.netPoints);
    assert AnchorsOf(vs) !! AnchorsOf(ns) by {
      forall x | x in AnchorsOf(vs) ensures x.ViaAnchor? {
        var e :| e in vs && e.anchor == x;
        var j :| 0 <= j < |vs| && vs[j] == e;
      }
      NetPointEntriesMembers(seg.netPoints);
      forall x | x in AnchorsOf(ns) ensures x.NetPointAnchor? {
        var e :| e in ns && e.anchor == x;
      }
    }
    DistinctAnchorsAppend(vs, ns);
  }

  /** An anchor the segments register comes from one segment on the board. */
  lemma SegmentsAnchorOrigin(segs: seq<NetSegment>, board: BoardId, x: AnchorRef) returns (i: nat)
    requires x in AnchorsOf(SegmentsEntries(segs, board))
    ensures i < |segs| && segs[i].board == board && x in AnchorsOf(SegmentEntries(segs[i]))
  {
    var e :| e in SegmentsEntries(segs, board) && e.anchor == x;
    SegmentsEntriesMembers(segs, board);
    i :| 0 <= i < |segs| && segs[i].board == board && e in SegmentEntries(segs[i]);
    AnchorOfEntry(SegmentEntries(segs[i]), e);
  }

  /** The segments register no pad anchor. */
  lemma SegmentsAnchorsNotPads(segs: seq<NetSegment>, board: BoardId)
    ensures forall x | x in AnchorsOf(SegmentsEntries(segs, board)) :: !x.PadAnchor?
  {
    forall x | x in AnchorsOf(SegmentsEntries(segs, board)) ensures !x.PadAnchor? {
      var i := SegmentsAnchorOrigin(segs, board, x);
      SegmentAnchorOrigin(segs[i], x);
    }
  }

  /** With unique keys, an anchor one segment registers is not registered by another. */
  lemma SegmentsAnchorsApart(segs: seq<NetSegment>, i1: nat, i2: nat, x: AnchorRef)
    requires UniqueVias(segs) && UniqueNetPoints(segs)
    requires i1 < |segs| && i2 < |segs| && i1 != i2
    requires x in AnchorsOf(SegmentEntries(segs[i2]))
    ensures x !in AnchorsOf(SegmentEntries(segs[i1]))
  {
    SegmentAnchorOrigin(segs[i2], x);
    forall e | e in SegmentEntries(segs[i1]) ensures e.anchor != x {
      AnchorOfEntry(SegmentEntries(segs[i1]), e);
      SegmentAnchorOrigin(segs[i1], e.anchor);
      if x.ViaAnchor? && e.anchor.ViaAnchor? {
        var j2 :| 0 <= j2 < |segs[i2].vias| && x == ViaAnchor(segs[i2].vias[j2].key);
        var j1 :| 0 <= j1 < |segs[i1].vias| && e.anchor == ViaAnchor(segs[i1].vias[j1].key);
      } else if x.NetPointAnchor? && e.anchor.NetPointAnchor? {
        var j2 :| 0 <= j2 < |segs[i2].netPoints| && x == NetPointAnchor(segs[i2].netPoints[j2].key);
        var j1 :| 0 <= j1 < |segs[i1].netPoints| && e.anchor == NetPointAnchor(segs[i1].netPoints[j1].key);
      }
    }
  }

  /** With unique keys, the first segment shares no anchor with the later ones. */
  lemma SegmentsHeadDisjoint(segs: seq<NetSegment>, board: BoardId)
    requires UniqueVias(segs) && UniqueNetPoints(segs)
    requires segs != []
    ensures AnchorsOf(SegmentEntries(segs[0])) !! AnchorsOf(SegmentsEntries(segs[1..], board))
  {
    var tail := segs[1..];
    forall x | x in AnchorsOf(SegmentsEntries(tail, board)) ensures x !in AnchorsOf(SegmentEntries(segs[0])) {
      var i := SegmentsAnchorOrigin(tail, board, x);
      assert tail[i] == segs[i + 1];
      SegmentsAnchorsApart(segs, 0, i + 1, x);
    }
  }

  /** Segments whose vias and net points have pairwise distinct keys register distinct anchors. */
  lemma {:induction false} SegmentsEntriesDistinct(segs: seq<NetSegment>, board: BoardId)
    requires UniqueVias(segs) && UniqueNetPoints(segs)
    ensures DistinctAnchors(SegmentsEntries(segs, board))
    decreases |segs|
  {
    if segs != [] {
      var rest := SegmentsEntries(segs[1..], board);
      assert UniqueVias(segs[1..]) && UniqueNetPoints(segs[1..]) by {
        forall i | 0 <= i < |segs[1..]| ensures segs[1..][i] == segs[i + 1] { }
      }
      SegmentsEntriesDistinct(segs[1..], board);
      if segs[0].board == board {
        SegmentEntriesDistinct(segs[0]);
        SegmentsHeadDisjoint(segs, board);
        DistinctAnchorsAppend(SegmentEntries(segs[0]), rest);
      } else {
        assert SegmentsEntries(segs, board) == rest;
      }
    }
  }

  /**
   * On success, the segments registered exactly their entries (segments on
   * another board none) and only appended edges.
   */
  lemma {:induction false} CollectSegmentsRegisters(g: Graph, segs: seq<NetSegment>, board: BoardId)
    ensures CollectSegments(g, segs, board).Success? ==>
      var r := CollectSegments(g, segs, board).value;
      && r == Register(g, SegmentsEntries(segs, board)).(edges := r.edges)
      && |r.edges| == |g.edges| + |SegmentsLines(segs, board)|
      && r.edges[..|g.edges|] == g.edges
    decreases |segs|
  {
    if segs != [] && CollectSegments(g, segs, board).Success? {
      var r := CollectSegments(g, segs, board).value;
      var g1 := CollectSegment(g, segs[0], board).value;
      CollectSegmentsRegisters(g1, segs[1..], board);
      assert r == CollectSegments(g1, segs[1..], board).value;
      var rest := SegmentsEntries(segs[1..], board);
      if segs[0].board != board {
        assert SegmentsEntries(segs, board) == rest;
        assert SegmentsLines(segs, board) == SegmentsLines(segs[1..], board);
      } else {
        var seg := segs[0];
        var x := Register(Register(g, ViaEntries(seg.vias)), NetPointEntries(seg.netPoints));
        RegisterAppend(g, ViaEntries(seg.vias), NetPointEntries(seg.netPoints));
        assert x == Register(g, SegmentEntries(seg));
        AddNetLinesSpec(x, seg.netLines);
        RegisterPoints(g, SegmentEntries(seg));
        assert g1 == x.(edges := g1.edges);
        RegisterIgnoresEdges(x, rest, g1.edges);
        RegisterAppend(g, SegmentEntries(seg), rest);
        assert SegmentsEntries(segs, board) == SegmentEntries(seg) + rest;
        assert SegmentsLines(segs, board) == seg.netLines + SegmentsLines(segs[1..], board);
        assert r.edges[..|g.edges|] == r.edges[..|g1.edges|][..|g.edges|];
      }
    }
  }

  /**
   * A failed collection names an anchor that some net line of a segment on
   * this board ends at, and that was not mapped before the segments.
   */
  lemma {:induction false} CollectSegmentsFailure(g: Graph, segs: seq<NetSegment>, board: BoardId)
    ensures CollectSegments(g, segs, board).Failure? ==>
      var a := CollectSegments(g, segs, board).error.anchor;
      && a !in g.anchors
      && exists i, k | 0 <= i < |segs| && 0 <= k < |segs[i].netLines| ::
           segs[i].board == board && (a == segs[i].netLines[k].startPoint || a == segs[i].netLines[k].endPoint)
    decreases |segs|
  {
    if segs != [] && CollectSegments(g, segs, board).Failure? {
      var a := CollectSegments(g, segs, board).error.anchor;
      var seg := segs[0];
      var r0 := CollectSegment(g, seg, board);
      if r0.Failure? {
        var x := Register(Register(g, ViaEntries(seg.vias)), NetPointEntries(seg.netPoints));
        AddNetLinesSpec(x, seg.netLines);
        RegisterAnchors(g, ViaEntries(seg.vias));
        RegisterAnchors(Register(g, ViaEntries(seg.vias)), NetPointEntries(seg.netPoints));
        var k :| 0 <= k < |seg.netLines| && (a == seg.netLines[k].startPoint || a == seg.netLines[k].endPoint);
        assert segs[0].board == board;
      } else {
        var g1 := r0.value;
        CollectSegmentsFailure(g1, segs[1..], board);
        assert a == CollectSegments(g1, segs[1..], board).error.anchor;
        var i, k :| 0 <= i < |segs[1..]| && 0 <= k < |segs[1..][i].netLines| &&
          segs[1..][i].board == board &&
          (a == segs[1..][i].netLines[k].startPoint || a == segs[1..][i].netLines[k].endPoint);
        assert segs[i + 1] == segs[1..][i];
        if seg.board == board {
          var x := Register(Register(g, ViaEntries(seg.vias)), NetPointEntries(seg.netPoints));
          AddNetLinesSpec(x, seg.netLines);
          RegisterAnchors(g, ViaEntries(seg.vias));
          RegisterAnchors(Register(g, ViaEntries(seg.vias)), NetPointEntries(seg.netPoints));
        }
      }
    }
  }

  /**
   * Line k of `lines` is edge `offset + k` of `r`, and `r` has no edges
   * after them; each edge joins the ids the line's anchors have in `r`.
   */
  ghost predicate LinesAsEdges(r: Graph, offset: nat, lines: seq<NetLine>) {
    && |r.edges| == offset + |lines|
    && forall k | 0 <= k < |lines| ::
         && lines[k].startPoint in r.anchors && lines[k].endPoint in r.anchors
         && r.edges[offset + k] == Edge(r.anchors[lines[k].startPoint], r.anchors[lines[k].endPoint])
  }

  /**
   * One segment on this board maps exactly its own entries' anchors in
   * addition to the old ones, keeps the old edges and adds one edge per net
   * line, in order, between the ids its anchors then have.
   */
  lemma SegmentLineEdges(g: Graph, seg: NetSegment, board: BoardId)
    requires seg.board == board && CollectSegment(g, seg, board).Success?
    ensures var g1 := CollectSegment(g, seg, board).value;
      && (forall a :: a in g1.anchors <==> a in g.anchors || a in AnchorsOf(SegmentEntries(seg)))
      && LinesAsEdges(g1, |g.edges|, seg.netLines)
      && g1.edges[..|g.edges|] == g.edges
  {
    var es0 := SegmentEntries(seg);
    var x := Register(Register(g, ViaEntries(seg.vias)), NetPointEntries(seg.netPoints));
    assert x == Register(g, es0) by {
      RegisterAppend(g, ViaEntries(seg.vias), NetPointEntries(seg.netPoints));
    }
    assert forall a :: a in x.anchors <==> a in g.anchors || a in AnchorsOf(es0) by {
      RegisterAnchors(g, es0);
    }
    assert x.edges == g.edges by {
      RegisterPoints(g, es0);
    }
    AddNetLinesSpec(x, seg.netLines);
  }

  /**
   * Lines laid out in `g1` stay laid out in a later graph `r` that keeps
   * `g1`'s edges as a prefix and the ids of their anchors.
   */
  lemma LinesAsEdgesAppend(g1: Graph, r: Graph, offset: nat, l1: seq<NetLine>, l2: seq<NetLine>)
    requires LinesAsEdges(g1, offset, l1) && LinesAsEdges(r, |g1.edges|, l2)
    requires |g1.edges| <= |r.edges| && r.edges[..|g1.edges|] == g1.edges
    requires forall k | 0 <= k < |l1| ::
      && l1[k].startPoint in r.anchors && r.anchors[l1[k].startPoint] == g1.anchors[l1[k].startPoint]
      && l1[k].endPoint in r.anchors && r.anchors[l1[k].endPoint] == g1.anchors[l1[k].endPoint]
    ensures LinesAsEdges(r, offset, l1 + l2)
  {
    var lines := l1 + l2;
    forall k | 0 <= k < |lines|
      ensures && lines[k].startPoint in r.anchors && lines[k].endPoint in r.anchors
              && r.edges[offset + k] == Edge(r.anchors[lines[k].startPoint], r.anchors[lines[k].endPoint])
    {
      if k < |l1| {
        assert lines[k] == l1[k];
        assert r.edges[offset + k] == r.edges[..|g1.edges|][offset + k];
      } else {
        assert lines[k] == l2[k - |l1|];
        assert |g1.edges| + (k - |l1|) == offset + k;
      }
    }
  }

  /**
   * Every net line of a segment on this board becomes one edge, in order,
   * between the final ids of its two anchors, when the segments register
   * anchors that are new and pairwise distinct (so no later registration
   * moves an anchor a line has already used).
   */
  lemma {:induction false} CollectSegmentsLineEdges(g: Graph, segs: seq<NetSegment>, board: BoardId)
    requires CollectSegments(g, segs, board).Success?
    requires DistinctAnchors(SegmentsEntries(segs, board))
    requires forall a | a in AnchorsOf(SegmentsEntries(segs, board)) :: a !in g.anchors
    ensures LinesAsEdges(CollectSegments(g, segs, board).value, |g.edges|, SegmentsLines(segs, board))
    decreases |segs|
  {
    if segs != [] {
      var r := CollectSegments(g, segs, board).value;
      var seg := segs[0];
      var g1 := CollectSegment(g, seg, board).value;
      assert r == CollectSegments(g1, segs[1..], board).value;
      var restEs := SegmentsEntries(segs[1..], board);
      var restLines := SegmentsLines(segs[1..], board);
      if seg.board != board {
        assert SegmentsEntries(segs, board) == restEs;
        assert SegmentsLines(segs, board) == restLines;
        CollectSegmentsLineEdges(g1, segs[1..], board);
      } else {
        var es0 := SegmentEntries(seg);
        assert SegmentsEntries(segs, board) == es0 + restEs;
        assert SegmentsLines(segs, board) == seg.netLines + restLines;
        SegmentLineEdges(g, seg, board);
        assert DistinctAnchors(restEs) && forall a | a in AnchorsOf(restEs) :: a !in g1.anchors by {
          DistinctAnchorsAppend(es0, restEs);
          AnchorsOfAppend(es0, restEs);
        }
        CollectSegmentsLineEdges(g1, segs[1..], board);
        assert r.edges[..|g1.edges|] == g1.edges && |g1.edges| <= |r.edges| by {
          CollectSegmentsRegisters(g1, segs[1..], board);
        }
        assert forall a | a in g1.anchors :: a in r.anchors && r.anchors[a] == g1.anchors[a] by {
          CollectSegmentsRegisters(g1, segs[1..], board);
          RegisterAnchorsKept(g1, restEs);
        }
        LinesAsEdgesAppend(g1, r, |g.edges|, seg.netLines, restLines);
      }
    }
  }

  /** Each net line of a segment on this board is among the segments' lines. */
  lemma {:induction false} SegmentsLinesMembers(segs: seq<NetSegment>, board: BoardId)
    ensures forall i, k | 0 <= i < |segs| && segs[i].board == board && 0 <= k < |segs[i].netLines| ::
      segs[i].netLines[k] in SegmentsLines(segs, board)
    decreases |segs|
  {
    if segs != [] {
      SegmentsLinesMembers(segs[1..], board);
      forall i, k | 0 <= i < |segs| && segs[i].board == board && 0 <= k < |segs[i].netLines|
        ensures segs[i].netLines[k] in SegmentsLines(segs, board)
      {
        if i > 0 {
          assert segs[1..][i - 1] == segs[i];
        }
      }
    }
  }

  /**
   * Every net line of a segment on `board` ends at anchors that are mapped
   * in `g` or registered by its own segment or an earlier one.
   */
  ghost predicate LinesAnchored(g: Graph, segs: seq<NetSegment>, board: BoardId) {
    forall i, k | 0 <= i < |segs| && segs[i].board == board && 0 <= k < |segs[i].netLines| ::
      && (segs[i].netLines[k].startPoint in g.anchors ||
          segs[i].netLines[k].startPoint in AnchorsOf(SegmentsEntries(segs[..i + 1], board)))
      && (segs[i].netLines[k].endPoint in g.anchors ||
          segs[i].netLines[k].endPoint in AnchorsOf(SegmentsEntries(segs[..i + 1], board)))
  }

  /** Every net line of `seg` ends at anchors mapped in `g` or registered by `seg` itself. */
  ghost predicate SegmentAnchored(g: Graph, seg: NetSegment) {
    forall k | 0 <= k < |seg.netLines| ::
      && (seg.netLines[k].startPoint in g.anchors || seg.netLines[k].startPoint in AnchorsOf(SegmentEntries(seg)))
      && (seg.netLines[k].endPoint in g.anchors || seg.netLines[k].endPoint in AnchorsOf(SegmentEntries(seg)))
  }

  /**
   * A segment on `board` succeeds iff its lines end at mapped or own
   * anchors; it then maps exactly the old anchors and its own.
   */
  lemma SegmentSucceeds(g: Graph, seg: NetSegment, board: BoardId)
    requires seg.board == board
    ensures CollectSegment(g, seg, board).Success? <==> SegmentAnchored(g, seg)
    ensures CollectSegment(g, seg, board).Success? ==>
      forall a :: a in CollectSegment(g, seg, board).value.anchors <==> a in g.anchors || a in AnchorsOf(SegmentEntries(seg))
  {
    var es := SegmentEntries(seg);
    var x := Register(Register(g, ViaEntries(seg.vias)), NetPointEntries(seg.netPoints));
    assert x == Register(g, es) by {
      RegisterAppend(g, ViaEntries(seg.vias), NetPointEntries(seg.netPoints));
    }
    assert forall a :: a in x.anchors <==> a in g.anchors || a in AnchorsOf(es) by {
      RegisterAnchors(g, es);
    }
    AddNetLinesSpec(x, seg.netLines);
  }

  /** The lines of the first segment, when it is on `board`, are anchored by the graph and that segment. */
  lemma LinesAnchoredHead(g: Graph, segs: seq<NetSegment>, board: BoardId)
    requires segs != [] && segs[0].board == board
    ensures LinesAnchored(g, segs, board) ==> SegmentAnchored(g, segs[0])
  {
    assert SegmentsEntries(segs[..1], board) == SegmentEntries(segs[0]) by {
      assert segs[..1][1..] == [];
    }
  }

  /** Conversely, an anchored first segment and anchored later lines make all lines anchored. */
  lemma LinesAnchoredUnshift(g: Graph, g1: Graph, segs: seq<NetSegment>, board: BoardId)
    requires segs != [] && LinesAnchored(g1, segs[1..], board)
    requires segs[0].board == board ==> SegmentAnchored(g, segs[0])
    requires forall a :: a in g1.anchors <==>
      a in g.anchors || a in AnchorsOf(if segs[0].board == board then SegmentEntries(segs[0]) else [])
    ensures LinesAnchored(g, segs, board)
  {
    var es0 := if segs[0].board == board then SegmentEntries(segs[0]) else [];
    forall i, k | 0 <= i < |segs| && segs[i].board == board && 0 <= k < |segs[i].netLines|
      ensures && (segs[i].netLines[k].startPoint in g.anchors ||
                  segs[i].netLines[k].startPoint in AnchorsOf(SegmentsEntries(segs[..i + 1], board)))
              && (segs[i].netLines[k].endPoint in g.anchors ||
                  segs[i].netLines[k].endPoint in AnchorsOf(SegmentsEntries(segs[..i + 1], board)))
    {
      if i == 0 {
        assert SegmentsEntries(segs[..1], board) == SegmentEntries(segs[0]) by {
          assert segs[..1][1..] == [];
        }
      } else {
        assert segs[1..][i - 1] == segs[i];
        assert SegmentsEntries(segs[..i + 1], board) == es0 + SegmentsEntries(segs[1..][..i], board) by {
          assert segs[..i + 1][1..] == segs[1..][..i];
        }
        AnchorsOfAppend(es0, SegmentsEntries(segs[1..][..i], board));
      }
    }
  }

  /** After the first segment, the remaining lines are anchored in the graph it produced. */
  lemma LinesAnchoredShift(g: Graph, g1: Graph, segs: seq<NetSegment>, board: BoardId)
    requires segs != [] && LinesAnchored(g, segs, board)
    requires forall a :: a in g1.anchors <==>
      a in g.anchors || a in AnchorsOf(if segs[0].board == board then SegmentEntries(segs[0]) else [])
    ensures LinesAnchored(g1, segs[1..], board)
  {
    var es0 := if segs[0].board == board then SegmentEntries(segs[0]) else [];
    forall i, k | 0 <= i < |segs[1..]| && segs[1..][i].board == board && 0 <= k < |segs[1..][i].netLines|
      ensures && (segs[1..][i].netLines[k].startPoint in g1.anchors ||
                  segs[1..][i].netLines[k].startPoint in AnchorsOf(SegmentsEntries(segs[1..][..i + 1], board)))
              && (segs[1..][i].netLines[k].endPoint in g1.anchors ||
                  segs[1..][i].netLines[k].endPoint in AnchorsOf(SegmentsEntries(segs[1..][..i + 1], board)))
    {
      assert segs[1..][i] == segs[i + 1];
      assert SegmentsEntries(segs[..i + 2], board) == es0 + SegmentsEntries(segs[1..][..i + 1], board) by {
        assert segs[..i + 2][1..] == segs[1..][..i + 1];
      }
      AnchorsOfAppend(es0, SegmentsEntries(segs[1..][..i + 1], board));
    }
  }

  /**
   * The segment pass succeeds iff every net line of a segment on `board`
   * ends at anchors mapped before the pass or registered by its own or an
   * earlier segment; a line reaching a later segment's item makes it fail.
   */
  lemma {:induction false} CollectSegmentsSuccess(g: Graph, segs: seq<NetSegment>, board: BoardId)
    ensures CollectSegments(g, segs, board).Success? <==> LinesAnchored(g, segs, board)
    decreases |segs|
  {
    if segs != [] {
      var seg := segs[0];
      if seg.board == board {
        SegmentSucceeds(g, seg, board);
        LinesAnchoredHead(g, segs, board);
      }
      var r0 := CollectSegment(g, seg, board);
      if r0.Success? {
        var g1 := r0.value;
        CollectSegmentsSuccess(g1, segs[1..], board);
        if LinesAnchored(g, segs, board) {
          LinesAnchoredShift(g, g1, segs, board);
        }
        if LinesAnchored(g1, segs[1..], board) {
          LinesAnchoredUnshift(g, g1, segs, board);
        }
      }
    }
  }

}
