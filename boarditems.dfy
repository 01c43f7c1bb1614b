/**
 * The board items one net contributes to its air wires, as plain values.
 * Objects of the source are compared by identity; here each anchor carries
 * a key and each board an id.
 */
module BoardItems {
  import opened Wrappers
  import opened AirWires

  /** Identity of a board. */
  type BoardId = nat

  /** Identity of a net-line anchor: a footprint pad, a via or a net point. */
  datatype AnchorRef = PadAnchor(pad: nat) | ViaAnchor(via: nat) | NetPointAnchor(netPoint: nat)

  /** Mounting side of a library footprint pad; `Tht` is through-hole. */
  datatype BoardSide = Top | Bottom | Tht

  /** A footprint pad, on the board it is placed on, with its copper layer name. */
  datatype Pad = Pad(key: nat, board: BoardId, position: Point, side: BoardSide, layerName: string) {
    function Anchor(): AnchorRef { PadAnchor(key) }
  }

  datatype Via = Via(key: nat, position: Point) {
    function Anchor(): AnchorRef { ViaAnchor(key) }
  }

  /** A net point; `layerOfLines` is the layer of the lines ending at it, if any. */
  datatype NetPoint = NetPoint(key: nat, position: Point, layerOfLines: Option<string>) {
    function Anchor(): AnchorRef { NetPointAnchor(key) }
  }

  /** A routed trace between two anchors. */
  datatype NetLine = NetLine(startPoint: AnchorRef, endPoint: AnchorRef)

  datatype NetSegment = NetSegment(board: BoardId, vias: seq<Via>, netPoints: seq<NetPoint>, netLines: seq<NetLine>)

  /** One polygon piece of a plane's filled area. */
  datatype Fragment = Fragment(outline: seq<Point>)

  datatype Plane = Plane(board: BoardId, layerName: string, fragments: seq<Fragment>)

  /** A component signal with the footprint pads registered to it (on any board). */
  datatype ComponentSignal = ComponentSignal(pads: seq<Pad>)

  datatype NetSignal = NetSignal(componentSignals: seq<ComponentSignal>, boardNetSegments: seq<NetSegment>, boardPlanes: seq<Plane>)

  /** No two pads of the signals share a key, so no two share an anchor. */
  predicate UniquePads(sigs: seq<ComponentSignal>) {
    forall i1, j1, i2, j2 |
      0 <= i1 < |sigs| && 0 <= j1 < |sigs[i1].pads| && 0 <= i2 < |sigs| && 0 <= j2 < |sigs[i2].pads| &&
      sigs[i1].pads[j1].key == sigs[i2].pads[j2].key
      :: i1 == i2 && j1 == j2
  }

  /** No two vias of the segments share a key. */
  predicate UniqueVias(segs: seq<NetSegment>) {
    forall i1, j1, i2, j2 |
      0 <= i1 < |segs| && 0 <= j1 < |segs[i1].vias| && 0 <= i2 < |segs| && 0 <= j2 < |segs[i2].vias| &&
      segs[i1].vias[j1].key == segs[i2].vias[j2].key
      :: i1 == i2 && j1 == j2
  }

  /** No two net points of the segments share a key. */
  predicate UniqueNetPoints(segs: seq<NetSegment>) {
    forall i1, j1, i2, j2 |
      0 <= i1 < |segs| && 0 <= j1 < |segs[i1].netPoints| && 0 <= i2 < |segs| && 0 <= j2 < |segs[i2].netPoints| &&
      segs[i1].netPoints[j1].key == segs[i2].netPoints[j2].key
      :: i1 == i2 && j1 == j2
  }

  /**
   * Every pad, via and net point of the net is a distinct object, as each
   * item of the source is one object registered once.
   */
  predicate UniqueItems(net: NetSignal) {
    && UniquePads(net.componentSignals)
    && UniqueVias(net.boardNetSegments)
    && UniqueNetPoints(net.boardNetSegments)
  }

  /** Why a build aborts: a net line ends at an anchor that has no point yet. */
  datatype BuildError = UnregisteredAnchor(anchor: AnchorRef)
}
