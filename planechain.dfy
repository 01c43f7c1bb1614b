/**
 * Connections made by planes. For each fragment of a plane of the net on
 * this board, the points are scanned in builder order; a point qualifies
 * when its layer is compatible with the plane and the fragment contains
 * it, and each qualifying point is joined to the previous qualifying one.
 * The geometric containment test is a parameter.
 */
module PlaneChain {
  import opened Wrappers
  import opened AirWires
  import opened BoardItems
  import opened NetGraph

  /** A point on all layers, or on the plane's own layer, can touch the plane. */
  predicate Compatible(layer: Layer, planeLayer: string) {
    layer.None? || layer.value == planeLayer
  }

  predicate Qualifies(
    points: seq<Point>, layers: map<PointId, Layer>, planeLayer: string,
    frag: Fragment, contains: (Fragment, Point) -> bool, id: PointId)
    requires id < |points| && id in layers
  {
    Compatible(layers[id], planeLayer) && contains(frag, points[id])
  }

  /** The qualifying ids among the first `n` points, in builder order. */
  function Qualifying(
    points: seq<Point>, layers: map<PointId, Layer>, planeLayer: string,
    frag: Fragment, contains: (Fragment, Point) -> bool, n: nat): seq<PointId>
    requires n <= |points| && LayersCover(points, layers)
    decreases n
  {
    if n == 0 then []
    else
      Qualifying(points, layers, planeLayer, frag, contains, n - 1)
      + (if Qualifies(points, layers, planeLayer, frag, contains, n - 1) then [n - 1] else [])
  }

  /** Ids in strictly increasing order: builder order, without repeats. */
  predicate Increasing(q: seq<PointId>) {
    forall i, j | 0 <= i < j < |q| :: q[i] < q[j]
  }

  /** One edge from each id to the next, built the way the scan builds it. */
  function Chain(q: seq<PointId>): seq<Edge>
    decreases |q|
  {
    if |q| < 2 then [] else Chain(q[..|q| - 1]) + [Edge(q[|q| - 2], q[|q| - 1])]
  }

  /** The edges one fragment adds. */
  function FragmentEdges(
    points: seq<Point>, layers: map<PointId, Layer>, planeLayer: string,
    frag: Fragment, contains: (Fragment, Point) -> bool): seq<Edge>
    requires LayersCover(points, layers)
  {
    Chain(Qualifying(points, layers, planeLayer, frag, contains, |points|))
  }

  function FragmentsEdges(
    points: seq<Point>, layers: map<PointId, Layer>, planeLayer: string,
    frags: seq<Fragment>, contains: (Fragment, Point) -> bool): seq<Edge>
    requires LayersCover(points, layers)
    decreases |frags|
  {
    if frags == [] then []
    else FragmentEdges(points, layers, planeLayer, frags[0], contains)
         + FragmentsEdges(points, layers, planeLayer, frags[1..], contains)
  }

  /** The edges all planes add; a plane on another board adds none. */
  function PlanesEdges(
    points: seq<Point>, layers: map<PointId, Layer>, planes: seq<Plane>,
    board: BoardId, contains: (Fragment, Point) -> bool): seq<Edge>
    requires LayersCover(points, layers)
    decreases |planes|
  {
    if planes == [] then []
    else
      (if planes[0].board == board
       then FragmentsEdges(points, layers, planes[0].layerName, planes[0].fragments, contains)
       else [])
      + PlanesEdges(points, layers, planes[1..], board, contains)
  }

  /**
   * One step of a scan over the fragments of a plane: with `done` the edges
   * so far, fragment `j` moves its edges from the remaining ones to `done`.
   */
  lemma FragmentsEdgesStep(
    points: seq<Point>, layers: map<PointId, Layer>, planeLayer: string,
    frags: seq<Fragment>, contains: (Fragment, Point) -> bool, j: nat, done: seq<Edge>)
    requires LayersCover(points, layers) && j < |frags|
    ensures done + FragmentsEdges(points, layers, planeLayer, frags[j..], contains) ==
      (done + FragmentEdges(points, layers, planeLayer, frags[j], contains)) +
      FragmentsEdges(points, layers, planeLayer, frags[j + 1..], contains)
  {
    assert frags[j..][1..] == frags[j + 1..];
  }

  /** A scan over the fragments starts with all their edges remaining and ends with none. */
  lemma FragmentsEdgesEnds(
    points: seq<Point>, layers: map<PointId, Layer>, planeLayer: string,
    frags: seq<Fragment>, contains: (Fragment, Point) -> bool)
    requires LayersCover(points, layers)
    ensures FragmentsEdges(points, layers, planeLayer, frags[0..], contains) ==
      FragmentsEdges(points, layers, planeLayer, frags, contains)
    ensures FragmentsEdges(points, layers, planeLayer, frags[|frags|..], contains) == []
  {
    assert frags[0..] == frags;
    assert frags[|frags|..] == [];
  }

  /**
   * One step of a scan over the planes: with `done` the edges so far, plane
   * `i` moves its edges (if it is on this board) from the remaining ones to `done`.
   */
  lemma PlanesEdgesStep(
    points: seq<Point>, layers: map<PointId, Layer>, planes: seq<Plane>,
    board: BoardId, contains: (Fragment, Point) -> bool, i: nat, done: seq<Edge>)
    requires LayersCover(points, layers) && i < |planes|
    ensures planes[i].board == board ==>
      done + PlanesEdges(points, layers, planes[i..], board, contains) ==
      (done + FragmentsEdges(points, layers, planes[i].layerName, planes[i].fragments, contains)) +
      PlanesEdges(points, layers, planes[i + 1..], board, contains)
    ensures planes[i].board != board ==>
      done + PlanesEdges(points, layers, planes[i..], board, contains) ==
      done + PlanesEdges(points, layers, planes[i + 1..], board, contains)
  {
    assert planes[i..][1..] == planes[i + 1..];
  }

  /** A scan over the planes starts with all their edges remaining and ends with none. */
  lemma PlanesEdgesEnds(
    points: seq<Point>, layers: map<PointId, Layer>, planes: seq<Plane>,
    board: BoardId, contains: (Fragment, Point) -> bool)
    requires LayersCover(points, layers)
    ensures PlanesEdges(points, layers, planes[0..], board, contains) == PlanesEdges(points, layers, planes, board, contains)
    ensures PlanesEdges(points, layers, planes[|planes|..], board, contains) == []
  {
    assert planes[0..] == planes;
    assert planes[|planes|..] == [];
  }

  /**
   * An id is among the qualifying ids iff it is one of the first `n` points
   * and qualifies; the ids come in strictly increasing (builder) order.
   */
  lemma {:induction false} QualifyingSpec(
    points: seq<Point>, layers: map<PointId, Layer>, planeLayer: string,
    frag: Fragment, contains: (Fragment, Point) -> bool, n: nat)
    requires n <= |points| && LayersCover(points, layers)
    ensures forall id: PointId :: id in Qualifying(points, layers, planeLayer, frag, contains, n) <==>
      id < n && Qualifies(points, layers, planeLayer, frag, contains, id)
    ensures Increasing(Qualifying(points, layers, planeLayer, frag, contains, n))
    decreases n
  {
    if n > 0 {
      QualifyingSpec(points, layers, planeLayer, frag, contains, n - 1);
      var p := Qualifying(points, layers, planeLayer, frag, contains, n - 1);
      var q := Qualifying(points, layers, planeLayer, frag, contains, n);
      if q != p {
        assert q == p + [n - 1];
        forall i, j | 0 <= i < j < |q| ensures q[i] < q[j] {
          assert q[i] == p[i];
          if j == |p| {
            assert p[i] in p;
            assert p[i] < n - 1;
          } else {
            assert q[j] == p[j];
            assert p[i] < p[j];
          }
        }
      }
    }
  }

  /** k ids give max(0, k - 1) edges, the k-th joining ids k and k + 1. */
  lemma {:induction false} ChainShape(q: seq<PointId>)
    ensures |Chain(q)| == if q == [] then 0 else |q| - 1
    ensures forall k | 0 <= k < |Chain(q)| :: Chain(q)[k] == Edge(q[k], q[k + 1])
    decreases |q|
  {
    if |q| >= 2 {
      var p := q[..|q| - 1];
      ChainShape(p);
      forall k | 0 <= k < |Chain(q)|
        ensures Chain(q)[k] == Edge(q[k], q[k + 1])
      {
        if k < |Chain(p)| {
          assert Chain(q)[k] == Chain(p)[k];
          assert p[k] == q[k] && p[k + 1] == q[k + 1];
        }
      }
    }
  }

  /**
   * One fragment with k qualifying points adds max(0, k - 1) edges, each
   * joining a qualifying point to the next one in builder order, and those
   * edges alone connect every two qualifying points.
   */
  lemma FragmentChain(
    points: seq<Point>, layers: map<PointId, Layer>, planeLayer: string,
    frag: Fragment, contains: (Fragment, Point) -> bool)
    requires LayersCover(points, layers)
    ensures var q := Qualifying(points, layers, planeLayer, frag, contains, |points|);
      var es := FragmentEdges(points, layers, planeLayer, frag, contains);
      && |es| == (if |q| == 0 then 0 else |q| - 1)
      && (forall k | 0 <= k < |es| :: es[k] == Edge(q[k], q[k + 1]) && q[k] < q[k + 1])
      && (forall x: PointId, y: PointId |
            x < |points| && y < |points| &&
            Qualifies(points, layers, planeLayer, frag, contains, x) &&
            Qualifies(points, layers, planeLayer, frag, contains, y) ::
            Connected(es, x, y))
  {
    var q := Qualifying(points, layers, planeLayer, frag, contains, |points|);
    var es := FragmentEdges(points, layers, planeLayer, frag, contains);
    QualifyingSpec(points, layers, planeLayer, frag, contains, |points|);
    ChainShape(q);
    WalkConnects(q, es);
    forall x: PointId, y: PointId |
      x < |points| && y < |points| &&
      Qualifies(points, layers, planeLayer, frag, contains, x) &&
      Qualifies(points, layers, planeLayer, frag, contains, y)
      ensures Connected(es, x, y)
    {
      assert x in q && y in q;
      var i :| 0 <= i < |q| && q[i] == x;
      var j :| 0 <= j < |q| && q[j] == y;
    }
  }

  /** Every plane edge joins two existing points. */
  lemma {:induction false} PlanesEdgesInRange(
    points: seq<Point>, layers: map<PointId, Layer>, planes: seq<Plane>,
    board: BoardId, contains: (Fragment, Point) -> bool)
    requires LayersCover(points, layers)
    ensures forall e | e in PlanesEdges(points, layers, planes, board, contains) ::
      e.a < |points| && e.b < |points|
    decreases |planes|
  {
    if planes != [] {
      PlanesEdgesInRange(points, layers, planes[1..], board, contains);
      if planes[0].board == board {
        FragmentsEdgesInRange(points, layers, planes[0].layerName, planes[0].fragments, contains);
      }
    }
  }

  lemma {:induction false} FragmentsEdgesInRange(
    points: seq<Point>, layers: map<PointId, Layer>, planeLayer: string,
    frags: seq<Fragment>, contains: (Fragment, Point) -> bool)
    requires LayersCover(points, layers)
    ensures forall e | e in FragmentsEdges(points, layers, planeLayer, frags, contains) ::
      e.a < |points| && e.b < |points|
    decreases |frags|
  {
    if frags != [] {
      FragmentsEdgesInRange(points, layers, planeLayer, frags[1..], contains);
      var q := Qualifying(points, layers, planeLayer, frags[0], contains, |points|);
      QualifyingSpec(points, layers, planeLayer, frags[0], contains, |points|);
      ChainShape(q);
      forall e | e in FragmentEdges(points, layers, planeLayer, frags[0], contains)
        ensures e.a < |points| && e.b < |points|
      {
        var k :| 0 <= k < |Chain(q)| && Chain(q)[k] == e;
        assert q[k] in q && q[k + 1] in q;
      }
    }
  }

  /**
   * The plane edges are exactly the fragment edges of the planes on this
   * board: every fragment of such a plane contributes its edges, and every
   * plane edge comes from one of them.
   */
  lemma {:induction false} PlanesEdgesMembers(
    points: seq<Point>, layers: map<PointId, Layer>, planes: seq<Plane>,
    board: BoardId, contains: (Fragment, Point) -> bool)
    requires LayersCover(points, layers)
    ensures forall e :: e in PlanesEdges(points, layers, planes, board, contains) <==>
      exists i, j | 0 <= i < |planes| && 0 <= j < |planes[i].fragments| ::
        planes[i].board == board &&
        e in FragmentEdges(points, layers, planes[i].layerName, planes[i].fragments[j], contains)
    decreases |planes|
  {
    if planes != [] {
      PlanesEdgesMembers(points, layers, planes[1..], board, contains);
      FragmentsEdgesMembers(points, layers, planes[0].layerName, planes[0].fragments, contains);
      forall e ensures e in PlanesEdges(points, layers, planes, board, contains) <==>
        exists i, j | 0 <= i < |planes| && 0 <= j < |planes[i].fragments| ::
          planes[i].board == board &&
          e in FragmentEdges(points, layers, planes[i].layerName, planes[i].fragments[j], contains)
      {
        if e in PlanesEdges(points, layers, planes[1..], board, contains) {
          var i, j :| 0 <= i < |planes[1..]| && 0 <= j < |planes[1..][i].fragments| &&
            planes[1..][i].board == board &&
            e in FragmentEdges(points, layers, planes[1..][i].layerName, planes[1..][i].fragments[j], contains);
          assert planes[i + 1] == planes[1..][i];
        }
        if i, j :| (0 <= i < |planes| && 0 <= j < |planes[i].fragments| &&
                    planes[i].board == board &&
                    e in FragmentEdges(points, layers, planes[i].layerName, planes[i].fragments[j], contains))
        {
          if i > 0 {
            assert planes[1..][i - 1] == planes[i];
          }
        }
      }
    }
  }

  /** The edges of one fragment of a plane on this board are plane edges. */
  lemma FragmentEdgesInPlanes(
    points: seq<Point>, layers: map<PointId, Layer>, planes: seq<Plane>,
    board: BoardId, contains: (Fragment, Point) -> bool, i: nat, j: nat)
    requires LayersCover(points, layers)
    requires i < |planes| && j < |planes[i].fragments| && planes[i].board == board
    ensures forall e | e in FragmentEdges(points, layers, planes[i].layerName, planes[i].fragments[j], contains) ::
      e in PlanesEdges(points, layers, planes, board, contains)
  {
    PlanesEdgesMembers(points, layers, planes, board, contains);
  }

  lemma {:induction false} FragmentsEdgesMembers(
    points: seq<Point>, layers: map<PointId, Layer>, planeLayer: string,
    frags: seq<Fragment>, contains: (Fragment, Point) -> bool)
    requires LayersCover(points, layers)
    ensures forall e :: e in FragmentsEdges(points, layers, planeLayer, frags, contains) <==>
      exists j | 0 <= j < |frags| :: e in FragmentEdges(points, layers, planeLayer, frags[j], contains)
    decreases |frags|
  {
    if frags != [] {
      FragmentsEdgesMembers(points, layers, planeLayer, frags[1..], contains);
      forall e ensures e in FragmentsEdges(points, layers, planeLayer, frags, contains) <==>
        exists j | 0 <= j < |frags| :: e in FragmentEdges(points, layers, planeLayer, frags[j], contains)
      {
        if e in FragmentsEdges(points, layers, planeLayer, frags[1..], contains) {
          var j :| 0 <= j < |frags[1..]| && e in FragmentEdges(points, layers, planeLayer, frags[1..][j], contains);
          assert frags[j + 1] == frags[1..][j];
        }
        if j :| 0 <= j < |frags| && e in FragmentEdges(points, layers, planeLayer, frags[j], contains) {
          if j > 0 {
            assert frags[1..][j - 1] == frags[j];
          }
        }
      }
    }
  }
}
