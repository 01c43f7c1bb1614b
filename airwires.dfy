/**
 * The library air-wire builder as seen from the board builder: a growing
 * list of points, each identified by the id `AddPoint` hands out, and a
 * growing list of edges between point ids. The air-wire computation on top
 * of this graph is not part of this model.
 *
 * The module also defines when two point ids are connected by a list of
 * edges (edges are undirected).
 */
module AirWires {

  /** A board position in the board's integer length unit. */
  datatype Point = Point(x: int, y: int)

  /** Id of a point inside one builder: its index in the point list. */
  type PointId = nat

  datatype Edge = Edge(a: PointId, b: PointId)

  /** One computed air wire: a start and an end position. */
  type AirWire = (Point, Point)

  class AirWiresBuilder {
    var points: seq<Point>
    var edges: seq<Edge>

    constructor ()
      ensures points == [] && edges == []
    {
      points := [];
      edges := [];
    }

    /** Appends a point; its id is the number of points added before it. */
    method AddPoint(p: Point) returns (id: PointId)
      modifies this
      ensures id == old(|points|)
      ensures points == old(points) + [p]
      ensures edges == old(edges)
    {
      id := |points|;
      points := points + [p];
    }

    method AddEdge(a: PointId, b: PointId)
      modifies this
      ensures edges == old(edges) + [Edge(a, b)]
      ensures points == old(points)
    {
      edges := edges + [Edge(a, b)];
    }
  }

  ghost predicate Adjacent(edges: seq<Edge>, a: PointId, b: PointId) {
    Edge(a, b) in edges || Edge(b, a) in edges
  }

  /** A non-empty list of ids in which each id is adjacent to the next. */
  ghost predicate IsWalk(edges: seq<Edge>, w: seq<PointId>) {
    |w| > 0 && forall k | 0 <= k < |w| - 1 :: Adjacent(edges, w[k], w[k + 1])
  }

  ghost predicate Connected(edges: seq<Edge>, a: PointId, b: PointId) {
    exists w :: IsWalk(edges, w) && w[0] == a && w[|w| - 1] == b
  }

  /**
   * If the edges join every id of `q` to the next one, any two ids of `q`
   * are connected, in either direction.
   */
  lemma WalkConnects(q: seq<PointId>, edges: seq<Edge>)
    requires forall k | 0 <= k < |q| - 1 :: Edge(q[k], q[k + 1]) in edges
    ensures forall i, j | 0 <= i < |q| && 0 <= j < |q| :: Connected(edges, q[i], q[j])
  {
    forall i, j | 0 <= i < |q| && 0 <= j < |q|
      ensures Connected(edges, q[i], q[j])
    {
      if i <= j {
        var w := q[i..j + 1];
        forall k | 0 <= k < |w| - 1
          ensures Adjacent(edges, w[k], w[k + 1])
        {
          assert w[k] == q[i + k] && w[k + 1] == q[i + k + 1];
        }
        assert IsWalk(edges, w) && w[0] == q[i] && w[|w| - 1] == q[j];
      } else {
        var w := seq(i - j + 1, k requires 0 <= k <= i - j => q[i - k]);
        forall k | 0 <= k < |w| - 1
          ensures Adjacent(edges, w[k], w[k + 1])
        {
          assert Edge(q[i - k - 1], q[i - k]) in edges;
        }
        assert IsWalk(edges, w) && w[0] == q[i] && w[|w| - 1] == q[j];
      }
    }
  }
}
