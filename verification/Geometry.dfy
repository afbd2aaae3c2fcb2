/** Points, closed ranges and half-open boxes of the ikd-Tree, over exact real coordinates. */
module Geometry {

  datatype Option<+T> = None | Some(value: T)

  /** A point of the cloud. The tag stands for the attributes (intensity, curvature) that take no
      part in any comparison, so two points may agree in all coordinates and still differ. */
  datatype Point = Point(x: real, y: real, z: real, tag: int)

  /** Lower and upper corner. Read closed it is a node's range, read half-open it is a query box. */
  datatype Box = Box(x0: real, x1: real, y0: real, y1: real, z0: real, z1: real)

  predicate InBox(b: Box, p: Point) {
    b.x0 <= p.x < b.x1 && b.y0 <= p.y < b.y1 && b.z0 <= p.z < b.z1
  }

  predicate InRange(r: Box, p: Point) {
    r.x0 <= p.x <= r.x1 && r.y0 <= p.y <= r.y1 && r.z0 <= p.z <= r.z1
  }

  /** The three early-return tests against a node's range. */
  predicate Misses(b: Box, r: Box) {
    || b.x1 <= r.x0 || b.x0 > r.x1
    || b.y1 <= r.y0 || b.y0 > r.y1
    || b.z1 <= r.z0 || b.z0 > r.z1
  }

  /** The test that the query box swallows a node's range. */
  predicate Covers(b: Box, r: Box) {
    && b.x0 <= r.x0 && b.x1 > r.x1
    && b.y0 <= r.y0 && b.y1 > r.y1
    && b.z0 <= r.z0 && b.z1 > r.z1
  }

  function Min(a: real, b: real): real { if a <= b then a else b }
  function Max(a: real, b: real): real { if a >= b then a else b }
  function Abs(r: real): real { if r < 0.0 then -r else r }

  function Hull(a: Box, b: Box): Box {
    Box(Min(a.x0, b.x0), Max(a.x1, b.x1), Min(a.y0, b.y0), Max(a.y1, b.y1), Min(a.z0, b.z0), Max(a.z1, b.z1))
  }

  function Spot(p: Point): Box { Box(p.x, p.x, p.y, p.y, p.z, p.z) }

  function Coord(p: Point, axis: int): real {
    if axis == 0 then p.x else if axis == 1 then p.y else p.z
  }

  /** Squared Euclidean distance. */
  function Dist(a: Point, b: Point): real {
    (a.x - b.x) * (a.x - b.x) + (a.y - b.y) * (a.y - b.y) + (a.z - b.z) * (a.z - b.z)
  }
}
