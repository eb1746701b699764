/** Beacon and scanner positions of the scanner-registration solver
    (day19/main.py) and the two integer metrics on them. */
module Points {

  /** A position in the three-dimensional integer grid. */
  datatype Point = Point(x: int, y: int, z: int)

  function Abs(a: int): nat
  {
    if a < 0 then -a else a
  }

  /** `manhattan_distance`: the sum of the absolute coordinate differences. */
  function Manhattan(p: Point, q: Point): (d: nat)
    ensures d == 0 <==> p == q
    ensures d >= Abs(p.x - q.x) && d >= Abs(p.y - q.y) && d >= Abs(p.z - q.z)
  {
    Abs(p.x - q.x) + Abs(p.y - q.y) + Abs(p.z - q.z)
  }

  /** The Manhattan distance does not depend on the order of its arguments. */
  lemma ManhattanSymmetric(p: Point, q: Point)
    ensures Manhattan(p, q) == Manhattan(q, p)
  {
  }

  /** The Manhattan distance satisfies the triangle inequality. */
  lemma ManhattanTriangle(p: Point, q: Point, s: Point)
    ensures Manhattan(p, s) <= Manhattan(p, q) + Manhattan(q, s)
  {
  }

  /** The squared Euclidean distance. Two beacon pairs have equal Euclidean
      distances exactly when their squared distances are equal, so the overlap
      matcher compares these integers instead of square roots. */
  function SquaredDistance(p: Point, q: Point): (d: nat)
    ensures d == 0 <==> p == q
  {
    var dx, dy, dz := p.x - q.x, p.y - q.y, p.z - q.z;
    assert dx * dx >= 0 && dy * dy >= 0 && dz * dz >= 0;
    assert dx != 0 ==> dx * dx > 0;
    assert dy != 0 ==> dy * dy > 0;
    assert dz != 0 ==> dz * dz > 0;
    dx * dx + dy * dy + dz * dz
  }
}
