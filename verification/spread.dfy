/** `part2` of the scanner-registration solver (day19/main.py): the largest
    Manhattan distance between two scanners, read off the translation parts
    of the transforms into scanner 0's frame. */
module Spread {
  import opened Points
  import opened Grids
  import opened Homogeneous
  import opened Explorer

  /** `h[:-1, -1]`: where the transform puts the origin of its scanner. */
  function Translation(h: Mat4): Point
  {
    Point(h[0][3], h[1][3], h[2][3])
  }

  /** The scanner positions in scanner 0's frame, in the order of `h_dict[0]`. */
  function Positions(row: seq<Entry>): (ps: seq<Point>)
    ensures |ps| == |row| && forall k | 0 <= k < |row| :: ps[k] == Translation(row[k].h)
  {
    seq(|row|, k requires 0 <= k < |row| => Translation(row[k].h))
  }

  /** `np.max` of a non-empty sequence. */
  function MaxOf(s: seq<nat>): (m: nat)
    requires |s| >= 1
    ensures forall k | 0 <= k < |s| :: s[k] <= m
    ensures m in s
  {
    if |s| == 1 then s[0]
    else
      var rest := MaxOf(s[1..]);
      assert forall k | 1 <= k < |s| :: s[k] == s[1..][k - 1];
      if s[0] >= rest then s[0] else rest
  }

  /** The Manhattan distance matrix of the scanner positions, upper triangle
      filled and the rest zero. */
  function DistanceGrid(row: seq<Entry>): (g: Grid<nat>)
    ensures Valid(g) && g.width == |row| && |g.rows| == |row|
  {
    DistanceMatrix(Positions(row), Manhattan, 0)
  }

  lemma DistanceGridAt(row: seq<Entry>, i: nat, j: nat)
    requires i < |row| && j < |row|
    ensures DistanceGrid(row).rows[i][j] ==
      if i <= j then Manhattan(Translation(row[i].h), Translation(row[j].h)) else 0
  {
    var ps := Positions(row);
    assert DistanceGrid(row).rows[i][j] == if i <= j then Manhattan(ps[i], ps[j]) else 0;
  }

  /** `np.max(manhattan_dsts)`. */
  function LargestDistance(row: seq<Entry>): nat
    requires |row| >= 1
  {
    FlattenLength(DistanceGrid(row));
    MaxOf(Flatten(DistanceGrid(row).rows))
  }

  /** Entry (i, j) of a valid grid is entry i * width + j of its flattening. */
  lemma FlattenAt(g: Grid<nat>, i: nat, j: nat)
    requires Valid(g) && i < |g.rows| && j < g.width
    ensures i * g.width + j < |Flatten(g.rows)| && Flatten(g.rows)[i * g.width + j] == g.rows[i][j]
  {
    var w, n := g.width, |g.rows|;
    FlattenLength(g);
    var k := i * w + j;
    assert k < n * w by {
      MulMono(i + 1, n, w);
      assert (i + 1) * w == i * w + w;
    }
    FlattenIndex(g, k);
    DivUnique(k, w, i, j);
  }

  lemma MulMono(a: nat, b: nat, w: nat)
    requires a <= b
    ensures a * w <= b * w
  {
  }

  /** The maximum of a flattened grid bounds every entry. */
  lemma GridMaxBounds(g: Grid<nat>, i: nat, j: nat)
    requires Valid(g) && i < |g.rows| && j < g.width
    ensures |Flatten(g.rows)| >= 1 && g.rows[i][j] <= MaxOf(Flatten(g.rows))
  {
    FlattenAt(g, i, j);
  }

  /** The maximum of a flattened grid is one of its entries. */
  lemma GridMaxAttained(g: Grid<nat>) returns (i: nat, j: nat)
    requires Valid(g) && |Flatten(g.rows)| >= 1
    ensures i < |g.rows| && j < g.width && MaxOf(Flatten(g.rows)) == g.rows[i][j]
  {
    var flat := Flatten(g.rows);
    var k := IndexOf(flat, MaxOf(flat));
    FlattenIndex(g, k);
    i, j := k / g.width, k % g.width;
  }

  /** A position of v in s. */
  lemma IndexOf(s: seq<nat>, v: nat) returns (k: nat)
    requires v in s
    ensures k < |s| && s[k] == v
  {
    k :| 0 <= k < |s| && s[k] == v;
  }

  /** No two scanners are further apart than `part2` reports. */
  lemma LargestDistanceBounds(row: seq<Entry>, i: nat, j: nat)
    requires i < |row| && j < |row|
    ensures Manhattan(Translation(row[i].h), Translation(row[j].h)) <= LargestDistance(row)
  {
    var a, b := if i <= j then i else j, if i <= j then j else i;
    GridMaxBounds(DistanceGrid(row), a, b);
    DistanceGridAt(row, a, b);
    ManhattanSymmetric(Translation(row[i].h), Translation(row[j].h));
  }

  /** The reported distance is that of some pair of scanners. */
  lemma LargestDistanceAttained(row: seq<Entry>)
    requires |row| >= 1
    ensures exists i, j | 0 <= i < |row| && 0 <= j < |row| ::
      LargestDistance(row) == Manhattan(Translation(row[i].h), Translation(row[j].h))
  {
    var g := DistanceGrid(row);
    GridMaxBounds(g, 0, 0);
    var a, b := GridMaxAttained(g);
    DistanceGridAt(row, a, b);
    var pa := Translation(row[a].h);
    if a <= b {
      assert LargestDistance(row) == Manhattan(pa, Translation(row[b].h));
    } else {
      assert LargestDistance(row) == Manhattan(pa, pa);
    }
  }
}
