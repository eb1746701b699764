/** Two-dimensional arrays of the scanner-registration solver (day19/main.py):
    the upper-triangular distance matrix, zero padding of columns, vertical
    stacking and row-major flattening. */
module Grids {

  /** A matrix given by its rows and its number of columns. The column count
      is kept explicitly so that a matrix without rows still has a width, as a
      numpy array of shape (0, w) does. */
  datatype Grid<D> = Grid(rows: seq<seq<D>>, width: nat)

  /** Every row has exactly `width` entries. */
  predicate Valid<D>(g: Grid<D>)
  {
    forall i | 0 <= i < |g.rows| :: |g.rows[i]| == g.width
  }

  function Max(a: nat, b: nat): nat
  {
    if a < b then b else a
  }

  /** `n` copies of `x`. */
  function Repeat<D>(x: D, n: nat): (s: seq<D>)
    ensures |s| == n && forall i | 0 <= i < n :: s[i] == x
  {
    seq(n, _ => x)
  }

  /** `create_distance_matrix`: start from an all-zero square matrix and fill
      row i from column i onwards with the distances from point i to the points
      i, i+1, ... . Entries below the diagonal keep the zero. */
  function DistanceMatrix<P, D>(pts: seq<P>, metric: (P, P) -> D, zero: D): (m: Grid<D>)
    ensures Valid(m) && m.width == |pts| && |m.rows| == |pts|
    ensures forall i, j | 0 <= i < |pts| && 0 <= j < |pts| ::
              m.rows[i][j] == if i <= j then metric(pts[i], pts[j]) else zero
  {
    var n := |pts|;
    Grid(seq(n, i requires 0 <= i < n =>
               Repeat(zero, i) + seq(n - i, k requires 0 <= k < n - i => metric(pts[i], pts[i + k]))),
         n)
  }

  /** With a metric that is zero on equal points, the diagonal is zero. */
  lemma DistanceMatrixDiagonal<P, D>(pts: seq<P>, metric: (P, P) -> D, zero: D, i: nat)
    requires i < |pts| && metric(pts[i], pts[i]) == zero
    ensures DistanceMatrix(pts, metric, zero).rows[i][i] == zero
  {
  }

  /** Append zero columns until the matrix has `target` columns. */
  function PadTo<D>(g: Grid<D>, target: nat, zero: D): (r: Grid<D>)
    requires Valid(g) && g.width <= target
    ensures Valid(r) && r.width == target && |r.rows| == |g.rows|
    ensures forall i, j | 0 <= i < |g.rows| && 0 <= j < target ::
              r.rows[i][j] == if j < g.width then g.rows[i][j] else zero
  {
    Grid(seq(|g.rows|, i requires 0 <= i < |g.rows| => PadRow(g.rows[i], target, zero)), target)
  }

  function PadRow<D>(row: seq<D>, target: nat, zero: D): (r: seq<D>)
    requires |row| <= target
    ensures |r| == target && forall j | 0 <= j < target :: r[j] == if j < |row| then row[j] else zero
  {
    row + Repeat(zero, target - |row|)
  }

  /** `pad_cols_if_necessary`: bring two matrices to the larger of their
      widths; matrices of equal width are returned as they are. */
  function PadColsIfNecessary<D>(a: Grid<D>, b: Grid<D>, zero: D): (r: (Grid<D>, Grid<D>))
    requires Valid(a) && Valid(b)
    ensures a.width == b.width ==> r == (a, b)
    ensures Valid(r.0) && Valid(r.1) && r.0.width == r.1.width == Max(a.width, b.width)
    ensures |r.0.rows| == |a.rows| && |r.1.rows| == |b.rows|
    ensures forall i, j | 0 <= i < |a.rows| && 0 <= j < r.0.width ::
              r.0.rows[i][j] == if j < a.width then a.rows[i][j] else zero
    ensures forall i, j | 0 <= i < |b.rows| && 0 <= j < r.1.width ::
              r.1.rows[i][j] == if j < b.width then b.rows[i][j] else zero
  {
    if a.width != b.width then
      var target := Max(a.width, b.width);
      (PadTo(a, target, zero), PadTo(b, target, zero))
    else
      (a, b)
  }

  /** `np.vstack` of two matrices of equal width. */
  function Stack<D>(a: Grid<D>, b: Grid<D>): (r: Grid<D>)
    requires Valid(a) && Valid(b) && a.width == b.width
    ensures Valid(r) && r.width == a.width && |r.rows| == |a.rows| + |b.rows|
    ensures forall i | 0 <= i < |r.rows| :: r.rows[i] == if i < |a.rows| then a.rows[i] else b.rows[i - |a.rows|]
  {
    Grid(a.rows + b.rows, a.width)
  }

  /** The entries in row-major order, as numpy numbers the positions of a
      flattened array. */
  function Flatten<D>(rows: seq<seq<D>>): seq<D>
  {
    if rows == [] then [] else rows[0] + Flatten(rows[1..])
  }

  /** The flattened matrix has one entry per cell. */
  lemma {:induction false} FlattenLength<D>(g: Grid<D>)
    requires Valid(g)
    ensures |Flatten(g.rows)| == |g.rows| * g.width
    decreases |g.rows|
  {
    if g.rows != [] {
      FlattenLength(Grid(g.rows[1..], g.width));
      assert |g.rows| * g.width == g.width + |g.rows[1..]| * g.width;
    }
  }

  /** Position k of the flattened matrix is the entry in row k / width and
      column k % width. */
  lemma {:induction false} FlattenIndex<D>(g: Grid<D>, k: nat)
    requires Valid(g) && k < |Flatten(g.rows)|
    ensures g.width > 0 && k / g.width < |g.rows| && Flatten(g.rows)[k] == g.rows[k / g.width][k % g.width]
    decreases |g.rows|
  {
    var w := g.width;
    assert w > 0 by {
      FlattenLength(g);
    }
    var rest := Grid(g.rows[1..], w);
    assert Flatten(g.rows) == g.rows[0] + Flatten(rest.rows);
    if k < w {
      assert k / w == 0 && k % w == k;
    } else {
      DivModShift(k, w);
      FlattenIndex(rest, k - w);
    }
  }

  /** Dividing k by w after subtracting one w lowers the quotient by one and
      keeps the remainder. */
  lemma DivModShift(k: nat, w: nat)
    requires 0 < w <= k
    ensures (k - w) / w == k / w - 1 && (k - w) % w == k % w
  {
    var q, r := k / w, k % w;
    assert k - w == (q - 1) * w + r by {
      assert k == q * w + r;
      assert (q - 1) * w == q * w - w;
    }
    DivUnique(k - w, w, q - 1, r);
  }

  /** Quotient and remainder are determined by any decomposition with a remainder below the divisor. */
  lemma DivUnique(k: int, w: int, q: int, r: int)
    requires w > 0 && 0 <= r < w && k == q * w + r
    ensures k / w == q && k % w == r
  {
    var q', r' := k / w, k % w;
    assert k == q' * w + r';
    assert (q' - q) * w == r - r' by {
      assert (q' - q) * w == q' * w - q * w;
    }
    if q' > q {
      MulAtLeast(q' - q, w);
    } else if q' < q {
      MulAtLeast(q - q', w);
    }
  }

  lemma MulAtLeast(a: int, w: int)
    requires a >= 1 && w > 0
    ensures a * w >= w
  {
    assert a * w == (a - 1) * w + w;
  }
}
