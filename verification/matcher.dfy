/** `map_common_points` of the scanner-registration solver (day19/main.py):
    deciding whether two scanners see at least twelve common beacons, and
    which beacon of one corresponds to which beacon of the other, from the
    distances the two distance matrices share. The distance type is generic. */
module Matcher {
  import opened Results
  import opened Grids

  /** Twelve common beacons give C(12, 2) = 66 common pairwise distances. */
  const MinCommonBeacons: nat := 12
  const MinSharedDistances: nat := 66
  /** A common beacon takes part in eleven of those distances. */
  const MinVotes: nat := 11

  /** Python's `IndexError` from the vote matrix. */
  datatype Fault = IndexOutOfBounds

  /** `(None, None)` or the two index arrays of matched beacons. */
  datatype Match = NoOverlap | Overlap(src: seq<nat>, dst: seq<nat>)

  /** The common width after padding. */
  function Width<D>(dst0: Grid<D>, dst1: Grid<D>): nat
  {
    Max(dst0.width, dst1.width)
  }

  /** `all_dst` flattened: the padded matrices stacked vertically, in the row-major
      order that numbers the first-occurrence indices of `np.unique`. */
  function Combined<D>(dst0: Grid<D>, dst1: Grid<D>, zero: D): seq<D>
    requires Valid(dst0) && Valid(dst1)
  {
    var padded := PadColsIfNecessary(dst0, dst1, zero);
    Flatten(Stack(padded.0, padded.1).rows)
  }

  /** The values occurring exactly twice (`vals[cnts == 2]`). */
  function SharedValues<D(==)>(flat: seq<D>): (vals: set<D>)
    ensures forall v | v in vals :: v in flat && multiset(flat)[v] == 2
    ensures forall v | v in flat && multiset(flat)[v] == 2 :: v in vals
  {
    set v | v in flat && multiset(flat)[v] == 2
  }

  /** Position k holds the first occurrence of a value occurring exactly twice
      (the entries of `idxs[cnts == 2]`). */
  predicate FirstShared<D(==)>(flat: seq<D>, k: nat)
  {
    k < |flat| && multiset(flat)[flat[k]] == 2 && flat[k] !in flat[..k]
  }

  /** The row indices at which `v` occurs in `b` (first array of `np.where`). */
  function RowsOf<D(==)>(b: Grid<D>, v: D): set<nat>
  {
    set i: nat | i < |b.rows| && v in b.rows[i]
  }

  /** The column indices at which `v` occurs in `b` (second array of `np.where`). */
  function ColsOf<D(==)>(b: Grid<D>, v: D): set<nat>
  {
    set j: nat | j < b.width && InColumn(b, j, v)
  }

  predicate InColumn<D(==)>(b: Grid<D>, j: nat, v: D)
  {
    exists i | 0 <= i < |b.rows| :: j < |b.rows[i]| && b.rows[i][j] == v
  }

  function Ind(c: bool): nat
  {
    if c then 1 else 0
  }

  /** The votes one shared value adds to cell (x, y). The source increments
      `map_mat[x, ys]` for x in (row, col) of the first occurrence and ys in
      (rows, cols) of the occurrences in the second matrix; a fancy-indexed
      `+=` adds one to each distinct index of `ys` once. */
  function Weight(row: nat, col: nat, rows: set<nat>, cols: set<nat>, x: nat, y: nat): nat
  {
    Ind(x == row && y in rows) + Ind(x == col && y in rows) + Ind(x == row && y in cols) + Ind(x == col && y in cols)
  }

  /** The votes the first `n` positions of the flattened matrix add to cell (x, y). */
  function Votes<D(==)>(flat: seq<D>, w: nat, b: Grid<D>, n: nat, x: nat, y: nat): nat
    requires n <= |flat| && w > 0
  {
    if n == 0 then 0
    else Votes(flat, w, b, n - 1, x, y) + Contribution(flat, w, b, n - 1, x, y)
  }

  function Contribution<D(==)>(flat: seq<D>, w: nat, b: Grid<D>, k: nat, x: nat, y: nat): nat
    requires k < |flat| && w > 0
  {
    if FirstShared(flat, k) then Weight(k / w, k % w, RowsOf(b, flat[k]), ColsOf(b, flat[k]), x, y) else 0
  }

  /** The shared value first occurring at position k makes the source index
      the vote matrix out of its bounds: a row or column index of the first
      occurrence at least the first matrix's row count, or a column index of
      the second matrix at least its row count, the width of the vote matrix.
      numpy bounds-checks the scalar row index even when the value
      is absent from the second matrix and the selected cells are empty. */
  predicate Faulty<D(==)>(flat: seq<D>, w: nat, b: Grid<D>, n0: nat, k: nat)
    requires w > 0
  {
    && FirstShared(flat, k)
    && (k / w >= n0 || k % w >= n0 || exists c | c in ColsOf(b, flat[k]) :: c >= |b.rows|)
  }

  /** `map_mat[x, ys] += 1` for x in (row, col) and ys in (rows, cols). */
  function AddVotes(m: seq<seq<nat>>, n1: nat, row: nat, col: nat, rows: set<nat>, cols: set<nat>): (m': seq<seq<nat>>)
    requires forall x | 0 <= x < |m| :: |m[x]| == n1
    ensures |m'| == |m| && forall x | 0 <= x < |m| :: |m'[x]| == n1
    ensures forall x, y | 0 <= x < |m| && 0 <= y < n1 :: m'[x][y] == m[x][y] + Weight(row, col, rows, cols, x, y)
  {
    seq(|m|, x requires 0 <= x < |m| => seq(n1, y requires 0 <= y < n1 => m[x][y] + Weight(row, col, rows, cols, x, y)))
  }

  /** The vote matrix `map_mat` of `n0` rows and as many columns as `b` has rows. */
  method Tally<D(==)>(flat: seq<D>, w: nat, b: Grid<D>, n0: nat) returns (r: Result<seq<seq<nat>>, Fault>)
    requires w > 0
    ensures r.Err? <==> exists k | 0 <= k < |flat| :: Faulty(flat, w, b, n0, k)
    ensures r.Ok? ==> |r.value| == n0 && forall x | 0 <= x < n0 :: |r.value[x]| == |b.rows|
    ensures r.Ok? ==> forall x, y | 0 <= x < n0 && 0 <= y < |b.rows| :: r.value[x][y] == Votes(flat, w, b, |flat|, x, y)
  {
    var n1 := |b.rows|;
    var m: seq<seq<nat>> := seq(n0, _ => seq(n1, _ => 0));
    var k := 0;
    while k < |flat|
      invariant 0 <= k <= |flat|
      invariant forall j | 0 <= j < k :: !Faulty(flat, w, b, n0, j)
      invariant |m| == n0 && forall x | 0 <= x < n0 :: |m[x]| == n1
      invariant forall x, y | 0 <= x < n0 && 0 <= y < n1 :: m[x][y] == Votes(flat, w, b, k, x, y)
    {
      if Faulty(flat, w, b, n0, k) {
        return Err(IndexOutOfBounds);
      }
      if FirstShared(flat, k) {
        m := AddVotes(m, n1, k / w, k % w, RowsOf(b, flat[k]), ColsOf(b, flat[k]));
      }
      k := k + 1;
    }
    return Ok(m);
  }

  /** Cell p comes before cell q in row-major order. */
  predicate Before(p: (nat, nat), q: (nat, nat))
  {
    p.0 < q.0 || (p.0 == q.0 && p.1 < q.1)
  }

  predicate RowMajor(pairs: seq<(nat, nat)>)
  {
    forall i, j | 0 <= i < j < |pairs| :: Before(pairs[i], pairs[j])
  }

  /** The cells of row x from column y on with at least `MinVotes` votes, left to right. */
  function AcceptRow(row: seq<nat>, x: nat, y: nat): (pairs: seq<(nat, nat)>)
    requires y <= |row|
    ensures forall p | p in pairs :: p.0 == x && y <= p.1 < |row| && row[p.1] >= MinVotes
    ensures forall b: nat | y <= b < |row| && row[b] >= MinVotes :: (x, b) in pairs
    ensures forall i, j | 0 <= i < j < |pairs| :: pairs[i].1 < pairs[j].1
    decreases |row| - y
  {
    if y == |row| then []
    else (if row[y] >= MinVotes then [(x, y)] else []) + AcceptRow(row, x, y + 1)
  }

  /** `np.where(map_mat >= 11)` from row x on: the cells with at least
      `MinVotes` votes, in row-major order. */
  function AcceptFrom(m: seq<seq<nat>>, x: nat): (pairs: seq<(nat, nat)>)
    requires x <= |m|
    ensures forall p | p in pairs :: x <= p.0 < |m| && p.1 < |m[p.0]| && m[p.0][p.1] >= MinVotes
    ensures forall a: nat, b: nat | x <= a < |m| && b < |m[a]| && m[a][b] >= MinVotes :: (a, b) in pairs
    ensures RowMajor(pairs)
    decreases |m| - x
  {
    if x == |m| then []
    else
      var here, rest := AcceptRow(m[x], x, 0), AcceptFrom(m, x + 1);
      ConcatRowMajor(here, rest, x);
      ConcatCovers(m, x, here, rest);
      here + rest
  }

  /** A row's cells followed by the cells of later rows are in row-major order. */
  lemma ConcatRowMajor(here: seq<(nat, nat)>, rest: seq<(nat, nat)>, x: nat)
    requires forall p | p in here :: p.0 == x
    requires forall i, j | 0 <= i < j < |here| :: here[i].1 < here[j].1
    requires forall p | p in rest :: x < p.0
    requires RowMajor(rest)
    ensures RowMajor(here + rest)
  {
    var s := here + rest;
    forall i, j | 0 <= i < j < |s|
      ensures Before(s[i], s[j])
    {
      if j < |here| {
        assert s[i] == here[i] && s[j] == here[j];
        assert here[i] in here && here[j] in here;
      } else if i < |here| {
        assert s[i] == here[i] && s[j] == rest[j - |here|];
        assert here[i] in here && rest[j - |here|] in rest;
      } else {
        assert s[i] == rest[i - |here|] && s[j] == rest[j - |here|];
      }
    }
  }

  /** Every accepted cell of rows x .. is in row x's cells or the later rows' cells. */
  lemma ConcatCovers(m: seq<seq<nat>>, x: nat, here: seq<(nat, nat)>, rest: seq<(nat, nat)>)
    requires x < |m|
    requires forall b: nat | b < |m[x]| && m[x][b] >= MinVotes :: (x, b) in here
    requires forall a: nat, b: nat | x + 1 <= a < |m| && b < |m[a]| && m[a][b] >= MinVotes :: (a, b) in rest
    ensures forall a: nat, b: nat | x <= a < |m| && b < |m[a]| && m[a][b] >= MinVotes :: (a, b) in here + rest
  {
    forall a: nat, b: nat | x <= a < |m| && b < |m[a]| && m[a][b] >= MinVotes
      ensures (a, b) in here + rest
    {
      if a == x {
        assert (a, b) in here;
      } else {
        assert (a, b) in rest;
      }
    }
  }

  /** The two index arrays of the accepted pairs. */
  function Sources(pairs: seq<(nat, nat)>): (src: seq<nat>)
    ensures |src| == |pairs| && forall i | 0 <= i < |pairs| :: src[i] == pairs[i].0
  {
    seq(|pairs|, i requires 0 <= i < |pairs| => pairs[i].0)
  }

  function Targets(pairs: seq<(nat, nat)>): (dst: seq<nat>)
    ensures |dst| == |pairs| && forall i | 0 <= i < |pairs| :: dst[i] == pairs[i].1
  {
    seq(|pairs|, i requires 0 <= i < |pairs| => pairs[i].1)
  }

  /** Each value occurring exactly twice has exactly one first-occurrence
      position, so tallying over those positions visits every such value once. */
  lemma FirstSharedUnique<D>(flat: seq<D>, k: nat, k': nat)
    requires FirstShared(flat, k) && FirstShared(flat, k') && flat[k] == flat[k']
    ensures k == k'
  {
  }

  lemma {:induction false} FirstSharedExists<D>(flat: seq<D>, v: D)
    requires v in SharedValues(flat)
    ensures exists k: nat | k < |flat| :: FirstShared(flat, k) && flat[k] == v
  {
    var k: nat :| k < |flat| && flat[k] == v && forall j | 0 <= j < k :: flat[j] != v by {
      FirstIndexExists(flat, v, |flat|);
    }
    assert flat[k] !in flat[..k];
    assert FirstShared(flat, k);
  }

  lemma {:induction false} FirstIndexExists<D>(flat: seq<D>, v: D, n: nat)
    requires n <= |flat| && v in flat[..n]
    ensures exists k: nat | k < n :: flat[k] == v && forall j | 0 <= j < k :: flat[j] != v
  {
    if v in flat[..n - 1] {
      FirstIndexExists(flat, v, n - 1);
    } else {
      assert flat[n - 1] == v;
      assert forall j | 0 <= j < n - 1 :: flat[j] != v by {
        forall j | 0 <= j < n - 1
          ensures flat[j] != v
        {
          assert flat[j] == flat[..n - 1][j];
        }
      }
    }
  }

  /** The positions `idxs[cnts == 2]`: the first occurrences of the values occurring exactly twice. */
  function FirstPositions<D(==)>(flat: seq<D>): set<nat>
  {
    set k: nat | k < |flat| && FirstShared(flat, k)
  }

  /** There are as many values occurring exactly twice as first-occurrence
      positions of such values: the `len(vals) < 66` test counts the same
      thing as the per-position vote loop visits. */
  lemma SharedValuesCount<D>(flat: seq<D>)
    ensures |SharedValues(flat)| == |FirstPositions(flat)|
  {
    var ks := FirstPositions(flat);
    assert SharedValues(flat) == ValuesAt(flat, ks) by {
      forall v | v in SharedValues(flat)
        ensures v in ValuesAt(flat, ks)
      {
        FirstSharedExists(flat, v);
        var k: nat :| k < |flat| && FirstShared(flat, k) && flat[k] == v;
        assert k in ks;
      }
      forall v | v in ValuesAt(flat, ks)
        ensures v in SharedValues(flat)
      {
        var k :| k in ks && flat[k] == v;
        assert flat[k] in flat;
      }
    }
    ValuesAtCard(flat, ks);
  }

  /** The values at a set of positions. */
  function ValuesAt<D>(flat: seq<D>, ks: set<nat>): set<D>
    requires forall k | k in ks :: k < |flat|
  {
    set k | k in ks :: flat[k]
  }

  /** Distinct first-occurrence positions hold distinct values. */
  lemma {:induction false} ValuesAtCard<D>(flat: seq<D>, ks: set<nat>)
    requires forall k | k in ks :: k < |flat| && FirstShared(flat, k)
    ensures |ValuesAt(flat, ks)| == |ks|
    decreases ks
  {
    if ks != {} {
      var k :| k in ks;
      var rest := ks - {k};
      ValuesAtCard(flat, rest);
      forall k' | k' in ks && flat[k'] == flat[k]
        ensures k' == k
      {
        FirstSharedUnique(flat, k', k);
      }
      assert flat[k] !in ValuesAt(flat, rest);
      assert ValuesAt(flat, ks) == ValuesAt(flat, rest) + {flat[k]};
    } else {
      assert ValuesAt(flat, ks) == {};
    }
  }

  /** The votes cell (x, y) of the vote matrix receives. */
  function VoteCount<D(==)>(dst0: Grid<D>, dst1: Grid<D>, zero: D, x: nat, y: nat): nat
    requires Valid(dst0) && Valid(dst1) && Width(dst0, dst1) > 0
  {
    var flat := Combined(dst0, dst1, zero);
    Votes(flat, Width(dst0, dst1), PadColsIfNecessary(dst0, dst1, zero).1, |flat|, x, y)
  }

  /** Some shared value makes the source index the vote matrix out of bounds. */
  predicate IndexFault<D(==)>(dst0: Grid<D>, dst1: Grid<D>, zero: D)
    requires Valid(dst0) && Valid(dst1) && Width(dst0, dst1) > 0
  {
    var flat := Combined(dst0, dst1, zero);
    exists k | 0 <= k < |flat| :: Faulty(flat, Width(dst0, dst1), PadColsIfNecessary(dst0, dst1, zero).1, |dst0.rows|, k)
  }

  /** Enough values occur exactly twice for the scanners to count as overlapping. */
  predicate Overlapping<D(==)>(dst0: Grid<D>, dst1: Grid<D>, zero: D)
    requires Valid(dst0) && Valid(dst1)
  {
    |SharedValues(Combined(dst0, dst1, zero))| >= MinSharedDistances
  }

  /** Shared values exist only when the padded matrices have columns. */
  lemma OverlappingWidth<D>(dst0: Grid<D>, dst1: Grid<D>, zero: D)
    requires Valid(dst0) && Valid(dst1) && Overlapping(dst0, dst1, zero)
    ensures Width(dst0, dst1) > 0
  {
    var padded := PadColsIfNecessary(dst0, dst1, zero);
    var v :| v in SharedValues(Combined(dst0, dst1, zero));
    FlattenLength(Stack(padded.0, padded.1));
  }

  /** The vote matrix `map_mat` defined cell by cell. */
  function VoteGrid<D(==)>(dst0: Grid<D>, dst1: Grid<D>, zero: D): (m: seq<seq<nat>>)
    requires Valid(dst0) && Valid(dst1) && Width(dst0, dst1) > 0
    ensures |m| == |dst0.rows| && forall x | 0 <= x < |m| :: |m[x]| == |dst1.rows|
  {
    seq(|dst0.rows|, x requires 0 <= x < |dst0.rows| =>
      seq(|dst1.rows|, y requires 0 <= y < |dst1.rows| => VoteCount(dst0, dst1, zero, x, y)))
  }

  /** The index arrays read as pairs. */
  function Zip(src: seq<nat>, dst: seq<nat>): (pairs: seq<(nat, nat)>)
    requires |src| == |dst|
    ensures |pairs| == |src| && forall i | 0 <= i < |src| :: pairs[i] == (src[i], dst[i])
  {
    seq(|src|, i requires 0 <= i < |src| => (src[i], dst[i]))
  }

  /** `map_common_points`: no overlap when fewer than 66 values occur exactly
      twice; otherwise the pairs (a, b) of a beacon of the first scanner and a
      beacon of the second scanner whose cell has at least eleven votes, in
      row-major order. */
  method MapCommonPoints<D(==)>(dst0: Grid<D>, dst1: Grid<D>, zero: D) returns (r: Result<Match, Fault>)
    requires Valid(dst0) && Valid(dst1)
    ensures r == Ok(NoOverlap) <==> |SharedValues(Combined(dst0, dst1, zero))| < MinSharedDistances
    ensures r.Err? ==> Overlapping(dst0, dst1, zero) && Width(dst0, dst1) > 0 && IndexFault(dst0, dst1, zero)
    ensures Overlapping(dst0, dst1, zero) ==> Width(dst0, dst1) > 0 && (r.Err? <==> IndexFault(dst0, dst1, zero))
    ensures r.Ok? && r.value.Overlap? ==>
              && Width(dst0, dst1) > 0
              && |r.value.src| == |r.value.dst|
              && (forall i | 0 <= i < |r.value.src| ::
                    && r.value.src[i] < |dst0.rows| && r.value.dst[i] < |dst1.rows|
                    && VoteCount(dst0, dst1, zero, r.value.src[i], r.value.dst[i]) >= MinVotes)
              && (forall a: nat, b: nat | a < |dst0.rows| && b < |dst1.rows| && VoteCount(dst0, dst1, zero, a, b) >= MinVotes ::
                    (a, b) in Zip(r.value.src, r.value.dst))
              && RowMajor(Zip(r.value.src, r.value.dst))
              && Zip(r.value.src, r.value.dst) == AcceptFrom(VoteGrid(dst0, dst1, zero), 0)
  {
    var padded := PadColsIfNecessary(dst0, dst1, zero);
    var flat := Flatten(Stack(padded.0, padded.1).rows);
    var shared := SharedValues(flat);
    if |shared| < MinSharedDistances {
      return Ok(NoOverlap);
    }
    var w := Width(dst0, dst1);
    OverlappingWidth(dst0, dst1, zero);
    var votes := Tally(flat, w, padded.1, |dst0.rows|);
    if votes.Err? {
      return Err(votes.error);
    }
    assert votes.value == VoteGrid(dst0, dst1, zero) by {
      var g := VoteGrid(dst0, dst1, zero);
      forall x | 0 <= x < |g|
        ensures votes.value[x] == g[x]
      {
      }
    }
    var pairs := AcceptFrom(votes.value, 0);
    var src, dst := Sources(pairs), Targets(pairs);
    assert Zip(src, dst) == pairs;
    forall i | 0 <= i < |pairs|
      ensures src[i] < |dst0.rows| && dst[i] < |dst1.rows| && VoteCount(dst0, dst1, zero, src[i], dst[i]) >= MinVotes
    {
      assert pairs[i] in pairs;
    }
    return Ok(Overlap(src, dst));
  }
}
