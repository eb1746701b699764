/** `find_transformation_btw`, `create_transformations_dict` and the rule of
    `part2` of the scanner-registration solver (day19/main.py). Scanner i's
    beacons are `data[i]`; scanners are numbered 0 .. n-1. */
module Registration {
  import opened Results
  import opened Points
  import opened Grids
  import opened Matcher
  import opened Homogeneous
  import opened TransformGraph
  import opened Explorer

  /** `solve_for_h`: fits the transform between two lists of matched beacons.
      It is a least-squares solve in floating point and is left abstract. */
  type Solver = (seq<Point>, seq<Point>) -> Mat4

  /** The `IndexError` of the matcher for scanners i < j, the `RecursionError`
      of an exploration that cannot finish, or the `KeyError` of reading row
      `key` of an edge map that has no such scanner. */
  datatype Fault = IndexError(i: nat, j: nat) | RecursionError | KeyError(key: nat)

  /** numpy fancy indexing `pts[idx]`. */
  function Select(pts: seq<Point>, idx: seq<nat>): (r: seq<Point>)
    requires forall k | 0 <= k < |idx| :: idx[k] < |pts|
    ensures |r| == |idx| && forall k | 0 <= k < |idx| :: r[k] == pts[idx[k]]
  {
    seq(|idx|, k requires 0 <= k < |idx| => pts[idx[k]])
  }

  /** The distance matrix of one scanner's beacons. */
  function Distances(pts: seq<Point>): Grid<nat>
  {
    DistanceMatrix(pts, SquaredDistance, 0)
  }

  predicate Overlaps(data: seq<seq<Point>>, i: nat, j: nat)
    requires i < |data| && j < |data|
  {
    Overlapping(Distances(data[i]), Distances(data[j]), 0)
  }

  /** Matching scanners i and j indexes the vote matrix out of bounds. */
  predicate PairFault(data: seq<seq<Point>>, i: nat, j: nat)
    requires i < |data| && j < |data|
  {
    && Overlaps(data, i, j)
    && (OverlappingWidth(Distances(data[i]), Distances(data[j]), 0);
        IndexFault(Distances(data[i]), Distances(data[j]), 0))
  }

  /** The matched beacon pairs of two overlapping scanners. */
  function Matches(data: seq<seq<Point>>, i: nat, j: nat): (pairs: seq<(nat, nat)>)
    requires i < |data| && j < |data| && Overlaps(data, i, j)
    ensures forall k | 0 <= k < |pairs| :: pairs[k].0 < |data[i]| && pairs[k].1 < |data[j]|
  {
    var d0, d1 := Distances(data[i]), Distances(data[j]);
    OverlappingWidth(d0, d1, 0);
    var pairs := AcceptFrom(VoteGrid(d0, d1, 0), 0);
    assert forall k | 0 <= k < |pairs| :: pairs[k] in pairs;
    pairs
  }

  /** The transform `solve_for_h` fits to the matched beacons of scanners i and j. */
  function PairTransform(data: seq<seq<Point>>, solve: Solver, i: nat, j: nat): Mat4
    requires i < |data| && j < |data| && Overlaps(data, i, j)
  {
    var pairs := Matches(data, i, j);
    solve(Select(data[i], Sources(pairs)), Select(data[j], Targets(pairs)))
  }

  /** `find_transformation_btw`: no transform when the scanners do not
      overlap, otherwise `solve_for_h` on the matched beacons. */
  method FindTransformationBtw(data: seq<seq<Point>>, i: nat, j: nat, solve: Solver) returns (r: Result<Option<Mat4>, Fault>)
    requires i < |data| && j < |data|
    ensures r.Err? <==> PairFault(data, i, j)
    ensures r.Err? ==> r.error == IndexError(i, j)
    ensures r == Ok(None) <==> !Overlaps(data, i, j)
    ensures r.Ok? && r.value.Some? ==> Overlaps(data, i, j) && r.value.value == PairTransform(data, solve, i, j)
  {
    var d0, d1 := Distances(data[i]), Distances(data[j]);
    var m := MapCommonPoints(d0, d1, 0);
    if m.Err? {
      return Err(IndexError(i, j));
    }
    match m.value
    case NoOverlap =>
      return Ok(None);
    case Overlap(src, dst) =>
      var pairs := Matches(data, i, j);
      assert Zip(src, dst) == pairs;
      assert Sources(pairs) == src;
      assert Targets(pairs) == dst;
      return Ok(Some(solve(Select(data[i], src), Select(data[j], dst))));
  }

  function Min(a: nat, b: nat): nat
  {
    if a < b then a else b
  }

  /** The fitted transform of every overlapping pair i < j. */
  function Links(data: seq<seq<Point>>, solve: Solver): (links: map<(nat, nat), Mat4>)
    ensures forall p | p in links :: p.0 < p.1 < |data|
  {
    map p: (nat, nat) | p in PairsBelow(|data|) && Overlaps(data, p.0, p.1) :: PairTransform(data, solve, p.0, p.1)
  }

  /** The link table holds exactly the overlapping pairs, with their fitted transforms. */
  lemma LinksAt(data: seq<seq<Point>>, solve: Solver, i: nat, j: nat)
    requires i < j < |data|
    ensures (i, j) in Links(data, solve) <==> Overlaps(data, i, j)
    ensures (i, j) in Links(data, solve) ==> Links(data, solve)[(i, j)] == PairTransform(data, solve, i, j)
  {
    assert (i, j) in PairsBelow(|data|);
  }

  /** The pairs i < j < n. */
  function PairsBelow(n: nat): (ps: set<(nat, nat)>)
    ensures forall p | p in ps :: p.0 < p.1 < n
    ensures forall i: nat, j: nat | i < j < n :: (i, j) in ps
  {
    set i: nat, j: nat | i < j < n :: (i, j)
  }

  /** The transform stored under `h_dict[a][b]`: the fitted one for a < b,
      its inverse in the other direction. The edge map is stated for any
      inverse `inv`; `create_transformations_dict` uses `invert_h`. */
  function EdgeValue(links: map<(nat, nat), Mat4>, inv: Mat4 -> Mat4, a: nat, b: nat): Mat4
    requires (Min(a, b), Max(a, b)) in links
  {
    if a < b then links[(a, b)] else inv(links[(b, a)])
  }

  /** The edge map of `create_transformations_dict`: a link in each direction
      between every two overlapping scanners and no other. */
  function ExpectedEdges(data: seq<seq<Point>>, solve: Solver): (e: Edges)
    ensures |e| == |data|
  {
    AllEdges(|data|, Links(data, solve), InvertH)
  }

  /** Proof helper, not a property of the source: unfolds `ExpectedEdges`. */
  lemma ExpectedAll(data: seq<seq<Point>>, solve: Solver)
    ensures ExpectedEdges(data, solve) == AllEdges(|data|, Links(data, solve), InvertH)
  {
  }

  /** The edge map of a link table over n scanners. */
  function AllEdges(n: nat, links: map<(nat, nat), Mat4>, inv: Mat4 -> Mat4): (e: Edges)
    ensures |e| == n
  {
    seq(n, a requires 0 <= a < n =>
      map b: nat | b < n && b != a && (Min(a, b), Max(a, b)) in links :: EdgeValue(links, inv, a, b))
  }

  /** The pair a < b has been handled once the outer loop is at i and the inner loop at j. */
  predicate Handled(a: nat, b: nat, i: nat, j: nat)
  {
    a < i || (a == i && b < j)
  }

  /** The edge map after the handled pairs. */
  function PartialEdges(n: nat, links: map<(nat, nat), Mat4>, inv: Mat4 -> Mat4, i: nat, j: nat): (e: Edges)
    ensures |e| == n
  {
    seq(n, a requires 0 <= a < n =>
      map b: nat | b < n && b != a && Handled(Min(a, b), Max(a, b), i, j) && (Min(a, b), Max(a, b)) in links ::
        EdgeValue(links, inv, a, b))
  }

  /** `transformation_dict[i][j] = h` and `transformation_dict[j][i] = invert_h(h)`. */
  function Store(d: Edges, i: nat, j: nat, h: Mat4, inv: Mat4 -> Mat4): (d': Edges)
    requires i < |d| && j < |d| && i != j
    ensures |d'| == |d|
  {
    var rowI: map<nat, Mat4> := d[i][j := h];
    var rowJ: map<nat, Mat4> := d[j][i := inv(h)];
    d[i := rowI][j := rowJ]
  }

  /** Before the loops no pair is handled and every row is empty. */
  lemma PartialNone(n: nat, links: map<(nat, nat), Mat4>, inv: Mat4 -> Mat4)
    ensures PartialEdges(n, links, inv, 0, 1) == seq(n, _ => map[])
  {
    var e := PartialEdges(n, links, inv, 0, 1);
    forall a | 0 <= a < n
      ensures e[a] == map[]
    {
      assert e[a].Keys == {};
    }
  }

  /** A pair without a link adds nothing. */
  lemma PartialSkip(n: nat, links: map<(nat, nat), Mat4>, inv: Mat4 -> Mat4, i: nat, j: nat)
    requires i < j < n && (i, j) !in links
    ensures PartialEdges(n, links, inv, i, j + 1) == PartialEdges(n, links, inv, i, j)
  {
    var e0, e1 := PartialEdges(n, links, inv, i, j), PartialEdges(n, links, inv, i, j + 1);
    forall a | 0 <= a < n
      ensures e1[a] == e0[a]
    {
      assert e1[a].Keys == e0[a].Keys;
    }
  }

  /** A linked pair adds the link i -> j and its inverse j -> i. */
  lemma PartialStore(n: nat, links: map<(nat, nat), Mat4>, inv: Mat4 -> Mat4, i: nat, j: nat)
    requires i < j < n && (i, j) in links
    ensures PartialEdges(n, links, inv, i, j + 1) == Store(PartialEdges(n, links, inv, i, j), i, j, links[(i, j)], inv)
  {
    var d := PartialEdges(n, links, inv, i, j);
    var e1 := PartialEdges(n, links, inv, i, j + 1);
    var d' := Store(d, i, j, links[(i, j)], inv);
    forall a | 0 <= a < n
      ensures e1[a] == d'[a]
    {
      assert e1[a].Keys == d'[a].Keys;
    }
  }

  /** Finishing the inner loop of row i is starting row i + 1. */
  lemma PartialNextRow(n: nat, links: map<(nat, nat), Mat4>, inv: Mat4 -> Mat4, i: nat)
    requires i < n
    ensures PartialEdges(n, links, inv, i, n) == PartialEdges(n, links, inv, i + 1, i + 2)
  {
    var e0, e1 := PartialEdges(n, links, inv, i, n), PartialEdges(n, links, inv, i + 1, i + 2);
    forall a | 0 <= a < n
      ensures e0[a] == e1[a]
    {
      assert e0[a].Keys == e1[a].Keys;
    }
  }

  /** Once every row is handled the edge map is complete. */
  lemma PartialAll(n: nat, links: map<(nat, nat), Mat4>, inv: Mat4 -> Mat4)
    ensures PartialEdges(n, links, inv, n, n + 1) == AllEdges(n, links, inv)
  {
    var e0, e1 := PartialEdges(n, links, inv, n, n + 1), AllEdges(n, links, inv);
    forall a | 0 <= a < n
      ensures e0[a] == e1[a]
    {
      assert e0[a].Keys == e1[a].Keys;
    }
  }

  /** The pairs i < j whose matching indexes the vote matrix out of bounds. */
  function Faults(data: seq<seq<Point>>): (fs: set<(nat, nat)>)
    ensures forall p | p in fs :: p.0 < p.1 < |data|
  {
    set p: (nat, nat) | p in PairsBelow(|data|) && PairFault(data, p.0, p.1)
  }

  lemma FaultsAt(data: seq<seq<Point>>, i: nat, j: nat)
    requires i < j < |data|
    ensures (i, j) in Faults(data) <==> PairFault(data, i, j)
  {
    assert (i, j) in PairsBelow(|data|);
  }

  /** Every pair that makes the matcher fail is in the fault set. */
  lemma FaultsAll(data: seq<seq<Point>>)
    ensures (forall a, b | 0 <= a < b < |data| :: !PairFault(data, a, b)) <==> Faults(data) == {}
  {
    var fs := Faults(data);
    if fs != {} {
      var p :| p in fs;
      FaultsAt(data, p.0, p.1);
      assert PairFault(data, p.0, p.1);
    } else {
      forall a, b | 0 <= a < b < |data|
        ensures !PairFault(data, a, b)
      {
        FaultsAt(data, a, b);
      }
    }
  }

  /** No pair of the set has been handled by the loops at i, j. */
  predicate NoneHandled(pairs: set<(nat, nat)>, i: nat, j: nat)
  {
    forall p | p in pairs :: !Handled(p.0, p.1, i, j)
  }

  lemma NoneHandledStep(pairs: set<(nat, nat)>, i: nat, j: nat)
    requires NoneHandled(pairs, i, j) && (i, j) !in pairs
    ensures NoneHandled(pairs, i, j + 1)
  {
  }

  /** The link table and the fault set are right about the pair i < j. */
  predicate TablesAt(data: seq<seq<Point>>, solve: Solver, links: map<(nat, nat), Mat4>, faults: set<(nat, nat)>, i: nat, j: nat)
    requires i < j < |data|
  {
    && ((i, j) in links <==> Overlaps(data, i, j))
    && ((i, j) in links ==> links[(i, j)] == PairTransform(data, solve, i, j))
    && ((i, j) in faults <==> PairFault(data, i, j))
  }

  /** The link table and the fault set are right about every pair. */
  predicate Tables(data: seq<seq<Point>>, solve: Solver, links: map<(nat, nat), Mat4>, faults: set<(nat, nat)>)
  {
    && (forall p | p in faults :: p.0 < p.1 < |data|)
    && (forall i: nat, j: nat | i < j < |data| :: TablesAt(data, solve, links, faults, i, j))
  }

  lemma TablesHold(data: seq<seq<Point>>, solve: Solver)
    ensures Tables(data, solve, Links(data, solve), Faults(data))
  {
    forall i: nat, j: nat | i < j < |data|
      ensures TablesAt(data, solve, Links(data, solve), Faults(data), i, j)
    {
      LinksAt(data, solve, i, j);
      FaultsAt(data, i, j);
    }
  }

  /** One iteration of the inner loop of `create_transformations_dict`: match
      scanners i < j and store the transform in both directions if they overlap. */
  method StorePair(data: seq<seq<Point>>, solve: Solver, inv: Mat4 -> Mat4, d: Edges, i: nat, j: nat,
                   ghost links: map<(nat, nat), Mat4>, ghost faults: set<(nat, nat)>) returns (r: Result<Edges, Fault>)
    requires Tables(data, solve, links, faults)
    requires i < j < |data| && d == PartialEdges(|data|, links, inv, i, j)
    ensures r.Err? <==> (i, j) in faults
    ensures r.Err? ==> r.error == IndexError(i, j)
    ensures r.Ok? ==> r.value == PartialEdges(|data|, links, inv, i, j + 1)
  {
    var found := FindTransformationBtw(data, i, j, solve);
    assert TablesAt(data, solve, links, faults, i, j);
    if found.Err? {
      return Err(found.error);
    }
    if found.value.Some? {
      PartialStore(|data|, links, inv, i, j);
      return Ok(Store(d, i, j, found.value.value, inv));
    }
    PartialSkip(|data|, links, inv, i, j);
    return Ok(d);
  }

  /** The inner loop of `create_transformations_dict` for row i: the pairs
      (i, j) for j = i + 1 .. n - 1 in turn, stopping at the first that fails. */
  method StoreRow(data: seq<seq<Point>>, solve: Solver, inv: Mat4 -> Mat4, d: Edges, i: nat,
                  ghost links: map<(nat, nat), Mat4>, ghost faults: set<(nat, nat)>) returns (r: Result<Edges, Fault>)
    requires Tables(data, solve, links, faults)
    requires i < |data| && d == PartialEdges(|data|, links, inv, i, i + 1)
    requires NoneHandled(faults, i, i + 1)
    ensures r.Ok? ==> r.value == PartialEdges(|data|, links, inv, i + 1, i + 2)
    ensures r.Ok? <==> NoneHandled(faults, i + 1, i + 2)
    ensures r.Err? ==>
      r.error.IndexError? && r.error.i == i && (i, r.error.j) in faults && NoneHandled(faults, i, r.error.j)
  {
    var e := d;
    var j := i + 1;
    while j < |data|
      invariant i + 1 <= j <= |data|
      invariant e == PartialEdges(|data|, links, inv, i, j)
      invariant NoneHandled(faults, i, j)
    {
      var step := StorePair(data, solve, inv, e, i, j, links, faults);
      if step.Err? {
        NoneHandledFirst(faults, i, j);
        return Err(step.error);
      }
      NoneHandledStep(faults, i, j);
      e := step.value;
      j := j + 1;
    }
    PartialNextRow(|data|, links, inv, i);
    NoneHandledRow(faults, i, |data|);
    return Ok(e);
  }

  /** A fault at (i, j) means the next row is not reached fault-free. */
  lemma NoneHandledFirst(pairs: set<(nat, nat)>, i: nat, j: nat)
    requires (i, j) in pairs
    ensures !NoneHandled(pairs, i + 1, i + 2)
  {
    assert Handled(i, j, i + 1, i + 2);
  }

  /** Finishing row i is starting row i + 1, for pairs below n. */
  lemma NoneHandledRow(pairs: set<(nat, nat)>, i: nat, n: nat)
    requires forall p | p in pairs :: p.0 < p.1 < n
    requires NoneHandled(pairs, i, n)
    ensures NoneHandled(pairs, i + 1, i + 2)
  {
  }

  /** The edge-building loops of `create_transformations_dict`, for a link
      table and fault set that are right about every pair. */
  method StoreAll(data: seq<seq<Point>>, solve: Solver, inv: Mat4 -> Mat4,
                  ghost links: map<(nat, nat), Mat4>, ghost faults: set<(nat, nat)>) returns (r: Result<Edges, Fault>)
    requires Tables(data, solve, links, faults)
    ensures r.Ok? ==> r.value == AllEdges(|data|, links, inv)
    ensures r.Ok? <==> faults == {}
    ensures r.Err? ==>
      r.error.IndexError? && (r.error.i, r.error.j) in faults && NoneHandled(faults, r.error.i, r.error.j)
  {
    var d: Edges := seq(|data|, _ => map[]);
    PartialNone(|data|, links, inv);
    var i := 0;
    while i < |data|
      invariant 0 <= i <= |data|
      invariant d == PartialEdges(|data|, links, inv, i, i + 1)
      invariant NoneHandled(faults, i, i + 1)
    {
      var row := StoreRow(data, solve, inv, d, i, links, faults);
      if row.Err? {
        return row;
      }
      d := row.value;
      i := i + 1;
    }
    PartialAll(|data|, links, inv);
    NoneHandledAll(faults, |data|);
    return Ok(d);
  }

  /** `create_transformations_dict` up to the exploration: for every pair
      i < j of scanners, store the fitted transform under [i][j] and its
      inverse under [j][i] when the scanners overlap, stopping at the first
      pair whose matching fails. */
  method CreateEdges(data: seq<seq<Point>>, solve: Solver, inv: Mat4 -> Mat4) returns (r: Result<Edges, Fault>)
    ensures r.Ok? ==> r.value == AllEdges(|data|, Links(data, solve), inv)
    ensures r.Ok? <==> Faults(data) == {}
    ensures r.Err? ==>
      r.error.IndexError? && (r.error.i, r.error.j) in Faults(data) && NoneHandled(Faults(data), r.error.i, r.error.j)
  {
    TablesHold(data, solve);
    r := StoreAll(data, solve, inv, Links(data, solve), Faults(data));
  }

  /** Past the last row every pair below n has been handled. */
  lemma NoneHandledAll(pairs: set<(nat, nat)>, n: nat)
    requires forall p | p in pairs :: p.0 < n
    ensures NoneHandled(pairs, n, n + 1) <==> pairs == {}
  {
    if pairs != {} {
      var p :| p in pairs;
      assert Handled(p.0, p.1, n, n + 1);
    }
  }

  /** The edge map of a link table is well formed: keys name scanners and
      no scanner is linked to itself. */
  lemma AllEdgesWellFormed(n: nat, links: map<(nat, nat), Mat4>, inv: Mat4 -> Mat4)
    requires n >= 1
    ensures WellFormed(AllEdges(n, links, inv))
  {
  }

  /** For a < b, the pair is linked in both directions exactly when the link
      table holds it: forward by the link, backward by its inverse, whatever
      the link is. */
  lemma AllEdgesForward(n: nat, links: map<(nat, nat), Mat4>, inv: Mat4 -> Mat4, a: nat, b: nat)
    requires a < b < n
    ensures b in AllEdges(n, links, inv)[a] <==> (a, b) in links
    ensures a in AllEdges(n, links, inv)[b] <==> (a, b) in links
    ensures (a, b) in links ==>
      && AllEdges(n, links, inv)[a][b] == links[(a, b)]
      && AllEdges(n, links, inv)[b][a] == inv(links[(a, b)])
  {
    var e := AllEdges(n, links, inv);
    assert b in e[a] <==> (Min(a, b), Max(a, b)) in links;
    assert a in e[b] <==> (Min(b, a), Max(b, a)) in links;
  }

  /** A transform stored under [a][b] has its inverse stored under [b][a]. */
  lemma AllEdgesSymmetric(n: nat, links: map<(nat, nat), Mat4>, a: nat, b: nat)
    requires a < n && b < n
    requires forall p | p in links :: Rigid(links[p])
    ensures b in AllEdges(n, links, InvertH)[a] <==> a in AllEdges(n, links, InvertH)[b]
    ensures b in AllEdges(n, links, InvertH)[a] ==> AllEdges(n, links, InvertH)[b][a] == InvertH(AllEdges(n, links, InvertH)[a][b])
  {
    var e := AllEdges(n, links, InvertH);
    assert b in e[a] <==> a in e[b] by {
      assert b in e[a] <==> b != a && (Min(a, b), Max(a, b)) in links;
      assert a in e[b] <==> a != b && (Min(b, a), Max(b, a)) in links;
    }
    if b in e[a] {
      if a < b {
        assert e[a][b] == links[(a, b)];
        assert e[b][a] == InvertH(links[(a, b)]);
      } else {
        var h := links[(b, a)];
        assert e[a][b] == InvertH(h);
        assert e[b][a] == h;
        InvertInvolution(h);
      }
    }
  }

  /** Scanners a and b overlap exactly when [a][b] is stored, and then
      [b][a] holds its inverse. */
  lemma ExpectedSymmetric(data: seq<seq<Point>>, solve: Solver, a: nat, b: nat)
    requires a < b < |data|
    ensures b in ExpectedEdges(data, solve)[a] <==> Overlaps(data, a, b)
    ensures a in ExpectedEdges(data, solve)[b] <==> Overlaps(data, a, b)
    ensures b in ExpectedEdges(data, solve)[a] ==>
      && ExpectedEdges(data, solve)[a][b] == PairTransform(data, solve, a, b)
      && ExpectedEdges(data, solve)[b][a] == InvertH(PairTransform(data, solve, a, b))
  {
    ExpectedAll(data, solve);
    LinksAt(data, solve, a, b);
    AllEdgesForward(|data|, Links(data, solve), InvertH, a, b);
  }

  /** `transformation_dict[0]` at the end of `create_transformations_dict`:
      the transforms into scanner 0's frame, the explored ones first and
      then `[0][0] = np.eye(4)`; the other rows keep the edge map. */
  datatype Transforms = Transforms(edges: Edges, toZero: seq<Entry>)

  /** `create_transformations_dict`: build the edge map, explore it from
      scanner 0 and add the identity for scanner 0 itself. With no scanners
      at all the explorer's first read of row 0 fails. */
  method CreateTransformationsDict(data: seq<seq<Point>>, solve: Solver) returns (r: Result<Transforms, Fault>)
    ensures r.Ok? <==> |data| >= 1 && Faults(data) == {} && Connected(ExpectedEdges(data, solve))
    ensures r.Err? ==> (r.error == KeyError(0) <==> |data| == 0)
    ensures r.Err? ==> (r.error == RecursionError <==> |data| >= 1 && Faults(data) == {})
    ensures r.Err? && Faults(data) != {} ==> r.error.IndexError?
    ensures r.Ok? ==>
      && r.value.edges == ExpectedEdges(data, solve)
      && |r.value.toZero| == |data|
      && r.value.toZero[|data| - 1] == Entry(0, Identity())
      && Distinct(Ids(r.value.toZero))
      && (forall v | 0 <= v < |data| :: v in Ids(r.value.toZero))
      && Composed(ExpectedEdges(data, solve), r.value.toZero)
  {
    var built := CreateEdges(data, solve, InvertH);
    if built.Err? {
      return Err(built.error);
    }
    var edges := built.value;
    if |data| == 0 {
      return Err(KeyError(0));
    }
    ExpectedAll(data, solve);
    AllEdgesWellFormed(|data|, Links(data, solve), InvertH);
    ExploreSpec(edges);
    var explored := Explore(edges, InitialRow(edges));
    if explored.Err? {
      return Err(RecursionError);
    }
    var row := explored.value + [Entry(0, Identity())];
    ToZeroRow(edges, explored.value);
    return Ok(Transforms(edges, row));
  }

  /** Appending scanner 0 with the identity keeps the ids distinct and every
      entry witnessed, and completes the scanner list. */
  lemma ToZeroRow(edges: Edges, row: seq<Entry>)
    requires WellFormed(edges) && RowOk(|edges|, row) && Composed(edges, row)
    requires forall v | 1 <= v < |edges| :: v in Ids(row)
    ensures Distinct(Ids(row + [Entry(0, Identity())]))
    ensures forall v | 0 <= v < |edges| :: v in Ids(row + [Entry(0, Identity())])
    ensures Composed(edges, row + [Entry(0, Identity())])
  {
    var full := row + [Entry(0, Identity())];
    assert Ids(full) == Ids(row) + [0];
    assert IsPath(edges, [0], 0);
    assert Witnessed(edges, Entry(0, Identity()));
    forall v | 0 <= v < |edges|
      ensures v in Ids(full)
    {
      if v != 0 {
        assert v in Ids(row);
      }
    }
  }
}
