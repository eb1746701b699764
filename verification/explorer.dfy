/** `explore_transformations` of the scanner-registration solver
    (day19/main.py): filling row 0 of the transform map, the transforms of
    every scanner into scanner 0's frame, by composing stored transforms. */
module Explorer {
  import opened Results
  import opened Homogeneous
  import opened TransformGraph

  /** A pass that adds nothing makes the source recurse until Python's
      `RecursionError`. */
  datatype Fault = RecursionLimit

  /** An entry of row 0: a scanner and the transform from its frame into
      scanner 0's. Row 0 is a list because Python dictionaries iterate in
      insertion order. */
  datatype Entry = Entry(id: nat, h: Mat4)

  function Ids(row: seq<Entry>): (ids: seq<nat>)
    ensures |ids| == |row| && forall k | 0 <= k < |row| :: ids[k] == row[k].id
  {
    seq(|row|, k requires 0 <= k < |row| => row[k].id)
  }

  predicate Distinct(s: seq<nat>)
  {
    forall i, j | 0 <= i < j < |s| :: s[i] != s[j]
  }

  /** Row 0 names distinct scanners other than scanner 0. */
  predicate RowOk(n: nat, row: seq<Entry>)
  {
    Distinct(Ids(row)) && forall k | 0 <= k < |row| :: 1 <= row[k].id < n
  }

  /** Row 0 as `create_transformations_dict` leaves it: the transforms out of
      scanner 0, by increasing scanner index. */
  function InitialRow(edges: Edges): (row: seq<Entry>)
    requires WellFormed(edges)
    ensures RowOk(|edges|, row)
    ensures forall k | 0 < k < |edges| && k in edges[0] :: k in Ids(row)
    ensures forall k | 0 <= k < |row| :: row[k].id in edges[0] && row[k].h == edges[0][row[k].id]
  {
    var ks := KeysFrom(edges[0], 0, |edges|);
    var row := seq(|ks|, i requires 0 <= i < |ks| => Entry(ks[i], edges[0][ks[i]]));
    assert Ids(row) == ks;
    forall k | 0 < k < |edges| && k in edges[0]
      ensures k in Ids(row)
    {
      assert k in ks;
    }
    forall i | 0 <= i < |row|
      ensures 1 <= row[i].id < |edges|
    {
      assert ks[i] in ks;
    }
    row
  }

  /** The inner loop over `h_dict[interm].keys()`: each listed scanner that is
      neither in row 0 nor scanner 0 is appended with the transform
      `h_dict[0][interm] @ h_dict[interm][dst]`. */
  function Extend(edges: Edges, acc: seq<Entry>, e: Entry, dsts: seq<nat>): (r: seq<Entry>)
    requires e.id < |edges| && forall k | 0 <= k < |dsts| :: dsts[k] in edges[e.id]
    ensures |r| >= |acc| && r[..|acc|] == acc
    decreases |dsts|
  {
    if dsts == [] then acc
    else
      var dst := dsts[0];
      var acc' := if dst !in Ids(acc) && dst != 0 then acc + [Entry(dst, MatMul(e.h, edges[e.id][dst]))] else acc;
      var r := Extend(edges, acc', e, dsts[1..]);
      assert r[..|acc|] == r[..|acc'|][..|acc|];
      r
  }

  /** The outer loop over the scanners listed in row 0 when the pass starts. */
  function PassFrom(edges: Edges, acc: seq<Entry>, todo: seq<Entry>): (r: seq<Entry>)
    requires WellFormed(edges) && forall k | 0 <= k < |todo| :: todo[k].id < |edges|
    ensures |r| >= |acc| && r[..|acc|] == acc
    decreases |todo|
  {
    if todo == [] then acc
    else
      var e := todo[0];
      var acc' := Extend(edges, acc, e, KeysFrom(edges[e.id], 0, |edges|));
      var r := PassFrom(edges, acc', todo[1..]);
      assert r[..|acc|] == r[..|acc'|][..|acc|];
      r
  }

  /** One pass of `explore_transformations` over a snapshot of row 0. */
  function Pass(edges: Edges, row: seq<Entry>): (next: seq<Entry>)
    requires WellFormed(edges) && RowOk(|edges|, row)
  {
    PassFrom(edges, row, row)
  }

  /** Every scanner of a row is still listed after the row is extended. */
  lemma IdsPrefix(a: seq<Entry>, r: seq<Entry>)
    requires |r| >= |a| && r[..|a|] == a
    ensures forall d | d in Ids(a) :: d in Ids(r)
  {
    forall d | d in Ids(a)
      ensures d in Ids(r)
    {
      var k :| 0 <= k < |a| && Ids(a)[k] == d;
      assert r[k] == a[k];
    }
  }

  /** The inner loop keeps row 0 a list of distinct scanners other than 0. */
  lemma {:induction false} ExtendRowOk(edges: Edges, acc: seq<Entry>, e: Entry, dsts: seq<nat>)
    requires WellFormed(edges) && e.id < |edges| && forall k | 0 <= k < |dsts| :: dsts[k] in edges[e.id]
    requires RowOk(|edges|, acc)
    ensures RowOk(|edges|, Extend(edges, acc, e, dsts))
    decreases |dsts|
  {
    if dsts != [] {
      var dst := dsts[0];
      if dst !in Ids(acc) && dst != 0 {
        var acc' := acc + [Entry(dst, MatMul(e.h, edges[e.id][dst]))];
        assert RowOk(|edges|, acc') by {
          assert Ids(acc') == Ids(acc) + [dst];
        }
        ExtendRowOk(edges, acc', e, dsts[1..]);
      } else {
        ExtendRowOk(edges, acc, e, dsts[1..]);
      }
    }
  }

  /** What the inner loop appends: scanners new to row 0, other than 0, one
      link away from `e`, with `e`'s transform composed with that link. */
  lemma {:induction false} ExtendNew(edges: Edges, acc: seq<Entry>, e: Entry, dsts: seq<nat>)
    requires e.id < |edges| && forall k | 0 <= k < |dsts| :: dsts[k] in edges[e.id]
    ensures forall k | |acc| <= k < |Extend(edges, acc, e, dsts)| ::
              && Extend(edges, acc, e, dsts)[k].id !in Ids(acc)
              && Extend(edges, acc, e, dsts)[k].id != 0
              && Extend(edges, acc, e, dsts)[k].id in edges[e.id]
              && Extend(edges, acc, e, dsts)[k].h == MatMul(e.h, edges[e.id][Extend(edges, acc, e, dsts)[k].id])
    decreases |dsts|
  {
    if dsts != [] {
      var dst := dsts[0];
      var r := Extend(edges, acc, e, dsts);
      if dst !in Ids(acc) && dst != 0 {
        var acc' := acc + [Entry(dst, MatMul(e.h, edges[e.id][dst]))];
        ExtendNew(edges, acc', e, dsts[1..]);
        assert Ids(acc') == Ids(acc) + [dst];
        assert r[|acc|] == r[..|acc'|][|acc|];
      } else {
        ExtendNew(edges, acc, e, dsts[1..]);
      }
    }
  }

  /** After the inner loop every listed scanner other than 0 is in row 0. */
  lemma {:induction false} ExtendComplete(edges: Edges, acc: seq<Entry>, e: Entry, dsts: seq<nat>)
    requires e.id < |edges| && forall k | 0 <= k < |dsts| :: dsts[k] in edges[e.id]
    ensures forall d | d in dsts && d != 0 :: d in Ids(Extend(edges, acc, e, dsts))
    decreases |dsts|
  {
    if dsts != [] {
      var dst := dsts[0];
      var acc' := if dst !in Ids(acc) && dst != 0 then acc + [Entry(dst, MatMul(e.h, edges[e.id][dst]))] else acc;
      var r := Extend(edges, acc', e, dsts[1..]);
      ExtendComplete(edges, acc', e, dsts[1..]);
      IdsPrefix(acc', r);
      if dst != 0 {
        assert dst in Ids(acc') by {
          if dst !in Ids(acc) {
            assert Ids(acc')[|acc|] == dst;
          }
        }
      }
      forall d | d in dsts && d != 0
        ensures d in Ids(r)
      {
        if d != dst {
          assert d in dsts[1..];
        }
      }
    }
  }

  /** A pass keeps row 0 a list of distinct scanners other than 0. */
  lemma {:induction false} PassFromRowOk(edges: Edges, acc: seq<Entry>, todo: seq<Entry>)
    requires WellFormed(edges) && (forall k | 0 <= k < |todo| :: todo[k].id < |edges|) && RowOk(|edges|, acc)
    ensures RowOk(|edges|, PassFrom(edges, acc, todo))
    decreases |todo|
  {
    if todo != [] {
      var e := todo[0];
      ExtendRowOk(edges, acc, e, KeysFrom(edges[e.id], 0, |edges|));
      PassFromRowOk(edges, Extend(edges, acc, e, KeysFrom(edges[e.id], 0, |edges|)), todo[1..]);
    }
  }

  /** Each entry a pass appends is new to row 0, is not scanner 0, and is the
      transform of a snapshot entry composed with one stored link. */
  lemma {:induction false} PassFromNew(edges: Edges, acc: seq<Entry>, todo: seq<Entry>)
    requires WellFormed(edges) && forall k | 0 <= k < |todo| :: todo[k].id < |edges|
    ensures forall k | |acc| <= k < |PassFrom(edges, acc, todo)| ::
              && PassFrom(edges, acc, todo)[k].id !in Ids(acc)
              && PassFrom(edges, acc, todo)[k].id != 0
              && exists i | 0 <= i < |todo| ::
                   && PassFrom(edges, acc, todo)[k].id in edges[todo[i].id]
                   && PassFrom(edges, acc, todo)[k].h == MatMul(todo[i].h, edges[todo[i].id][PassFrom(edges, acc, todo)[k].id])
    decreases |todo|
  {
    if todo != [] {
      var e := todo[0];
      var acc' := Extend(edges, acc, e, KeysFrom(edges[e.id], 0, |edges|));
      var r := PassFrom(edges, acc', todo[1..]);
      ExtendNew(edges, acc, e, KeysFrom(edges[e.id], 0, |edges|));
      PassFromNew(edges, acc', todo[1..]);
      IdsPrefix(acc, acc');
      forall k | |acc| <= k < |r|
        ensures r[k].id !in Ids(acc) && r[k].id != 0
        ensures exists i | 0 <= i < |todo| :: r[k].id in edges[todo[i].id] && r[k].h == MatMul(todo[i].h, edges[todo[i].id][r[k].id])
      {
        if k < |acc'| {
          assert r[k] == acc'[k];
          assert todo[0] == e;
        } else {
          var i :| 0 <= i < |todo[1..]| && r[k].id in edges[todo[1..][i].id] && r[k].h == MatMul(todo[1..][i].h, edges[todo[1..][i].id][r[k].id]);
          assert todo[1..][i] == todo[i + 1];
        }
      }
    }
  }

  /** After a pass, every scanner other than 0 one link away from a snapshot entry is in row 0. */
  lemma {:induction false} PassFromComplete(edges: Edges, acc: seq<Entry>, todo: seq<Entry>)
    requires WellFormed(edges) && forall k | 0 <= k < |todo| :: todo[k].id < |edges|
    ensures forall i, d | 0 <= i < |todo| && d in edges[todo[i].id] && d != 0 :: d in Ids(PassFrom(edges, acc, todo))
    decreases |todo|
  {
    if todo != [] {
      var e := todo[0];
      var ks := KeysFrom(edges[e.id], 0, |edges|);
      var acc' := Extend(edges, acc, e, ks);
      var r := PassFrom(edges, acc', todo[1..]);
      ExtendComplete(edges, acc, e, ks);
      PassFromComplete(edges, acc', todo[1..]);
      IdsPrefix(acc', r);
      forall i, d | 0 <= i < |todo| && d in edges[todo[i].id] && d != 0
        ensures d in Ids(r)
      {
        if i == 0 {
          assert d in ks;
        } else {
          assert todo[i] == todo[1..][i - 1];
        }
      }
    }
  }

  function Elems(s: seq<nat>): set<nat>
  {
    set x | x in s
  }

  function Range(lo: nat, n: nat): (r: set<nat>)
    ensures forall x | x in r :: lo <= x < n
    ensures forall x: nat | lo <= x < n :: x in r
    decreases n - lo
  {
    if lo >= n then {} else {lo} + Range(lo + 1, n)
  }

  lemma {:induction false} DistinctCard(s: seq<nat>)
    requires Distinct(s)
    ensures |Elems(s)| == |s|
  {
    if |s| > 0 {
      var init := s[..|s| - 1];
      DistinctCard(init);
      assert Elems(s) == Elems(init) + {s[|s| - 1]};
      assert s[|s| - 1] !in Elems(init);
    }
  }

  lemma {:induction false} RangeCard(lo: nat, n: nat)
    requires lo <= n
    ensures |Range(lo, n)| == n - lo
    decreases n - lo
  {
    if lo < n {
      RangeCard(lo + 1, n);
      assert Range(lo, n) == {lo} + Range(lo + 1, n);
    }
  }

  lemma SubsetCard(a: set<nat>, b: set<nat>)
    requires a <= b
    ensures |a| <= |b| && (|a| == |b| ==> a == b)
    ensures |a| < |b| ==> exists y :: y in b && y !in a
  {
    assert b == a + (b - a);
    assert a * (b - a) == {};
    if a != b {
      var y :| y in b && y !in a;
      assert y in b - a;
    }
  }

  /** Row 0 names at most n - 1 scanners; with exactly n - 1 it names every
      scanner but 0, and with fewer some scanner is missing. */
  lemma RowCount(n: nat, row: seq<Entry>)
    requires n >= 1 && RowOk(n, row)
    ensures |row| <= n - 1
    ensures |row| == n - 1 ==> forall v | 1 <= v < n :: v in Ids(row)
    ensures |row| < n - 1 ==> exists v | 1 <= v < n :: v !in Ids(row)
  {
    DistinctCard(Ids(row));
    RangeCard(1, n);
    assert Elems(Ids(row)) <= Range(1, n);
    SubsetCard(Elems(Ids(row)), Range(1, n));
    if |row| == n - 1 {
      forall v | 1 <= v < n
        ensures v in Ids(row)
      {
        assert v in Range(1, n);
      }
    }
    if |row| < n - 1 {
      var v :| v in Range(1, n) && v !in Elems(Ids(row));
      assert 1 <= v < n && v !in Ids(row);
    }
  }

  /** `explore_transformations`: done when row 0 names every other scanner,
      otherwise one more pass; a pass that adds nothing repeats forever. */
  function Explore(edges: Edges, row: seq<Entry>): (r: Result<seq<Entry>, Fault>)
    requires WellFormed(edges) && RowOk(|edges|, row)
    ensures r.Ok? ==> |r.value| == |edges| - 1 && RowOk(|edges|, r.value)
    ensures r.Ok? ==> |r.value| >= |row| && r.value[..|row|] == row
    decreases |edges| - |row|
  {
    RowCount(|edges|, row);
    if |edges| - 1 == |row| then Ok(row)
    else
      var next := Pass(edges, row);
      PassFromRowOk(edges, row, row);
      if |next| == |row| then Err(RecursionLimit)
      else
        var r := Explore(edges, next);
        assert r.Ok? ==> r.value[..|row|] == r.value[..|next|][..|row|];
        r
  }

  /** The entry's transform is the product of the stored transforms along
      some path from scanner 0 to its scanner. */
  ghost predicate Witnessed(edges: Edges, x: Entry)
  {
    exists path :: IsPath(edges, path, x.id) && PathProduct(edges, path) == x.h
  }

  ghost predicate Composed(edges: Edges, row: seq<Entry>)
  {
    forall k | 0 <= k < |row| :: Witnessed(edges, row[k])
  }

  /** Row 0 lists every scanner other than 0 that scanner 0 overlaps with. */
  predicate Saturated(edges: Edges, row: seq<Entry>)
    requires |edges| >= 1
  {
    forall k | 0 < k < |edges| && k in edges[0] :: k in Ids(row)
  }

  /** The transforms stored in row 0 at the start are one-link path products. */
  lemma InitialComposed(edges: Edges)
    requires WellFormed(edges)
    ensures Composed(edges, InitialRow(edges)) && Saturated(edges, InitialRow(edges))
  {
    var row := InitialRow(edges);
    forall k | 0 <= k < |row|
      ensures Witnessed(edges, row[k])
    {
      var v := row[k].id;
      var path := [0, v];
      assert IsPath(edges, path, v);
      assert path[..1] == [0];
      MatMulIdentity(edges[0][v]);
      assert PathProduct(edges, path) == row[k].h;
    }
  }

  /** A pass composes transforms along paths only. */
  lemma PassComposed(edges: Edges, row: seq<Entry>)
    requires WellFormed(edges) && RowOk(|edges|, row) && Composed(edges, row)
    ensures Composed(edges, Pass(edges, row))
  {
    var next := Pass(edges, row);
    PassFromNew(edges, row, row);
    forall k | 0 <= k < |next|
      ensures Witnessed(edges, next[k])
    {
      if k < |row| {
        assert next[k] == next[..|row|][k];
      } else {
        var x := next[k];
        var i :| 0 <= i < |row| && x.id in edges[row[i].id] && x.h == MatMul(row[i].h, edges[row[i].id][x.id]);
        assert Witnessed(edges, row[i]);
        var path :| IsPath(edges, path, row[i].id) && PathProduct(edges, path) == row[i].h;
        PathSnoc(edges, path, row[i].id, x.id);
      }
    }
  }

  /** On a path from a scanner inside a set to one outside, some link leaves the set. */
  lemma {:induction false} CrossingLink(edges: Edges, path: seq<nat>, v: nat, inside: set<nat>)
    requires IsPath(edges, path, v) && 0 in inside && v !in inside
    ensures exists k | 0 <= k < |path| - 1 :: path[k] in inside && path[k + 1] !in inside
    decreases |path|
  {
    var last := |path| - 1;
    if path[last - 1] !in inside {
      var prefix := path[..last];
      assert IsPath(edges, prefix, path[last - 1]);
      CrossingLink(edges, prefix, path[last - 1], inside);
      var k :| 0 <= k < |prefix| - 1 && prefix[k] in inside && prefix[k + 1] !in inside;
      assert path[k] == prefix[k] && path[k + 1] == prefix[k + 1];
    }
  }

  /** On a connected overlap graph a pass that starts short of every scanner adds one. */
  lemma PassGrows(edges: Edges, row: seq<Entry>)
    requires WellFormed(edges) && RowOk(|edges|, row) && Saturated(edges, row)
    requires Connected(edges) && |row| < |edges| - 1
    ensures |Pass(edges, row)| > |row|
  {
    var n := |edges|;
    RowCount(n, row);
    var v :| 1 <= v < n && v !in Ids(row);
    assert Reachable(edges, v);
    var path :| IsPath(edges, path, v);
    var inside := Elems(Ids(row)) + {0};
    CrossingLink(edges, path, v, inside);
    var k :| 0 <= k < |path| - 1 && path[k] in inside && path[k + 1] !in inside;
    var u, w := path[k], path[k + 1];
    assert w in edges[u] && w != 0 && w !in Ids(row);
    assert u != 0;
    var i :| 0 <= i < |row| && row[i].id == u;
    PassFromComplete(edges, row, row);
    NewIdGrows(row, Pass(edges, row), w);
  }

  /** A longer row that lists a scanner the prefix lacks is strictly longer. */
  lemma NewIdGrows(row: seq<Entry>, next: seq<Entry>, w: nat)
    requires |next| >= |row| && next[..|row|] == row && w in Ids(next) && w !in Ids(row)
    ensures |next| > |row|
  {
  }

  /** On a connected overlap graph the exploration finishes. */
  lemma {:induction false} ExploreSucceeds(edges: Edges, row: seq<Entry>)
    requires WellFormed(edges) && RowOk(|edges|, row) && Saturated(edges, row) && Connected(edges)
    ensures Explore(edges, row).Ok?
    decreases |edges| - |row|
  {
    RowCount(|edges|, row);
    if |row| < |edges| - 1 {
      var next := Pass(edges, row);
      PassGrows(edges, row);
      PassFromRowOk(edges, row, row);
      IdsPrefix(row, next);
      ExploreSucceeds(edges, next);
    }
  }

  /** Every entry the exploration produces is a path product. */
  lemma {:induction false} ExploreComposed(edges: Edges, row: seq<Entry>)
    requires WellFormed(edges) && RowOk(|edges|, row) && Composed(edges, row)
    ensures Explore(edges, row).Ok? ==> Composed(edges, Explore(edges, row).value)
    decreases |edges| - |row|
  {
    RowCount(|edges|, row);
    if |row| < |edges| - 1 {
      var next := Pass(edges, row);
      PassFromRowOk(edges, row, row);
      PassComposed(edges, row);
      if |next| > |row| {
        ExploreComposed(edges, next);
      }
    }
  }

  /** A finished row 0 whose entries are path products shows the overlap graph connected. */
  lemma FinishedConnected(edges: Edges, r: seq<Entry>)
    requires WellFormed(edges) && RowOk(|edges|, r) && |r| == |edges| - 1 && Composed(edges, r)
    ensures Connected(edges)
    ensures forall v | 1 <= v < |edges| :: v in Ids(r)
  {
    RowCount(|edges|, r);
    forall v | 0 <= v < |edges|
      ensures Reachable(edges, v)
    {
      if v == 0 {
        assert IsPath(edges, [0], 0);
      } else {
        assert v in Ids(r);
        var k :| 0 <= k < |r| && r[k].id == v;
        assert Witnessed(edges, r[k]);
      }
    }
  }

  /** Starting from the stored transforms of scanner 0, the exploration
      succeeds exactly on a connected overlap graph, and then row 0 holds
      every other scanner once, each with a product of stored transforms
      along a path from scanner 0. */
  lemma ExploreSpec(edges: Edges)
    requires WellFormed(edges)
    ensures Explore(edges, InitialRow(edges)).Ok? <==> Connected(edges)
    ensures Explore(edges, InitialRow(edges)).Ok? ==>
              && (forall v | 1 <= v < |edges| :: v in Ids(Explore(edges, InitialRow(edges)).value))
              && Composed(edges, Explore(edges, InitialRow(edges)).value)
  {
    var row := InitialRow(edges);
    InitialComposed(edges);
    ExploreComposed(edges, row);
    if Connected(edges) {
      ExploreSucceeds(edges, row);
    }
    var r := Explore(edges, row);
    if r.Ok? {
      FinishedConnected(edges, r.value);
    }
  }
}
