/** The overlap graph of the scanner-registration solver (day19/main.py):
    `h_dict[i][j]` is the transform from scanner j's frame into scanner i's,
    stored when the two scanners overlap. Scanners are numbered 0 .. n-1. */
module TransformGraph {
  import opened Homogeneous

  /** Row i holds the transforms out of scanner i, keyed by the other scanner. */
  type Edges = seq<map<nat, Mat4>>

  /** At least scanner 0 exists, every key names a scanner and no scanner
      is linked to itself. */
  predicate WellFormed(edges: Edges)
  {
    && |edges| >= 1
    && (forall a, k | 0 <= a < |edges| && k in edges[a] :: k < |edges|)
    && (forall a | 0 <= a < |edges| :: a !in edges[a])
  }

  /** Consecutive scanners of `path` are linked. */
  predicate Linked(edges: Edges, path: seq<nat>)
  {
    forall k | 0 <= k < |path| - 1 :: path[k] < |edges| && path[k + 1] in edges[path[k]]
  }

  /** `path` leads from scanner 0 to scanner v along stored transforms. */
  predicate IsPath(edges: Edges, path: seq<nat>, v: nat)
  {
    |path| >= 1 && path[0] == 0 && path[|path| - 1] == v && Linked(edges, path)
  }

  ghost predicate Reachable(edges: Edges, v: nat)
  {
    exists path :: IsPath(edges, path, v)
  }

  /** Every scanner is linked to scanner 0 through overlapping scanners. */
  ghost predicate Connected(edges: Edges)
  {
    forall v | 0 <= v < |edges| :: Reachable(edges, v)
  }

  /** The transform into scanner 0's frame composed along a path:
      h[p0][p1] @ h[p1][p2] @ ... . */
  function PathProduct(edges: Edges, path: seq<nat>): Mat4
    requires |path| >= 1 && Linked(edges, path)
  {
    if |path| == 1 then Identity()
    else
      var last := |path| - 1;
      assert Linked(edges, path[..last]);
      MatMul(PathProduct(edges, path[..last]), edges[path[last - 1]][path[last]])
  }

  /** A path extended by one link composes one more transform on the right. */
  lemma PathSnoc(edges: Edges, path: seq<nat>, v: nat, w: nat)
    requires IsPath(edges, path, v) && v < |edges| && w in edges[v]
    ensures IsPath(edges, path + [w], w)
    ensures PathProduct(edges, path + [w]) == MatMul(PathProduct(edges, path), edges[v][w])
  {
    assert (path + [w])[..|path|] == path;
  }

  /** The increasing list of keys of `m` in [lo, n): the order in which the
      source's rows were filled, since the edge map is built by increasing
      scanner index. */
  function KeysFrom(m: map<nat, Mat4>, lo: nat, n: nat): (ks: seq<nat>)
    ensures forall x | x in ks :: lo <= x < n && x in m
    ensures forall x | lo <= x < n && x in m :: x in ks
    ensures forall i, j | 0 <= i < j < |ks| :: ks[i] < ks[j]
    decreases n - lo
  {
    if lo >= n then []
    else
      var rest := KeysFrom(m, lo + 1, n);
      assert forall j | 0 <= j < |rest| :: lo < rest[j] by {
        forall j | 0 <= j < |rest|
          ensures lo < rest[j]
        {
          assert rest[j] in rest;
        }
      }
      (if lo in m then [lo] else []) + rest
  }
}
