# Polymer doubling and scanner registration, in Dafny

This project models two puzzle solvers and proves what their code promises.

**day14/neu.py — polymer insertion by doubling.** A polymer is a string. A
rule table maps a pair `AB` to an element `C`, and one step inserts `C`
between every such adjacent pair. The script answers "the polymer after `n`
steps" with a cache (`wikipedia`) keyed by power-of-two step counts:

- a long polymer is split into its pair windows (`slicer`);
- each window is expanded and the results are glued at their shared element
  (`combine_slices`);
- a step count that is not a power of two is split at the largest power of two
  below it;
- a pair missing from the cache is built from two half-step expansions and
  stored.

Modules `Polymer` and `Memo` model this. `Polymer.Step` and `Polymer.Expand`
are the naive reference: rule insertion applied one step at a time. The cache
is explicit state: `Memo.Query` takes it and hands back the updated cache.

**day19/main.py — scanner registration.** Each scanner reports beacon
positions in its own frame. The modules model the following steps:

- `Points`, `Grids`: per-scanner distance matrices.
- `Matcher`: matching two scanners' beacons by their shared pairwise
  distances (`map_common_points`).
- `Homogeneous`, `Registration`: storing a rigid transform and its inverse for
  every overlapping pair (`invert_h`, `create_transformations_dict`).
- `TransformGraph`, `Explorer`: composing transforms along chains until every
  scanner can be expressed in scanner 0's frame (`explore_transformations`).
- `Spread`: the largest Manhattan distance between two scanners (`part2`).

The least-squares solver `solve_for_h` stays abstract as a `Solver`
parameter. Python run-time errors become `Err` values:

- a missing cache level (`KeyError`);
- `log2(0)`;
- an index outside the vote matrix (`IndexError`);
- reading row 0 of the edge map when there are no scanners (`KeyError`);
- unbounded recursion (`RecursionError`).

Scanner ids are the contiguous range `0 .. |data| - 1`, the positions of a
sequence.

## Model

| member | source | states |
|---|---|---|
| Points.Manhattan | day19/main.py:25-26 | the distance is zero exactly for equal points and bounds every coordinate difference |
| Points.ManhattanSymmetric | day19/main.py:25-26 | the Manhattan distance does not depend on argument order |
| Points.ManhattanTriangle | day19/main.py:25-26 | the Manhattan distance satisfies the triangle inequality |
| Points.SquaredDistance | day19/main.py:21-22 | the matching metric is zero exactly for equal points |
| Grids.DistanceMatrix | day19/main.py:40-44 | an n-by-n matrix whose upper triangle, diagonal included, holds the metric of each pair and whose lower triangle stays zero |
| Grids.DistanceMatrixDiagonal | day19/main.py:40-44 | the diagonal is zero when the metric of a point with itself is |
| Grids.PadColsIfNecessary | day19/main.py:47-52 | equal widths are returned untouched; otherwise both matrices get the larger width, keep their entries and are zero-filled on the right |
| Grids.FlattenLength | day19/main.py:58-59 | the row-major flattening has rows × width entries |
| Grids.FlattenIndex | day19/main.py:69 | flat index k is row k div width, column k mod width |
| Matcher.SharedValuesCount | day19/main.py:59-68 | the number of values occurring exactly twice, which the 66 test counts, equals the number of their first-occurrence positions, which the vote loop visits |
| Matcher.FirstSharedExists | day19/main.py:59-60 | every kept value has a first occurrence, the index `np.unique` reports |
| Matcher.FirstSharedUnique | day19/main.py:59-60 | that first occurrence is unique |
| Matcher.Tally | day19/main.py:67-72 | the loop fails exactly when some shared value indexes outside the vote matrix, by its first-occurrence row or column even when the second matrix does not contain it, or by a column of the second matrix; otherwise each cell holds the votes of all shared values |
| Matcher.AcceptRow | day19/main.py:76 | the pairs in one row are exactly the cells with at least 11 votes, in increasing column order |
| Matcher.AcceptFrom | day19/main.py:76 | the accepted pairs are exactly the cells with at least 11 votes, in row-major order as `np.where` lists them |
| Matcher.MapCommonPoints | day19/main.py:55-77 | no overlap exactly when fewer than 66 distances are shared; an index error exactly when a shared value indexes outside the vote matrix, whether or not the second matrix contains it; otherwise every cell with at least 11 votes, and only those, in row-major order |
| Homogeneous.InvertH | day19/main.py:29-33 | the inverse has bottom row 0 0 0 1 and is rigid when its argument is |
| Homogeneous.InvertLeft | day19/main.py:29-33 | inverting a rigid transform gives a left inverse |
| Homogeneous.InvertRight | day19/main.py:29-33 | inverting a rigid transform gives a right inverse |
| Homogeneous.InvertInvolution | day19/main.py:29-33 | inverting a rigid transform twice gives it back |
| Homogeneous.ComposeAssembled | day19/main.py:106 | composing two transforms rotates by the product and translates by the rotated second translation plus the first |
| Homogeneous.MatMulIdentity | day19/main.py:122 | the identity placed at `[0][0]` is neutral for composition |
| TransformGraph.KeysFrom | day19/main.py:103 | the keys of a row in the order the explorer visits them: all keys in range, each once, increasing |
| TransformGraph.PathSnoc | day19/main.py:106 | extending a chain by one link multiplies its composed transform by that link |
| Explorer.InitialRow | day19/main.py:102 | the starting row of scanner 0 lists each of its direct links once, with the stored transform |
| Explorer.RowCount | day19/main.py:99 | a row of distinct non-zero ids is complete exactly when it has one entry fewer than there are scanners |
| Explorer.PassComposed | day19/main.py:102-106 | each pass stores only transforms that compose a chain of links starting at scanner 0 |
| Explorer.PassGrows | day19/main.py:102-106 | on a connected graph a pass adds at least one scanner until the row is complete |
| Explorer.Explore | day19/main.py:98-108 | on success the row is complete, keeps its earlier entries and has distinct ids |
| Explorer.ExploreSucceeds | day19/main.py:98-108 | exploration terminates with an answer on every connected graph |
| Explorer.ExploreComposed | day19/main.py:98-108 | every transform in the finished row is the product along a chain from scanner 0 |
| Explorer.FinishedConnected | day19/main.py:99-101 | a complete composed row proves the graph connected and names every scanner |
| Explorer.ExploreSpec | day19/main.py:98-108 | exploration succeeds if and only if every scanner is reachable from scanner 0 |
| Registration.FindTransformationBtw | day19/main.py:86-95 | fails with the pair's index error exactly when matching faults; no transform exactly when the pair does not overlap; otherwise the solver's transform on the matched points |
| Registration.LinksAt | day19/main.py:113-118 | a pair `i < j` has a stored link exactly when the two scanners overlap, and the link is their solved transform |
| Registration.FaultsAll | day19/main.py:113-119 | the fault set is empty exactly when no pair faults |
| Registration.PartialStore | day19/main.py:118-119 | storing one overlapping pair adds its transform forward and its inverse backward |
| Registration.StorePair | day19/main.py:115-119 | one iteration either fails exactly at a faulting pair or advances the edge table by that pair |
| Registration.StoreRow | day19/main.py:114-119 | the inner loop completes a scanner's row exactly when none of its pairs faults; otherwise it reports the first faulting pair |
| Registration.StoreAll | day19/main.py:113-119 | the double loop yields the full edge table exactly when no pair faults, else it stops at the first faulting pair in loop order |
| Registration.CreateEdges | day19/main.py:111-119 | the edge table holds a link for every overlapping pair, or the first index error |
| Registration.AllEdgesWellFormed | day19/main.py:112-119 | every scanner has a row, every key is a scanner and no scanner links to itself |
| Registration.AllEdgesSymmetric | day19/main.py:118-119 | links are stored in both directions, the backward one being the inverse of the forward one |
| Registration.AllEdgesForward | day19/main.py:118-119 | for i < j the pair is stored in both directions exactly when the link table holds it, forward the link and backward its inverse, whatever transform the link is |
| Registration.ExpectedSymmetric | day19/main.py:115-119 | scanners a < b are linked both ways exactly when they overlap, forward by the solved transform and backward by its inverse, for any solver output |
| Registration.ToZeroRow | day19/main.py:122 | appending scanner 0 with the identity completes the row without repeating an id |
| Registration.CreateTransformationsDict | day19/main.py:98-123 | succeeds exactly when there is a scanner, no pair faults and the overlap graph is connected; a key error for row 0 exactly when there are no scanners; an index error whenever a pair faults; a recursion error exactly when only connectivity fails; on success every scanner appears once in scanner 0's row with a chain-composed transform, scanner 0 last with the identity |
| Spread.MaxOf | day19/main.py:141 | the maximum bounds every entry and is one of them |
| Spread.LargestDistanceBounds | day19/main.py:138-141 | no two scanners are further apart than the reported distance |
| Spread.LargestDistanceAttained | day19/main.py:138-141 | the reported distance is the distance of some pair of scanners |
| Polymer.Slicer | day14/neu.py:13-14 | one window per adjacent pair, window j being characters j and j + 1 |
| Polymer.Combine | day14/neu.py:17-21 | gluing onto nothing gives the slice; otherwise the shared boundary element is counted once |
| Polymer.CombineSharesBoundary | day14/neu.py:17-21 | a glued polymer starts with the first part and ends with the second |
| Polymer.SliceCombineRoundTrip | day14/neu.py:13-21 | gluing a polymer's windows back together gives the polymer |
| Polymer.CombineAssociative | day14/neu.py:17-21 | gluing is associative across a non-empty middle part |
| Polymer.OneStepAhead | day14/neu.py:10 | the one-step table has the rules' pairs as keys and maps `AB` to `A`, the inserted element, `B` |
| Polymer.StepKeepsEnds | day14/neu.py:68-69 | one insertion round keeps the first and last element |
| Polymer.ExpandKeepsEnds | day14/neu.py:68-69 | any number of rounds keeps the first and last element |
| Polymer.StepCombine | day14/neu.py:49-55 | one round on a glued polymer is the glue of the rounds on its parts |
| Polymer.ExpandCombine | day14/neu.py:49-55 | expanding window by window and gluing equals expanding the whole polymer |
| Polymer.ExpandAdditive | day14/neu.py:27-32 | a steps then b steps equal a + b steps, which justifies splitting the step count |
| Polymer.ExpandOver | day14/neu.py:8-10 | expansion never leaves an alphabet covered by the rules (every pair of its elements has a rule whose inserted element is again in the alphabet) |
| Memo.ClosestHop | day14/neu.py:27-28 | the hop is the largest power of two not above the step, and equals the step exactly when the step is a power of two |
| Memo.InitialWiki | day14/neu.py:58-61 | the cache has one level per power of two up to the total, level 1 being the one-step table and the rest empty |
| Memo.InitialWikiSound | day14/neu.py:58-61 | the fresh cache holds only correct expansions |
| Memo.ShortQueryFails | day14/neu.py:35-46 | a string shorter than a pair never gets an answer from a correct cache |
| Memo.SplitSound | day14/neu.py:27-32 | splitting at the closest hop gives the naive expansion and keeps the cache correct |
| Memo.PairMissSound | day14/neu.py:39-46 | a pair built from two half-step expansions is its naive expansion, and storing it keeps the cache correct |
| Memo.QuerySound | day14/neu.py:24-46 | every answer of the cached query is the naive expansion, and the cache stays correct |
| Memo.CalcLoopSound | day14/neu.py:49-55 | expanding the windows and gluing them gives the naive expansion of the polymer |
| Memo.CalcFromPartsKeepsEnds | day14/neu.py:49-55 | the expanded polymer keeps its first and last element |
| Memo.QueryExtends | day14/neu.py:39-46 | the cache only grows: no entry is dropped or changed |
| Memo.CalcLoopExtends | day14/neu.py:49-55 | a whole pass over the windows only adds cache entries |
| Memo.CacheConsistent | day14/neu.py:36-38 | an entry present before a query is the answer to the same lookup after it |
| Memo.QueryOk | day14/neu.py:24-46 | a query of at least two elements over an alphabet covered by the rules (every pair of its elements has a rule whose inserted element is again in the alphabet), at a step from 1 to the top cached level that is a power of two or that the guard splits, succeeds and leaves the cache ready |
| Memo.PolymerizeMatchesNaive | day14/neu.py:65-71 | the script's answer, when there is one, equals the naive reference |
| Memo.PolymerizeSucceeds | day14/neu.py:58-65 | a start of more than two elements, or of two elements at a power-of-two step count, over an alphabet covered by the rules (every pair of its elements has a rule whose inserted element is again in the alphabet) always yields an answer, for every step count of at least one |
| Memo.CorrectedPolymerizeSucceeds | day14/neu.py:24-46 | with pairs split too, every start of at least two elements over an alphabet covered by the rules (every pair of its elements has a rule whose inserted element is again in the alphabet) yields the naive expansion, for every step count of at least one |
| Memo.ShortStartMissesLevel | day14/neu.py:26-36 | a two-element start at a step that is not a power of two looks up a cache level that does not exist |
| Memo.ShortStartExample | day14/neu.py:26-36 | `NN` with rule `NN -> N` at 10 steps fails as written and succeeds when corrected |

## Left out

- `euclidean_distance` and floating point: matching compares squared integer distances. Beacon coordinates are integers, and float64 `np.sqrt` keeps distinct integer squared distances distinct as long as they stay below about 2^51, far above puzzle-sized coordinates; within that range equality of distances is unchanged.
- `solve_for_h` is a parameter `Solver` from two point lists to a 4×4 integer matrix, because it rounds to integers. Its least-squares algebra and its `LinAlgError` on a singular system are not modelled.
- `parse_input`, `main`, `make_points_homogenous`, `part1`, file reading, `print` and `logging` are not modelled.
- `np.log2` on step counts is modelled by exact integer functions (`Memo.IsPow2`, `Memo.ClosestHop`). They agree with the float computation wherever that is exact; for very large step counts `np.log2` can round a non-power of two up to an integer, which is not modelled.
- `np.unique` internals are not modelled. Its counts are multiset counts and its indices are first occurrences.
- Python's recursion depth limit is not modelled. Recursion that would never end becomes an `Err`; bounded recursion is assumed to fit.
- Explorer.Explore: a pass that adds no scanner returns `Err(RecursionLimit)`. The code recurses on an unchanged dictionary until Python raises `RecursionError`; it does not loop forever, as a plain reading of the recursion might suggest.
- Dictionary iteration order is modelled as it arises. Scanner 0's row keeps insertion order. Every other row lists its keys in increasing order, which is the order the nested loop of `create_transformations_dict` inserts them when `scan_data` lists the scanners in increasing id order (the order parsing produces); that same order fixes which faulting pair is reported first.
- Matcher.Tally and Matcher.MapCommonPoints follow current numpy, which bounds-checks the scalar row index of `map_mat[x, ys] += 1` even when `ys` is empty. Releases that let such an index through silently are not modelled.
- numpy's 64-bit integer arithmetic (coordinates, `np.square`, the `@` products and `-r.T @ t`) is modelled with unbounded integers; overflow is far beyond puzzle-sized coordinates and is not modelled.
- Scanner ids are contiguous from 0. The code iterates over `range(ind_scanner0 + 1, max(scan_data) + 1)` and would fail differently on gaps.
- Memo.Polymerize carries no ensures of its own. Its results are stated by Memo.PolymerizeMatchesNaive, Memo.PolymerizeSucceeds and Memo.ShortStartMissesLevel.
- `test_with_char_array` (method_char_array.py) is not part of this model. Its role as the naive check is taken by `Polymer.Step` / `Polymer.Expand`: one round inserts `rules[AB]` between every adjacent `A`, `B` that has a rule.
- `show_dict` and the binary-expansion `print` of the script are output only and are not modelled.

## Findings

| source | as written | input that shows it | evidently intended | confidence | as-written member | corrected member |
|---|---|---|---|---|---|---|
| day14/neu.py:26-36 | only strings longer than two are split at a power-of-two hop; a pair is always looked up in `wikipedia[at_step]` | start `NN`, rule `NN -> N`, `total_steps = 10`: the lookup is `wikipedia[10]`, a level that was never created (`KeyError`) | a pair at a step that is not a power of two is split at the closest hop like a longer polymer | not executed | Memo.ShortStartMissesLevel | Memo.CorrectedPolymerizeSucceeds |
