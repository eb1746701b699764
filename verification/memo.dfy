/** The memoised doubling expansion of day14/neu.py: `query_the_wiki` and
    `calculate_from_parts`, with the module-level `wikipedia` cache passed in
    and handed back explicitly. */
module Memo {
  import opened Results
  import opened Polymer

  /** The `wikipedia` cache: step count -> (pair -> that pair expanded by that many steps). */
  type Wiki = map<nat, map<string, string>>

  /** How the Python computation stops without an answer. */
  datatype Fault =
    | MissingLevel(step: nat)  // KeyError: `wikipedia[at_step]` has no such level
    | StepZero                 // `int(np.log2(0))` overflows for a long polymer at step 0
    | RecursionLimit           // a cache miss at step 0 recurses on step 0 forever

  /** Which polymers `query_the_wiki` splits into power-of-two hops.
      `AsWritten` is the source's guard `len(pair) > 2`; `Corrected` also splits
      a pair whose step is not a power of two, which the source instead looks
      up in a cache level that does not exist. */
  datatype Guard = AsWritten | Corrected

  /** `np.log2(n) % 1 == 0` on a positive integer, stated exactly. */
  predicate IsPow2(n: nat)
    decreases n
  {
    if n == 0 then false else if n == 1 then true else n % 2 == 0 && IsPow2(n / 2)
  }

  /** `2 ** int(np.log2(n))`: the largest power of two not above `n`. */
  function ClosestHop(n: nat): (hop: nat)
    requires n >= 1
    ensures IsPow2(hop) && hop <= n < 2 * hop
    ensures IsPow2(n) <==> hop == n
  {
    if n == 1 then 1 else 2 * ClosestHop(n / 2)
  }

  /** The polymer is expanded by splitting the step (rather than by a cache lookup). */
  predicate Splits(g: Guard, pair: string, atStep: nat)
  {
    |pair| > 2 || (g == Corrected && |pair| == 2 && !IsPow2(atStep))
  }

  /** Ordering rank used to show that the mutual recursion terminates. */
  function Rank(pair: string): nat
  {
    if |pair| > 2 then 2 else 0
  }

  /** Every entry of `earlier` is still present, unchanged, in `later`. */
  ghost predicate Extends(later: Wiki, earlier: Wiki)
  {
    forall k, p | k in earlier && p in earlier[k] :: k in later && p in later[k] && later[k][p] == earlier[k][p]
  }

  /** `query_the_wiki(pair, at_step)`: the polymer `pair` expanded by `atStep`
      steps, together with the cache as the call leaves it. A long polymer is
      split at the largest power of two not above the step; a pair is looked
      up, or computed from two half-step expansions and stored. */
  function Query(g: Guard, wiki: Wiki, pair: string, atStep: nat): (r: Result<(string, Wiki), Fault>)
    ensures r.Ok? ==> r.value.1.Keys == wiki.Keys
    decreases atStep, Rank(pair), 0
  {
    if Splits(g, pair, atStep) then
      if atStep == 0 then Err(StepZero)
      else if !IsPow2(atStep) then
        var hop := ClosestHop(atStep);
        match CalcFromParts(g, wiki, pair, hop)
        case Err(e) => Err(e)
        case Ok((res, w1)) => Query(g, w1, res, atStep - hop)
      else
        CalcFromParts(g, wiki, pair, atStep)
    else if atStep !in wiki then Err(MissingLevel(atStep))
    else if pair in wiki[atStep] then Ok((wiki[atStep][pair], wiki))
    else if atStep == 0 then Err(RecursionLimit)
    else
      match Query(g, wiki, pair, atStep / 2)
      case Err(e) => Err(e)
      case Ok((half, w1)) =>
        match CalcFromParts(g, w1, half, atStep / 2)
        case Err(e) => Err(e)
        case Ok((res, w2)) => Ok((res, w2[atStep := w2[atStep][pair := res]]))
  }

  /** `calculate_from_parts(poly, step)`: expand every window of `poly` by
      `step` steps and glue the expansions together. */
  function CalcFromParts(g: Guard, wiki: Wiki, poly: string, step: nat): (r: Result<(string, Wiki), Fault>)
    ensures r.Ok? ==> r.value.1.Keys == wiki.Keys
    decreases step, 1, |poly| + 1
  {
    CalcLoop(g, wiki, "", Slicer(poly), step)
  }

  /** The loop of `calculate_from_parts`: `acc` is the polymer glued so far,
      `windows` the pairs still to expand. */
  function CalcLoop(g: Guard, wiki: Wiki, acc: string, windows: seq<string>, step: nat): (r: Result<(string, Wiki), Fault>)
    requires forall i | 0 <= i < |windows| :: |windows[i]| == 2
    ensures r.Ok? ==> r.value.1.Keys == wiki.Keys
    decreases step, 1, |windows|
  {
    if |windows| == 0 then Ok((acc, wiki))
    else
      match Query(g, wiki, windows[0], step)
      case Err(e) => Err(e)
      case Ok((out, w1)) => CalcLoop(g, w1, Combine(acc, out), windows[1..], step)
  }

  /** Every cache level is a power of two, holds only pairs, and every entry
      is the naive expansion of its pair by that level's number of steps. */
  ghost predicate Sound(rules: Rules, wiki: Wiki)
  {
    && (forall k | k in wiki :: IsPow2(k))
    && (forall k, p | k in wiki && p in wiki[k] :: |p| == 2 && wiki[k][p] == Expand(rules, p, k))
  }

  /** A sound cache holds no string shorter than a pair, and halving a level
      always ends on the missing level 0: such queries never succeed. */
  lemma {:induction false} ShortQueryFails(g: Guard, rules: Rules, wiki: Wiki, pair: string, atStep: nat)
    requires Sound(rules, wiki) && |pair| < 2
    ensures Query(g, wiki, pair, atStep).Err?
    decreases atStep
  {
    if atStep in wiki && atStep > 0 {
      assert pair !in wiki[atStep];
      ShortQueryFails(g, rules, wiki, pair, atStep / 2);
    }
  }

  /** Every answer of `query_the_wiki` from a sound cache is the naive
      expansion, and the cache it leaves behind is sound again. */
  lemma {:induction false} QuerySound(g: Guard, rules: Rules, wiki: Wiki, pair: string, atStep: nat)
    requires Sound(rules, wiki)
    ensures Query(g, wiki, pair, atStep).Ok? ==>
              Query(g, wiki, pair, atStep).value.0 == Expand(rules, pair, atStep)
              && Sound(rules, Query(g, wiki, pair, atStep).value.1)
    decreases atStep, Rank(pair), 1
  {
    var r := Query(g, wiki, pair, atStep);
    if !r.Ok? {
    } else if Splits(g, pair, atStep) {
      if !IsPow2(atStep) {
        SplitSound(g, rules, wiki, pair, atStep);
      } else {
        CalcLoopSound(g, rules, wiki, "", pair, atStep);
      }
    } else if |pair| < 2 {
      ShortQueryFails(g, rules, wiki, pair, atStep);
    } else if pair !in wiki[atStep] {
      PairMissSound(g, rules, wiki, pair, atStep);
    }
  }

  /** Proof helper, not a property of the source: unfolds the split branch of
      `Query` (largest power of two not above the step, then the remainder). */
  lemma SplitUnfold(g: Guard, wiki: Wiki, pair: string, atStep: nat)
    requires Splits(g, pair, atStep) && atStep > 0 && !IsPow2(atStep)
    ensures var hop := ClosestHop(atStep);
            var c := CalcFromParts(g, wiki, pair, hop);
            && hop < atStep && IsPow2(hop) && hop + (atStep - hop) == atStep
            && Query(g, wiki, pair, atStep) == if c.Err? then Err(c.error) else Query(g, c.value.1, c.value.0, atStep - hop)
  {
  }

  /** A long polymer at a step that is not a power of two: the hop by the
      largest power of two and the hop by the remainder add up to the step. */
  lemma {:induction false} SplitSound(g: Guard, rules: Rules, wiki: Wiki, pair: string, atStep: nat)
    requires Sound(rules, wiki) && Splits(g, pair, atStep) && atStep > 0 && !IsPow2(atStep)
    ensures Query(g, wiki, pair, atStep).Ok? ==>
              Query(g, wiki, pair, atStep).value.0 == Expand(rules, pair, atStep)
              && Sound(rules, Query(g, wiki, pair, atStep).value.1)
    decreases atStep, Rank(pair), 0
  {
    var hop := ClosestHop(atStep);
    var rest: nat := atStep - hop;
    var c := CalcFromParts(g, wiki, pair, hop);
    SplitUnfold(g, wiki, pair, atStep);
    if c.Ok? {
      var (res, w1) := c.value;
      assert res == Expand(rules, pair, hop) && Sound(rules, w1) by {
        CalcLoopSound(g, rules, wiki, "", pair, hop);
      }
      QuerySound(g, rules, w1, res, rest);
      assert Expand(rules, res, rest) == Expand(rules, pair, atStep) by {
        ExpandAdditive(rules, pair, hop, rest);
      }
    }
  }

  /** Storing the naive expansion of a pair at an existing level keeps the cache sound. */
  lemma StoreSound(rules: Rules, wiki: Wiki, n: nat, pair: string, res: string)
    requires Sound(rules, wiki) && n in wiki && |pair| == 2 && res == Expand(rules, pair, n)
    ensures Sound(rules, wiki[n := wiki[n][pair := res]])
  {
    var w := wiki[n := wiki[n][pair := res]];
    forall k | k in w
      ensures IsPow2(k)
    {
      assert k in wiki;
    }
    forall k, p | k in w && p in w[k]
      ensures |p| == 2 && w[k][p] == Expand(rules, p, k)
    {
      if k != n || p != pair {
        assert p in wiki[k] && w[k][p] == wiki[k][p];
      }
    }
  }

  /** A cache miss on a pair: the two half-step expansions compose to the
      full expansion, so the entry stored is the naive expansion. */
  lemma {:induction false} PairMissSound(g: Guard, rules: Rules, wiki: Wiki, pair: string, atStep: nat)
    requires Sound(rules, wiki) && !Splits(g, pair, atStep) && |pair| == 2 && atStep in wiki && pair !in wiki[atStep]
    ensures Query(g, wiki, pair, atStep).Ok? ==>
              Query(g, wiki, pair, atStep).value.0 == Expand(rules, pair, atStep)
              && Sound(rules, Query(g, wiki, pair, atStep).value.1)
    decreases atStep, 0, 0
  {
    var n := atStep;
    var q := Query(g, wiki, pair, n / 2);
    var r := Query(g, wiki, pair, n);
    if r.Ok? {
      assert n > 0 && q.Ok?;
      var (half, w1) := q.value;
      var c := CalcFromParts(g, w1, half, n / 2);
      assert c.Ok?;
      var (res, w2) := c.value;
      var w3 := w2[n := w2[n][pair := res]];
      assert r.value == (res, w3);
      assert n != 1 by {
        assert 0 !in wiki;
      }
      assert n / 2 + n / 2 == n by {
        assert IsPow2(n);
      }
      assert half == Expand(rules, pair, n / 2) && Sound(rules, w1) by {
        QuerySound(g, rules, wiki, pair, n / 2);
      }
      assert res == Expand(rules, pair, n) && Sound(rules, w2) by {
        ExpandKeepsEnds(rules, pair, n / 2);
        CalcLoopSound(g, rules, w1, "", half, n / 2);
        ExpandAdditive(rules, pair, n / 2, n / 2);
      }
      StoreSound(rules, w2, n, pair, res);
      assert r.value.0 == Expand(rules, pair, atStep) && Sound(rules, r.value.1);
    }
  }

  /** `calculate_from_parts` over the windows of a polymer of at least two
      elements, from a sound cache, glues the naive expansion of the whole
      polymer onto `acc`, and leaves a sound cache. */
  lemma {:induction false} CalcLoopSound(g: Guard, rules: Rules, wiki: Wiki, acc: string, s: string, step: nat)
    requires Sound(rules, wiki) && |s| >= 2
    ensures CalcLoop(g, wiki, acc, Slicer(s), step).Ok? ==>
              CalcLoop(g, wiki, acc, Slicer(s), step).value.0 == Combine(acc, Expand(rules, s, step))
              && Sound(rules, CalcLoop(g, wiki, acc, Slicer(s), step).value.1)
    decreases step, 1, |s|
  {
    var windows := Slicer(s);
    assert windows[0] == s[..2];
    assert windows[1..] == Slicer(s[1..]);
    var r := CalcLoop(g, wiki, acc, windows, step);
    QuerySound(g, rules, wiki, s[..2], step);
    var q := Query(g, wiki, s[..2], step);
    if r.Ok? {
      var (out, w1) := q.value;
      assert out == Expand(rules, s[..2], step);
      ExpandKeepsEnds(rules, s[..2], step);
      if |s| == 2 {
        assert s[..2] == s;
        assert Slicer(s[1..]) == [];
      } else {
        CalcLoopSound(g, rules, w1, Combine(acc, out), s[1..], step);
        var rest := Expand(rules, s[1..], step);
        ExpandKeepsEnds(rules, s[1..], step);
        assert Combine(s[..2], s[1..]) == s;
        ExpandCombine(rules, s[..2], s[1..], step);
        CombineAssociative(acc, out, rest);
      }
    }
  }

  /** The cache only grows: a successful query never changes or drops an entry. */
  lemma {:induction false} QueryExtends(g: Guard, wiki: Wiki, pair: string, atStep: nat)
    ensures Query(g, wiki, pair, atStep).Ok? ==> Extends(Query(g, wiki, pair, atStep).value.1, wiki)
    decreases atStep, Rank(pair), 1
  {
    var r := Query(g, wiki, pair, atStep);
    if r.Ok? {
      if Splits(g, pair, atStep) {
        if !IsPow2(atStep) {
          var hop := ClosestHop(atStep);
          SplitUnfold(g, wiki, pair, atStep);
          CalcLoopExtends(g, wiki, "", Slicer(pair), hop);
          var (res, w1) := CalcFromParts(g, wiki, pair, hop).value;
          QueryExtends(g, w1, res, atStep - hop);
        } else {
          CalcLoopExtends(g, wiki, "", Slicer(pair), atStep);
        }
      } else if pair !in wiki[atStep] {
        MissExtends(g, wiki, pair, atStep);
      }
    }
  }

  /** A cache miss stores an entry for a pair that was absent, so nothing is overwritten. */
  lemma {:induction false} MissExtends(g: Guard, wiki: Wiki, pair: string, atStep: nat)
    requires !Splits(g, pair, atStep) && atStep in wiki && pair !in wiki[atStep]
    ensures Query(g, wiki, pair, atStep).Ok? ==> Extends(Query(g, wiki, pair, atStep).value.1, wiki)
    decreases atStep, Rank(pair), 0
  {
    var n := atStep;
    var r := Query(g, wiki, pair, n);
    if r.Ok? {
      var q := Query(g, wiki, pair, n / 2);
      assert n > 0 && q.Ok?;
      var (half, w1) := q.value;
      var c := CalcFromParts(g, w1, half, n / 2);
      assert c.Ok?;
      var (res, w2) := c.value;
      assert r.value.1 == w2[n := w2[n][pair := res]];
      QueryExtends(g, wiki, pair, n / 2);
      CalcLoopExtends(g, w1, "", Slicer(half), n / 2);
      forall k, p | k in wiki && p in wiki[k]
        ensures k in r.value.1 && p in r.value.1[k] && r.value.1[k][p] == wiki[k][p]
      {
        assert p in w1[k] && w1[k][p] == wiki[k][p];
        assert p in w2[k] && w2[k][p] == wiki[k][p];
      }
    }
  }

  /** The loop of `calculate_from_parts` only grows the cache. */
  lemma {:induction false} CalcLoopExtends(g: Guard, wiki: Wiki, acc: string, windows: seq<string>, step: nat)
    requires forall i | 0 <= i < |windows| :: |windows[i]| == 2
    ensures CalcLoop(g, wiki, acc, windows, step).Ok? ==> Extends(CalcLoop(g, wiki, acc, windows, step).value.1, wiki)
    decreases step, 1, |windows|
  {
    if |windows| > 0 && CalcLoop(g, wiki, acc, windows, step).Ok? {
      QueryExtends(g, wiki, windows[0], step);
      var (out, w1) := Query(g, wiki, windows[0], step).value;
      CalcLoopExtends(g, w1, Combine(acc, out), windows[1..], step);
    }
  }

  /** Cache consistency: after any successful query, every pair that was
      cached is still answered from the cache with the value stored earlier. */
  lemma CacheConsistent(g: Guard, wiki: Wiki, pair: string, atStep: nat, k: nat, p: string)
    requires Query(g, wiki, pair, atStep).Ok?
    requires k in wiki && p in wiki[k] && !Splits(g, p, k)
    ensures Query(g, Query(g, wiki, pair, atStep).value.1, p, k) == Ok((wiki[k][p], Query(g, wiki, pair, atStep).value.1))
  {
    QueryExtends(g, wiki, pair, atStep);
  }

  /** `hops`: the cache levels the script creates, every power of two up to `total`. */
  function Hops(total: nat): (levels: set<nat>)
    ensures forall k :: k in levels <==> 1 <= k <= total && IsPow2(k)
  {
    set k | 1 <= k <= total && IsPow2(k)
  }

  /** The cache as the script sets it up: one empty level per hop, and level 1
      holding the one-step rule table. */
  function InitialWiki(rules: Rules, total: nat): (wiki: Wiki)
    requires WellFormedRules(rules)
    ensures forall k :: k in wiki <==> 1 <= k <= total && IsPow2(k)
    ensures 1 in wiki ==> wiki[1] == OneStepAhead(rules)
    ensures forall k | k in wiki && k != 1 :: wiki[k] == map[]
  {
    map k | k in Hops(total) :: if k == 1 then OneStepAhead(rules) else map[]
  }

  /** The freshly built cache is sound: level 1 is exactly one round of insertion. */
  lemma InitialWikiSound(rules: Rules, total: nat)
    requires WellFormedRules(rules)
    ensures Sound(rules, InitialWiki(rules, total))
  {
    var wiki := InitialWiki(rules, total);
    forall k, p | k in wiki && p in wiki[k]
      ensures |p| == 2 && wiki[k][p] == Expand(rules, p, k)
    {
      assert k == 1;
      assert p == Pair(p[0], p[1]);
      assert Step(rules, p[1..]) == [p[1]];
      assert Step(rules, p) == [p[0]] + [rules[p]] + [p[1]];
    }
  }

  /** The script's top level: expand `start` by `total` steps with a fresh cache.
      `np.log2(0)` makes the hop list fail for zero steps. */
  function Polymerize(g: Guard, rules: Rules, start: string, total: nat): (r: Result<string, Fault>)
    requires WellFormedRules(rules)
  {
    if total == 0 then Err(StepZero)
    else
      match Query(g, InitialWiki(rules, total), start, total)
      case Err(e) => Err(e)
      case Ok((res, _)) => Ok(res)
  }

  /** The check at the end of the script: whenever the memoised doubling
      produces an answer, it is the naive pair insertion applied `total` times. */
  lemma PolymerizeMatchesNaive(g: Guard, rules: Rules, start: string, total: nat)
    requires WellFormedRules(rules)
    ensures Polymerize(g, rules, start, total).Ok? ==> Polymerize(g, rules, start, total).value == Expand(rules, start, total)
  {
    InitialWikiSound(rules, total);
    QuerySound(g, rules, InitialWiki(rules, total), start, total);
  }

  /** `calculate_from_parts` keeps a polymer's first and last elements,
      because every cached pair expansion keeps its own. */
  lemma CalcFromPartsKeepsEnds(g: Guard, rules: Rules, wiki: Wiki, poly: string, step: nat)
    requires Sound(rules, wiki) && |poly| >= 2
    ensures CalcFromParts(g, wiki, poly, step).Ok? ==>
              var out := CalcFromParts(g, wiki, poly, step).value.0;
              |out| >= 2 && out[0] == poly[0] && out[|out| - 1] == poly[|poly| - 1]
  {
    var r := CalcFromParts(g, wiki, poly, step);
    var loop := CalcLoop(g, wiki, "", Slicer(poly), step);
    assert r == loop;
    if r.Ok? {
      var e := Expand(rules, poly, step);
      assert loop.value.0 == Combine("", e) by {
        CalcLoopSound(g, rules, wiki, "", poly, step);
      }
      ExpandKeepsEnds(rules, poly, step);
    }
  }

  /** A cache from which every query up to `top` steps over the alphabet can
      be answered: sound, with every power-of-two level up to `top`, and with
      level 1 holding every pair of the alphabet. */
  ghost predicate Ready(rules: Rules, alpha: set<char>, top: nat, wiki: Wiki)
  {
    && Sound(rules, wiki)
    && (forall k | 1 <= k <= top && IsPow2(k) :: k in wiki)
    && 1 in wiki
    && (forall a, b | a in alpha && b in alpha :: Pair(a, b) in wiki[1])
  }

  /** Readiness survives any successful query or loop. */
  lemma ReadyKept(rules: Rules, alpha: set<char>, top: nat, wiki: Wiki, later: Wiki)
    requires Ready(rules, alpha, top, wiki)
    requires Sound(rules, later) && later.Keys == wiki.Keys && Extends(later, wiki)
    ensures Ready(rules, alpha, top, later)
  {
    forall a, b | a in alpha && b in alpha
      ensures Pair(a, b) in later[1]
    {
      assert Pair(a, b) in wiki[1];
    }
  }

  /** With covering rules, a ready cache answers every query over the
      alphabet of a polymer the guard splits, or of a pair at a power-of-two
      step, up to `top` steps. */
  lemma {:induction false} QueryOk(g: Guard, rules: Rules, alpha: set<char>, top: nat, wiki: Wiki, pair: string, n: nat)
    requires Covers(rules, alpha) && Ready(rules, alpha, top, wiki)
    requires Over(pair, alpha) && |pair| >= 2 && 1 <= n <= top
    requires Splits(g, pair, n) || IsPow2(n)
    ensures Query(g, wiki, pair, n).Ok?
    ensures Query(g, wiki, pair, n).Ok? ==> Ready(rules, alpha, top, Query(g, wiki, pair, n).value.1)
    decreases n, Rank(pair), 1
  {
    var r := Query(g, wiki, pair, n);
    if Splits(g, pair, n) && !IsPow2(n) {
      var hop := ClosestHop(n);
      SplitUnfold(g, wiki, pair, n);
      CalcOk(g, rules, alpha, top, wiki, "", pair, hop);
      var (res, w1) := CalcFromParts(g, wiki, pair, hop).value;
      assert res == Expand(rules, pair, hop) by {
        CalcLoopSound(g, rules, wiki, "", pair, hop);
      }
      ExpandOver(rules, alpha, pair, hop);
      QueryOk(g, rules, alpha, top, w1, res, n - hop);
    } else if Splits(g, pair, n) {
      CalcOk(g, rules, alpha, top, wiki, "", pair, n);
    } else {
      assert |pair| == 2 && IsPow2(n) && n in wiki;
      if pair !in wiki[n] {
        PairMissOk(g, rules, alpha, top, wiki, pair, n);
      }
    }
  }

  /** A missed pair is computed from two half-step expansions, both of which succeed. */
  lemma {:induction false} PairMissOk(g: Guard, rules: Rules, alpha: set<char>, top: nat, wiki: Wiki, pair: string, n: nat)
    requires Covers(rules, alpha) && Ready(rules, alpha, top, wiki)
    requires Over(pair, alpha) && |pair| == 2 && 1 <= n <= top && IsPow2(n)
    requires !Splits(g, pair, n) && n in wiki && pair !in wiki[n]
    ensures Query(g, wiki, pair, n).Ok?
    ensures Query(g, wiki, pair, n).Ok? ==> Ready(rules, alpha, top, Query(g, wiki, pair, n).value.1)
    decreases n, Rank(pair), 0
  {
    var half_step := n / 2;
    assert 1 <= half_step && IsPow2(half_step) by {
      assert n != 1 by {
        assert pair == Pair(pair[0], pair[1]);
      }
    }
    QueryOk(g, rules, alpha, top, wiki, pair, half_step);
    var q := Query(g, wiki, pair, half_step);
    var (half, w1) := q.value;
    assert Over(half, alpha) && |half| >= 2 by {
      QuerySound(g, rules, wiki, pair, half_step);
      ExpandOver(rules, alpha, pair, half_step);
    }
    CalcOk(g, rules, alpha, top, w1, "", half, half_step);
    assert Query(g, wiki, pair, n).Ok?;
    var r := Query(g, wiki, pair, n);
    assert Sound(rules, r.value.1) by {
      PairMissSound(g, rules, wiki, pair, n);
    }
    assert Extends(r.value.1, wiki) by {
      MissExtends(g, wiki, pair, n);
    }
    ReadyKept(rules, alpha, top, wiki, r.value.1);
  }

  /** The loop of `calculate_from_parts` over the windows of a polymer over
      the alphabet succeeds at every power-of-two step up to `top`. */
  lemma {:induction false} CalcOk(g: Guard, rules: Rules, alpha: set<char>, top: nat, wiki: Wiki, acc: string, s: string, n: nat)
    requires Covers(rules, alpha) && Ready(rules, alpha, top, wiki)
    requires Over(s, alpha) && |s| >= 2 && 1 <= n <= top && IsPow2(n)
    ensures CalcLoop(g, wiki, acc, Slicer(s), n).Ok?
    ensures CalcLoop(g, wiki, acc, Slicer(s), n).Ok? ==> Ready(rules, alpha, top, CalcLoop(g, wiki, acc, Slicer(s), n).value.1)
    decreases n, 1, |s|
  {
    var windows := Slicer(s);
    assert windows[0] == s[..2];
    assert windows[1..] == Slicer(s[1..]);
    QueryOk(g, rules, alpha, top, wiki, s[..2], n);
    var (out, w1) := Query(g, wiki, s[..2], n).value;
    if |s| > 2 {
      CalcOk(g, rules, alpha, top, w1, Combine(acc, out), s[1..], n);
    }
  }

  /** With rules covering the alphabet, the corrected computation answers
      every polymer of at least two elements for any positive number of steps. */
  lemma CorrectedPolymerizeSucceeds(rules: Rules, alpha: set<char>, start: string, total: nat)
    requires WellFormedRules(rules) && Covers(rules, alpha)
    requires Over(start, alpha) && |start| >= 2 && total >= 1
    ensures Polymerize(Corrected, rules, start, total).Ok?
    ensures Polymerize(Corrected, rules, start, total).value == Expand(rules, start, total)
  {
    InitialReady(rules, alpha, total);
    QueryOk(Corrected, rules, alpha, total, InitialWiki(rules, total), start, total);
    PolymerizeMatchesNaive(Corrected, rules, start, total);
  }

  /** The source's computation answers every polymer longer than a pair, and a
      pair whenever the step count is a power of two. */
  lemma PolymerizeSucceeds(rules: Rules, alpha: set<char>, start: string, total: nat)
    requires WellFormedRules(rules) && Covers(rules, alpha)
    requires Over(start, alpha) && total >= 1
    requires |start| > 2 || (|start| == 2 && IsPow2(total))
    ensures Polymerize(AsWritten, rules, start, total).Ok?
  {
    InitialReady(rules, alpha, total);
    QueryOk(AsWritten, rules, alpha, total, InitialWiki(rules, total), start, total);
  }

  /** The fresh cache is ready for `total` steps. */
  lemma InitialReady(rules: Rules, alpha: set<char>, total: nat)
    requires WellFormedRules(rules) && Covers(rules, alpha) && total >= 1
    ensures Ready(rules, alpha, total, InitialWiki(rules, total))
  {
    InitialWikiSound(rules, total);
  }

  /** The source's guard sends a two-element starting polymer at a step that
      is not a power of two to the cache lookup, and the cache has no such
      level: `wikipedia[at_step]` raises KeyError. */
  lemma ShortStartMissesLevel(rules: Rules, start: string, total: nat)
    requires WellFormedRules(rules) && |start| == 2 && total >= 1 && !IsPow2(total)
    ensures Polymerize(AsWritten, rules, start, total) == Err(MissingLevel(total))
  {
    assert total !in InitialWiki(rules, total);
  }

  /** A concrete instance: "NN" for 10 steps with the rule NN -> N. */
  lemma ShortStartExample()
    ensures Polymerize(AsWritten, map["NN" := 'N'], "NN", 10) == Err(MissingLevel(10))
    ensures Polymerize(Corrected, map["NN" := 'N'], "NN", 10).Ok?
  {
    var rules := map["NN" := 'N'];
    assert !IsPow2(10) by {
      assert !IsPow2(5);
    }
    ShortStartMissesLevel(rules, "NN", 10);
    var alpha := {'N'};
    assert Covers(rules, alpha);
    CorrectedPolymerizeSucceeds(rules, alpha, "NN", 10);
  }
}
