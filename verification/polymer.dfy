/** The string core of the memoised polymer expansion (day14/neu.py):
    cutting a polymer into overlapping pairs, gluing expansions back together,
    the one-step rule table, and the naive step-by-step pair insertion that the
    memoised computation is compared against. */
module Polymer {

  /** Pair-insertion rules: the pair "AB" maps to the element inserted between A and B. */
  type Rules = map<string, char>

  /** The two-character string `ab`. */
  function Pair(a: char, b: char): string
  {
    [a, b]
  }

  /** Every rule's left-hand side is a pair of elements. */
  predicate WellFormedRules(rules: Rules)
  {
    forall p | p in rules :: |p| == 2
  }

  /** Every character of `s` belongs to the alphabet. */
  predicate Over(s: string, alpha: set<char>)
  {
    forall i | 0 <= i < |s| :: s[i] in alpha
  }

  /** The rules cover the alphabet: every pair of its elements has a rule,
      and every inserted element belongs to it again. */
  predicate Covers(rules: Rules, alpha: set<char>)
  {
    forall a, b | a in alpha && b in alpha :: Pair(a, b) in rules && rules[Pair(a, b)] in alpha
  }

  /** `slicer`: the overlapping windows of length two, left to right. */
  function Slicer(poly: string): (windows: seq<string>)
    ensures |windows| == if |poly| == 0 then 0 else |poly| - 1
    ensures forall j | 0 <= j < |windows| :: windows[j] == poly[j..j + 2]
  {
    if |poly| < 2 then [] else [poly[..2]] + Slicer(poly[1..])
  }

  /** Python's `s[1:]`, which is empty for an empty `s`. */
  function DropFirst(s: string): string
  {
    if |s| == 0 then s else s[1..]
  }

  /** `combine_slices`: append an expansion to the polymer built so far; the
      first character of `slic` is the last character of `poly` and is not repeated. */
  function Combine(poly: string, slic: string): (r: string)
    ensures poly == "" ==> r == slic
    ensures poly != "" && slic == "" ==> r == poly
    ensures poly != "" && slic != "" ==> |r| == |poly| + |slic| - 1
  {
    if poly == "" then slic else poly + DropFirst(slic)
  }

  /** Gluing keeps the polymer built so far and continues it with `slic`, whose
      first element is the polymer's last one and appears once. */
  lemma CombineSharesBoundary(poly: string, slic: string)
    requires poly != "" && slic != "" && poly[|poly| - 1] == slic[0]
    ensures Combine(poly, slic)[..|poly|] == poly
    ensures Combine(poly, slic)[|poly| - 1..] == slic
  {
    var r := Combine(poly, slic);
    assert r == poly + slic[1..];
    assert r[|poly| - 1..] == [poly[|poly| - 1]] + slic[1..];
  }

  /** The loop of `calculate_from_parts` with the expansion left out: fold
      `Combine` over `parts`, starting from `acc`. */
  function FoldCombine(acc: string, parts: seq<string>): string
    decreases |parts|
  {
    if |parts| == 0 then acc else FoldCombine(Combine(acc, parts[0]), parts[1..])
  }

  /** Folding the windows of `s` onto a polymer that already ends with `s[0]`
      appends the rest of `s`. */
  lemma {:induction false} FoldWindowsExtends(acc: string, s: string)
    requires |acc| >= 1 && |s| >= 1 && acc[|acc| - 1] == s[0]
    ensures FoldCombine(acc, Slicer(s)) == acc + s[1..]
    decreases |s|
  {
    if |s| == 1 {
      assert Slicer(s) == [];
      assert s[1..] == "";
    } else {
      var w := Slicer(s);
      assert w[0] == s[..2];
      assert w[1..] == Slicer(s[1..]);
      var acc' := Combine(acc, s[..2]);
      assert acc' == acc + [s[1]];
      FoldWindowsExtends(acc', s[1..]);
      assert s[1..][1..] == s[2..];
      assert acc + [s[1]] + s[2..] == acc + s[1..];
    }
  }

  /** Slicing a polymer of at least two elements and gluing the windows back
      together rebuilds it exactly: the invariant `calculate_from_parts` relies on. */
  lemma {:induction false} SliceCombineRoundTrip(poly: string)
    requires |poly| >= 2
    ensures FoldCombine("", Slicer(poly)) == poly
  {
    var w := Slicer(poly);
    assert w[0] == poly[..2];
    assert w[1..] == Slicer(poly[1..]);
    FoldWindowsExtends(poly[..2], poly[1..]);
    assert poly[..2] + poly[1..][1..] == poly;
  }

  /** Gluing is associative whenever the middle piece is non-empty. */
  lemma CombineAssociative(a: string, b: string, c: string)
    requires b != ""
    ensures Combine(Combine(a, b), c) == Combine(a, Combine(b, c))
  {
    var bc := b + DropFirst(c);
    assert Combine(b, c) == bc;
    if a != "" {
      assert Combine(a, b) == a + b[1..];
      assert DropFirst(bc) == b[1..] + DropFirst(c);
      assert Combine(a, bc) == a + (b[1..] + DropFirst(c));
      assert Combine(a + b[1..], c) == (a + b[1..]) + DropFirst(c);
    }
  }

  /** `one_step_ahead`: each rule "AB" -> C becomes the pair's one-step
      expansion "ACB". */
  function OneStepAhead(rules: Rules): (table: map<string, string>)
    requires WellFormedRules(rules)
    ensures table.Keys == rules.Keys
    ensures forall p | p in table ::
              |table[p]| == 3 && table[p][0] == p[0] && table[p][1] == rules[p] && table[p][2] == p[1]
  {
    map p | p in rules :: [p[0], rules[p], p[1]]
  }

  /** The element a rule inserts between `a` and `b`, if any. */
  function Insertion(rules: Rules, a: char, b: char): string
  {
    if Pair(a, b) in rules then [rules[Pair(a, b)]] else []
  }

  /** Reference semantics: one round of pair insertion applied to every
      adjacent pair of the polymer simultaneously. */
  function Step(rules: Rules, s: string): (r: string)
    ensures |r| >= |s|
  {
    if |s| < 2 then s else [s[0]] + Insertion(rules, s[0], s[1]) + Step(rules, s[1..])
  }

  /** A round of insertion only adds elements between existing ones: the
      polymer's first and last elements stay where they are. */
  lemma {:induction false} StepKeepsEnds(rules: Rules, s: string)
    requires |s| >= 1
    ensures Step(rules, s)[0] == s[0]
    ensures Step(rules, s)[|Step(rules, s)| - 1] == s[|s| - 1]
    decreases |s|
  {
    if |s| >= 2 {
      StepKeepsEnds(rules, s[1..]);
    }
  }

  /** Reference semantics: `n` rounds of pair insertion. */
  function Expand(rules: Rules, s: string, n: nat): (r: string)
    ensures |r| >= |s|
    decreases n
  {
    if n == 0 then s else Expand(rules, Step(rules, s), n - 1)
  }

  /** Any number of rounds keeps the polymer's first and last elements. */
  lemma {:induction false} ExpandKeepsEnds(rules: Rules, s: string, n: nat)
    requires |s| >= 1
    ensures Expand(rules, s, n)[0] == s[0]
    ensures Expand(rules, s, n)[|Expand(rules, s, n)| - 1] == s[|s| - 1]
    decreases n
  {
    if n > 0 {
      StepKeepsEnds(rules, s);
      ExpandKeepsEnds(rules, Step(rules, s), n - 1);
    }
  }

  lemma ConcatAssociative(a: string, b: string, c: string)
    ensures a + (b + c) == (a + b) + c
  {
  }

  /** One round of insertion commutes with gluing two polymers at a shared element. */
  lemma {:induction false} StepCombine(rules: Rules, u: string, v: string)
    requires |u| >= 1 && |v| >= 1 && u[|u| - 1] == v[0]
    ensures Step(rules, Combine(u, v)) == Combine(Step(rules, u), Step(rules, v))
    decreases |u|
  {
    var sv := Step(rules, v);
    if |u| == 1 {
      assert u == [v[0]];
      assert Combine(u, v) == u + v[1..] == v;
      assert Step(rules, u) == u;
      StepKeepsEnds(rules, v);
      assert Combine(u, sv) == [sv[0]] + sv[1..] == sv;
    } else {
      var uv := u + v[1..];
      assert Combine(u, v) == uv;
      assert |uv| >= 2 && uv[0] == u[0] && uv[1] == u[1];
      var ins := Insertion(rules, u[0], u[1]);
      assert uv[1..] == u[1..] + v[1..];
      var u' := u[1..];
      assert u'[|u'| - 1] == v[0];
      assert Combine(u', v) == uv[1..];
      StepCombine(rules, u', v);
      var tail := Step(rules, u');
      assert |tail| >= 1;
      assert Combine(tail, sv) == tail + DropFirst(sv);
      assert Step(rules, uv[1..]) == tail + DropFirst(sv);
      assert Step(rules, uv) == [uv[0]] + Insertion(rules, uv[0], uv[1]) + Step(rules, uv[1..]);
      assert Step(rules, u) == [u[0]] + ins + tail;
      assert Combine(Step(rules, u), sv) == ([u[0]] + ins + tail) + DropFirst(sv);
      assert Step(rules, uv) == [u[0]] + ins + (tail + DropFirst(sv));
      ConcatAssociative([u[0]] + ins, tail, DropFirst(sv));
    }
  }

  /** `n` rounds of insertion commute with gluing at a shared element. */
  lemma {:induction false} ExpandCombine(rules: Rules, u: string, v: string, n: nat)
    requires |u| >= 1 && |v| >= 1 && u[|u| - 1] == v[0]
    ensures Expand(rules, Combine(u, v), n) == Combine(Expand(rules, u, n), Expand(rules, v, n))
    decreases n
  {
    if n > 0 {
      StepCombine(rules, u, v);
      StepKeepsEnds(rules, u);
      StepKeepsEnds(rules, v);
      var su, sv := Step(rules, u), Step(rules, v);
      ExpandCombine(rules, su, sv, n - 1);
    }
  }

  /** Expanding by `a` rounds and then by `b` rounds is expanding by `a + b` rounds. */
  lemma {:induction false} ExpandAdditive(rules: Rules, s: string, a: nat, b: nat)
    ensures Expand(rules, Expand(rules, s, a), b) == Expand(rules, s, a + b)
    decreases a
  {
    if a > 0 {
      ExpandAdditive(rules, Step(rules, s), a - 1, b);
    }
  }

  /** With covering rules, insertion never leaves the alphabet. */
  lemma {:induction false} StepOver(rules: Rules, alpha: set<char>, s: string)
    requires Covers(rules, alpha) && Over(s, alpha)
    ensures Over(Step(rules, s), alpha)
    decreases |s|
  {
    if |s| >= 2 {
      StepOver(rules, alpha, s[1..]);
      assert Insertion(rules, s[0], s[1]) == [rules[Pair(s[0], s[1])]];
    }
  }

  /** With covering rules, `n` rounds of insertion never leave the alphabet. */
  lemma {:induction false} ExpandOver(rules: Rules, alpha: set<char>, s: string, n: nat)
    requires Covers(rules, alpha) && Over(s, alpha)
    ensures Over(Expand(rules, s, n), alpha)
    decreases n
  {
    if n > 0 {
      StepOver(rules, alpha, s);
      ExpandOver(rules, alpha, Step(rules, s), n - 1);
    }
  }
}
