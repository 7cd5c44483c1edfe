/** What the coin search guarantees: least score, termination, completeness, and where the 32-bit score breaks. */
module CoinOptimality {
  import opened Common
  import opened CoinSelection

  /** A full selection m comes before a prefix c in the walk: where they first differ, m includes and c omits. */
  ghost predicate Before(m: Selection, c: Selection) {
    exists j :: 0 <= j < |c| && j < |m| && m[..j] == c[..j] && m[j] && !c[j]
  }

  ghost predicate Full(p: Problem, m: Selection) {
    |m| == |p.values| && Solves(p, m)
  }

  /** Every solution the walk has already passed scores no better than the best one kept. */
  ghost predicate Covered(p: Problem, c: Selection, bestScore: nat) {
    forall m: Selection :: Full(p, m) && Before(m, c) ==> bestScore <= Score(p, m)
  }

  /** The same for the whole subtree under a prefix. */
  ghost predicate SubtreeCovered(p: Problem, c: Selection, bestScore: nat) {
    forall m: Selection :: Full(p, m) && c <= m ==> bestScore <= Score(p, m)
  }

  /** The kept best is nothing yet, or a solution with its own score and sum. */
  ghost predicate BestIsSolution(p: Problem, s: Search) {
    if s.best == [] then s.bestScore == NO_SCORE && s.bestSum == 0
    else Solves(p, s.best) && s.bestScore == WrappedScore(p, s.best) && s.bestSum == Weight(p.values, s.best)
  }

  /** The score a new selection is measured against; larger than any score while nothing was found. */
  ghost function Bound(s: Search): nat {
    if s.best == [] then TWO_32 else s.bestScore
  }

  ghost predicate NoWrap(p: Problem) {
    p.ioRatio + Min(|p.values|, 256) < 0x1_0000_0000
  }

  /** All solutions score at least what was kept. */
  ghost predicate LeastScore(p: Problem, s: Search) {
    forall m: Selection :: Full(p, m) ==> Solves(p, s.best) && Score(p, s.best) <= Score(p, m)
  }

  // ---------------------------------------------------------------- counting and weighing prefixes

  lemma {:induction false} PrefixBounds(values: seq<uint64>, c: Selection, m: Selection)
    requires c <= m && |m| <= |values|
    ensures Count(c) <= Count(m)
    ensures Weight(values, c) <= Weight(values, m) <=
            Weight(values, c) + Remaining(values, |c|) - Remaining(values, |m|)
    decreases |m|
  {
    if |c| == |m| {
      assert c == m;
    } else {
      PrefixBounds(values, c, m[..|m| - 1]);
    }
  }

  lemma {:induction false} CountAtMostLength(m: Selection)
    ensures Count(m) <= |m|
  {
    if m != [] { CountAtMostLength(m[..|m| - 1]); }
  }

  lemma Append(values: seq<uint64>, m: Selection, b: bool)
    requires |m| < |values|
    ensures Count(m + [b]) == Count(m) + if b then 1 else 0
    ensures Weight(values, m + [b]) == Weight(values, m) + if b then values[|m|] else 0
    ensures Indices(m + [b]) == Indices(m) + if b then [|m|] else []
  {
    assert (m + [b])[..|m|] == m;
  }

  lemma {:induction false} Replace(values: seq<uint64>, m: Selection, j: nat, b: bool)
    requires j < |m| <= |values|
    ensures Count(m[j := b]) == Count(m) - (if m[j] then 1 else 0) + (if b then 1 else 0)
    ensures Weight(values, m[j := b])
         == Weight(values, m) - (if m[j] then values[j] else 0) + (if b then values[j] else 0)
    decreases |m|
  {
    var k := |m| - 1;
    if j == k {
      assert m[j := b][..k] == m[..k];
    } else {
      assert m[j := b][..k] == m[..k][j := b];
      Replace(values, m[..k], j, b);
    }
  }

  // ---------------------------------------------------------------- leaving a subtree covers it

  /** A solution before the flipped prefix was before the old prefix or under it. */
  lemma FlipCovers(m: Selection, c: Selection)
    requires Count(c) > 0 && Before(m, Flip(c)) && |c| <= |m|
    ensures Before(m, c) || c <= m
  {
    hide Before, Flip, Count;
    FlipShape(c);
    var j := |Flip(c)| - 1;
    FlippedAt(m, c, Flip(c), j);
  }

  lemma FlippedAt(m: Selection, c: Selection, f: Selection, j: nat)
    requires j < |c| <= |m| && |f| == j + 1 && f[..j] == c[..j] && c[j] && Before(m, f)
    requires forall i :: j < i < |c| ==> !c[i]
    ensures Before(m, c) || c <= m
  {
    var k :| 0 <= k < |f| && k < |m| && m[..k] == f[..k] && m[k] && !f[k];
    if k < j {
      assert c[..k] == c[..j][..k] == f[..j][..k] == f[..k];
      assert c[k] == c[..j][k] == f[..j][k] == f[k];
    } else {
      assert m[..j + 1] == m[..j] + [m[j]] && c[..j + 1] == c[..j] + [c[j]];
      UnderOrBefore(m, c, j + 1);
    }
  }

  /** Where only omissions are left in c, anything agreeing so far lies before c or under it. */
  lemma {:induction false} UnderOrBefore(m: Selection, c: Selection, i: nat)
    requires i <= |c| <= |m| && m[..i] == c[..i]
    requires forall k :: i <= k < |c| ==> !c[k]
    ensures Before(m, c) || c <= m
    decreases |c| - i
  {
    if i < |c| && !m[i] {
      assert m[..i + 1] == m[..i] + [m[i]] && c[..i + 1] == c[..i] + [c[i]];
      UnderOrBefore(m, c, i + 1);
    } else if i == |c| {
      assert c[..i] == c;
    }
  }

  lemma {:induction false} NoneIncluded(c: Selection)
    requires Count(c) == 0
    ensures forall k :: 0 <= k < |c| ==> !c[k]
  {
    if c != [] { NoneIncluded(c[..|c| - 1]); }
  }

  lemma BacktrackCovers(p: Problem, s: Search, bound: nat)
    requires |s.chosen| <= |p.values| && !s.done
    requires Covered(p, s.chosen, bound) && SubtreeCovered(p, s.chosen, bound)
    ensures var t := Backtrack(s);
            if t.done then forall m: Selection :: Full(p, m) ==> bound <= Score(p, m)
            else Covered(p, t.chosen, bound)
  {
    if Count(s.chosen) == 0 {
      NoneIncluded(s.chosen);
      forall m: Selection | Full(p, m) ensures bound <= Score(p, m) {
        UnderOrBefore(m, s.chosen, 0);
      }
    } else {
      forall m: Selection | Full(p, m) && Before(m, Flip(s.chosen)) ensures bound <= Score(p, m) {
        FlipCovers(m, s.chosen);
      }
    }
  }

  // ---------------------------------------------------------------- the pruning rules

  /** A subtree is cut only when nothing below it can beat the best score after scoring its root. */
  lemma PruneCovers(p: Problem, c: Selection, bestScore: nat)
    requires |c| <= |p.values| && 0 < p.target
    requires var sum, k := Weight(p.values, c), Count(c);
             || sum + Remaining(p.values, |c|) < p.target
             || (p.target <= sum && (k <= MAX_ASSETS ==> bestScore <= Score(p, c)))
             || (sum < p.target && (bestScore <= k || MAX_ASSETS <= k))
    ensures SubtreeCovered(p, c, bestScore)
  {
    forall m: Selection | Full(p, m) && c <= m ensures bestScore <= Score(p, m) {
      PrefixBounds(p.values, c, m);
      if Weight(p.values, c) < p.target && MAX_ASSETS <= Count(c) {
        StrictlyMore(p.values, c, m);
      }
    }
  }

  lemma {:induction false} StrictlyMore(values: seq<uint64>, c: Selection, m: Selection)
    requires c <= m && |m| <= |values| && Weight(values, c) < Weight(values, m)
    ensures Count(c) < Count(m)
    decreases |m|
  {
    assert m[..|c|] == c && m[..|m|] == m;
    if m[|m| - 1] {
      PrefixBounds(values, c, m[..|m| - 1]);
    } else {
      StrictlyMore(values, c, m[..|m| - 1]);
    }
  }

  /**
   Skipping a value equal to the one just omitted loses nothing: swapping the two gives an equal, earlier solution.
   */
  lemma SkipCovers(p: Problem, c: Selection, bestScore: nat)
    requires |c| < |p.values| && !WorthIncluding(p, c)
    requires Covered(p, c, bestScore)
    ensures Covered(p, c + [false], bestScore)
  {
    var v := |c|;
    assert !c[v - 1] && p.values[v] == p.values[v - 1];
    forall m: Selection | Full(p, m) && Before(m, c + [false]) ensures bestScore <= Score(p, m) {
      var j :| 0 <= j < v + 1 && j < |m| && m[..j] == (c + [false])[..j] && m[j] && !(c + [false])[j];
      if j < v {
        assert (c + [false])[..j] == c[..j];
        assert Before(m, c);
      } else {
        assert (c + [false])[..j] == c;
        var w := SwapBack(p, c, m);
      }
    }
  }

  /** A selection that includes a value after omitting an equal one has an equal selection before it. */
  lemma SwapBack(p: Problem, c: Selection, m: Selection) returns (w: Selection)
    requires 0 < |c| < |m| && Full(p, m) && m[..|c|] == c && m[|c|]
    requires !c[|c| - 1] && p.values[|c|] == p.values[|c| - 1]
    ensures Full(p, w) && Before(w, c) && Score(p, w) == Score(p, m)
  {
    var v := |c|;
    assert m[v - 1] == m[..v][v - 1] == c[v - 1];
    var m' := m[v - 1 := true];
    w := m'[v := false];
    Replace(p.values, m, v - 1, true);
    Replace(p.values, m', v, false);
    assert w[..v - 1] == m[..v][..v - 1] == c[..v - 1];
  }

  lemma DescendCovers(p: Problem, c: Selection, bestScore: nat)
    requires Covered(p, c, bestScore)
    ensures Covered(p, c + [true], bestScore)
  {
    forall m: Selection | Full(p, m) && Before(m, c + [true]) ensures bestScore <= Score(p, m) {
      var j :| 0 <= j < |c| + 1 && j < |m| && m[..j] == (c + [true])[..j] && m[j] && !(c + [true])[j];
      assert (c + [true])[..j] == c[..j];
      assert Before(m, c);
    }
  }

  // ---------------------------------------------------------------- the invariant over every run

  ghost predicate Inv(p: Problem, s: Search) {
    && ValidProblem(p) && |s.chosen| <= |p.values| && Count(s.chosen) <= MAX_ASSETS
    && BestIsSolution(p, s)
    && (NoWrap(p) ==>
          if s.done then forall m: Selection :: Full(p, m) ==> Bound(s) <= Score(p, m)
          else Covered(p, s.chosen, Bound(s)))
  }

  lemma NoWrapScore(p: Problem, m: Selection)
    requires |m| <= |p.values| && Count(m) <= MAX_ASSETS && NoWrap(p)
    ensures WrappedScore(p, m) == Score(p, m) <= NO_SCORE
  {
    CountAtMostLength(m);
  }

  lemma {:induction false} FlipCount(m: Selection)
    requires Count(m) > 0
    ensures Count(Flip(m)) == Count(m) - 1
  {
    if m[|m| - 1] {
      assert (m[..|m| - 1] + [false])[..|m| - 1] == m[..|m| - 1];
    } else {
      FlipCount(m[..|m| - 1]);
    }
  }

  /** Leaving a covered subtree keeps the invariant. */
  lemma BacktrackInv(p: Problem, s: Search)
    requires Inv(p, s) && !s.done && SubtreeCovered(p, s.chosen, Bound(s))
    ensures Inv(p, Backtrack(s))
  {
    if Count(s.chosen) > 0 { FlipShape(s.chosen); FlipCount(s.chosen); }
    if NoWrap(p) { BacktrackCovers(p, s, Bound(s)); }
  }

  lemma RecordInv(p: Problem, s: Search)
    requires Inv(p, s) && !s.done && p.target <= Weight(p.values, s.chosen)
    ensures var t := Record(p, s);
            && Inv(p, t) && !t.done && t.bestScore <= s.bestScore && t.best != [] && t.chosen == s.chosen
            && t.bestScore <= WrappedScore(p, s.chosen)
  {
    var t := Record(p, s);
    if NoWrap(p) {
      NoWrapScore(p, s.chosen);
      assert Bound(t) <= Bound(s);
      forall m: Selection | Full(p, m) && Before(m, t.chosen) ensures Bound(t) <= Score(p, m) {
      }
    }
  }

  lemma PerfectInv(p: Problem, s: Search)
    requires Inv(p, s) && Weight(p.values, s.chosen) == p.target && Count(s.chosen) == 1 && Improves(p, s)
    requires !s.done
    ensures Inv(p, Record(p, s).(done := true))
  {
    RecordInv(p, s);
    forall m: Selection | Full(p, m) ensures Count(m) >= 1 {
      if Count(m) == 0 { WeightOfNone(p.values, m); }
    }
  }

  lemma DescendInv(p: Problem, s: Search)
    requires Inv(p, s) && !s.done && |s.chosen| < |p.values| && Count(s.chosen) < MAX_ASSETS
    ensures Inv(p, s.(chosen := s.chosen + [WorthIncluding(p, s.chosen)]))
  {
    var c := s.chosen;
    Append(p.values, c, WorthIncluding(p, c));
    if NoWrap(p) {
      if WorthIncluding(p, c) { DescendCovers(p, c, Bound(s)); } else { SkipCovers(p, c, Bound(s)); }
    }
  }

  /** Every step keeps the invariant, and never makes the best score worse. */
  lemma StepInv(p: Problem, s: Search)
    requires Inv(p, s) && !s.done
    ensures Inv(p, Step(p, s)) && Step(p, s).bestScore <= s.bestScore
    ensures s.best != [] ==> Step(p, s).best != []
  {
    hide Covered, SubtreeCovered, Flip, Improves, Record, WorthIncluding, Remaining, Weight, Full;
    var c, sum, k := s.chosen, Weight(p.values, s.chosen), Count(s.chosen);
    if sum + Remaining(p.values, |c|) < p.target || (sum < p.target && (s.bestScore <= k || MAX_ASSETS <= k)) {
      PruneCovers(p, c, Bound(s));
      BacktrackInv(p, s);
    } else if p.target <= sum {
      RecordInv(p, s);
      if Improves(p, s) && sum == p.target && k == 1 {
        PerfectInv(p, s);
      } else {
        CountAtMostLength(c);
        PruneCovers(p, c, Bound(Record(p, s)));
        BacktrackInv(p, Record(p, s));
      }
    } else {
      NotAtEnd(p, c);
      DescendInv(p, s);
    }
  }

  lemma NotAtEnd(p: Problem, c: Selection)
    requires |c| <= |p.values|
    requires Weight(p.values, c) < p.target <= Weight(p.values, c) + Remaining(p.values, |c|)
    ensures |c| < |p.values|
  {
  }

  lemma {:induction false} WeightOfNone(values: seq<uint64>, m: Selection)
    requires |m| <= |values| && Count(m) == 0
    ensures Weight(values, m) == 0
  {
    if m != [] { WeightOfNone(values, m[..|m| - 1]); }
  }

  lemma {:induction false} RunInv(p: Problem, s: Search, attempts: nat)
    requires Inv(p, s)
    ensures Inv(p, Run(p, s, attempts)) && Run(p, s, attempts).bestScore <= s.bestScore
    ensures s.best != [] ==> Run(p, s, attempts).best != []
    decreases attempts
  {
    if attempts > 0 && !s.done {
      StepInv(p, s);
      RunInv(p, Step(p, s), attempts - 1);
    }
  }

  lemma StartInv(p: Problem)
    requires ValidProblem(p)
    ensures Inv(p, START)
  {
  }

  // ---------------------------------------------------------------- optimality

  /** A search that ends by itself returns a solution of least score, if there is any solution. */
  lemma ScoreOptimal(p: Problem, attempts: nat)
    requires ValidProblem(p) && NoWrap(p) && Run(p, START, attempts).done
    ensures LeastScore(p, Run(p, START, attempts))
  {
    RunInv(p, START, attempts);
    var s := Run(p, START, attempts);
    forall m: Selection | Full(p, m) ensures Solves(p, s.best) && Score(p, s.best) <= Score(p, m) {
      NoWrapScore(p, m);
      NoWrapScore(p, s.best);
    }
  }

  /** An exact match is returned when it needs fewer than ioRatio inputs more than any selection with change. */
  lemma ExactPreferred(p: Problem, attempts: nat, e: Selection)
    requires ValidProblem(p) && NoWrap(p) && Run(p, START, attempts).done
    requires Full(p, e) && Weight(p.values, e) == p.target
    requires forall m: Selection :: Solves(p, m) && Weight(p.values, m) != p.target ==> Count(e) < Count(m) + p.ioRatio
    ensures var best := Run(p, START, attempts).best;
            Solves(p, best) && Weight(p.values, best) == p.target && Count(best) <= Count(e)
  {
    ScoreOptimal(p, attempts);
  }

  /** And a selection with change is returned when every exact match needs more than ioRatio inputs more. */
  lemma ChangePreferred(p: Problem, attempts: nat, m: Selection)
    requires ValidProblem(p) && NoWrap(p) && Run(p, START, attempts).done
    requires Full(p, m) && Weight(p.values, m) != p.target
    requires forall e: Selection :: Solves(p, e) && Weight(p.values, e) == p.target ==> Count(m) + p.ioRatio < Count(e)
    ensures var best := Run(p, START, attempts).best; Solves(p, best) && Weight(p.values, best) != p.target
  {
    ScoreOptimal(p, attempts);
  }

  // ---------------------------------------------------------------- splitting runs

  lemma {:induction false} RunSplit(p: Problem, s: Search, a: nat, b: nat)
    requires |s.chosen| <= |p.values| && 0 < p.target
    ensures Run(p, s, a + b) == Run(p, Run(p, s, a), b)
    decreases a
  {
    if a > 0 && !s.done {
      StepShape(p, s);
      RunSplit(p, Step(p, s), a - 1, b);
    } else if a > 0 {
      assert Run(p, s, b) == s;
    }
  }

  lemma RunNext(p: Problem, attempts: nat)
    requires 0 < p.target
    ensures var s := Run(p, START, attempts);
            Run(p, START, attempts + 1) == if s.done then s else Step(p, s)
  {
    RunSplit(p, START, attempts, 1);
    var s := Run(p, START, attempts);
    if !s.done {
      StepShape(p, s);
      assert Run(p, Step(p, s), 0) == Step(p, s);
    }
  }

  /** A larger attempt budget never loses a solution and never returns a worse score. */
  lemma Anytime(p: Problem, a: nat, b: nat)
    requires ValidProblem(p) && a <= b
    ensures var s, t := Run(p, START, a), Run(p, START, b);
            && t.bestScore <= s.bestScore
            && (s.best != [] ==> t.best != [])
            && (s.best != [] && NoWrap(p) ==>
                 Solves(p, s.best) && Solves(p, t.best) && Score(p, t.best) <= Score(p, s.best))
  {
    var s, t := Run(p, START, a), Run(p, START, b);
    RunInv(p, START, a);
    RunSplit(p, START, a, b - a);
    RunInv(p, s, b - a);
    if s.best != [] && NoWrap(p) {
      NoWrapScore(p, s.best);
      NoWrapScore(p, t.best);
    }
  }

  // ---------------------------------------------------------------- termination

  /** The number of nodes at and below depth d of the walk. */
  function TreeSize(n: nat, d: nat): int
    requires d <= n
  {
    2 * Pow(2, n - d) - 1
  }

  /** The place of a prefix in the walk. */
  function Place(n: nat, c: Selection): nat
    requires |c| <= n
  {
    if c == [] then 0
    else Place(n, c[..|c| - 1]) + if c[|c| - 1] then 1 else Pow(2, n - (|c| - 1))
  }

  lemma {:induction false} PlaceInSubtree(n: nat, q: Selection, c: Selection)
    requires q <= c && |c| <= n
    ensures Place(n, q) <= Place(n, c)
    ensures Place(n, c) + TreeSize(n, |c|) <= Place(n, q) + TreeSize(n, |q|)
    decreases |c|
  {
    if |q| == |c| {
      assert q == c;
    } else {
      PlaceInSubtree(n, q, c[..|c| - 1]);
      assert Pow(2, n - (|c| - 1)) == 2 * Pow(2, n - |c|);
      PowPositive(n - |c|);
    }
  }

  lemma {:induction false} PowPositive(e: nat)
    ensures Pow(2, e) > 0
  {
    if e > 0 { PowPositive(e - 1); }
  }

  lemma FlipAdvances(n: nat, c: Selection)
    requires Count(c) > 0 && |c| <= n
    ensures |Flip(c)| <= n && Place(n, c) < Place(n, Flip(c))
  {
    FlipShape(c);
    var j := |Flip(c)| - 1;
    var q := c[..j] + [true];
    assert c[..j + 1] == c[..j] + [c[j]] && q[..j] == c[..j] && Flip(c)[..j] == c[..j];
    PlaceInSubtree(n, q, c);
    assert Pow(2, n - j) == 2 * Pow(2, n - (j + 1));
    PowPositive(n - |c|);
  }

  lemma AppendAdvances(n: nat, c: Selection, b: bool)
    requires |c| < n
    ensures Place(n, c) < Place(n, c + [b])
  {
    assert (c + [b])[..|c|] == c;
    PowPositive(n - |c|);
  }

  /** Each attempt that does not end the search moves strictly forward in the walk. */
  lemma StepAdvances(p: Problem, s: Search)
    requires |s.chosen| <= |p.values| && 0 < p.target && !s.done && !Step(p, s).done
    ensures |Step(p, s).chosen| <= |p.values|
    ensures Place(|p.values|, s.chosen) < Place(|p.values|, Step(p, s).chosen)
  {
    hide Place, Flip;
    StepShape(p, s);
    if Count(s.chosen) > 0 { FlipAdvances(|p.values|, s.chosen); }
    if |s.chosen| < |p.values| { AppendAdvances(|p.values|, s.chosen, WorthIncluding(p, s.chosen)); }
  }

  lemma {:induction false} PlaceGrows(p: Problem, s: Search, attempts: nat)
    requires |s.chosen| <= |p.values| && 0 < p.target
    ensures var n, t := |p.values|, Run(p, s, attempts); t.done || Place(n, s.chosen) + attempts <= Place(n, t.chosen)
    decreases attempts
  {
    if attempts > 0 && !s.done {
      StepShape(p, s);
      PlaceGrows(p, Step(p, s), attempts - 1);
      if !Step(p, s).done { StepAdvances(p, s); }
    }
  }

  /** 2^(n+1) - 1 attempts always exhaust the search. */
  lemma SearchTerminates(p: Problem, attempts: nat)
    requires 0 < p.target && TreeSize(|p.values|, 0) <= attempts
    ensures Run(p, START, attempts).done
  {
    var n, t := |p.values|, Run(p, START, attempts);
    PlaceGrows(p, START, attempts);
    assert t.chosen[..0] == [];
    PlaceInSubtree(n, [], t.chosen);
    PowPositive(n - |t.chosen|);
  }

  // ---------------------------------------------------------------- completeness in n + 1 attempts

  predicate Descending(values: seq<uint64>) {
    forall i, j :: 0 <= i < j < |values| ==> values[i] >= values[j]
  }

  function First(k: nat): Selection {
    Repeat(true, k)
  }

  lemma {:induction false} FirstCount(k: nat)
    ensures Count(First(k)) == k
  {
    if k > 0 {
      assert First(k)[..k - 1] == First(k - 1);
      FirstCount(k - 1);
    }
  }

  /** Among descending values no selection of k inputs outweighs the first k. */
  lemma {:induction false} FirstIsHeaviest(values: seq<uint64>, m: Selection)
    requires Descending(values) && |m| <= |values|
    ensures Count(m) <= |m| && Weight(values, m) <= Weight(values, First(Count(m)))
  {
    if m != [] {
      var q := m[..|m| - 1];
      FirstIsHeaviest(values, q);
      if m[|m| - 1] {
        assert First(Count(m))[..Count(q)] == First(Count(q));
      }
    }
  }

  /** The first descent includes every value until the target is reached. */
  lemma {:induction false} FirstDescent(p: Problem, k: nat)
    requires ValidProblem(p) && k <= |p.values| && k <= MAX_ASSETS
    requires forall i :: 0 <= i < k ==> Weight(p.values, First(i)) < p.target
    ensures Run(p, START, k) == START.(chosen := First(k))
    decreases k
  {
    if k == 0 {
      assert First(0) == [];
    } else {
      FirstDescent(p, k - 1);
      RunNext(p, k - 1);
      FirstCount(k - 1);
      PrefixBounds(p.values, [], First(k - 1));
      TotalSplits(p.values, First(k - 1));
      assert First(k - 1) + [true] == First(k);
    }
  }

  lemma {:induction false} TotalSplits(values: seq<uint64>, m: Selection)
    requires |m| <= |values| && m == First(|m|)
    ensures Weight(values, m) + Remaining(values, |m|) == Remaining(values, 0)
    decreases |m|
  {
    if m != [] {
      assert m[..|m| - 1] == First(|m| - 1);
      TotalSplits(values, m[..|m| - 1]);
    }
  }

  lemma {:induction false} LeastReaching(values: seq<uint64>, target: nat, k: nat) returns (i: nat)
    requires k <= |values| && target <= Weight(values, First(k))
    ensures i <= k && target <= Weight(values, First(i))
    ensures forall j :: 0 <= j < i ==> Weight(values, First(j)) < target
    decreases k
  {
    if k > 0 && target <= Weight(values, First(k - 1)) {
      i := LeastReaching(values, target, k - 1);
    } else {
      i := k;
      forall j | 0 <= j < k ensures Weight(values, First(j)) < target {
        assert First(j) <= First(k - 1);
        PrefixBounds(values, First(j), First(k - 1));
      }
    }
  }

  /** Whenever the first min(n, 256) values reach the target, n + 1 attempts find something. */
  lemma FoundEarly(p: Problem, attempts: nat)
    requires ValidProblem(p) && |p.values| + 1 <= attempts
    requires p.target <= Weight(p.values, First(Min(|p.values|, MAX_ASSETS)))
    ensures Run(p, START, attempts).best != []
  {
    var k := LeastReaching(p.values, p.target, Min(|p.values|, MAX_ASSETS));
    FirstDescent(p, k);
    RunNext(p, k);
    FirstCount(k);
    Anytime(p, k + 1, attempts);
  }

  /**
   For descending values and any allowed budget: something is found exactly when the largest min(n, 256) values
   suffice.
   */
  lemma CompleteInNPlusOne(p: Problem, attempts: nat)
    requires ValidProblem(p) && Descending(p.values) && |p.values| + 1 <= attempts
    ensures Run(p, START, attempts).best != [] <==>
            p.target <= Weight(p.values, First(Min(|p.values|, 256)))
  {
    if p.target <= Weight(p.values, First(Min(|p.values|, MAX_ASSETS))) {
      FoundEarly(p, attempts);
    } else {
      RunInv(p, START, attempts);
      var best := Run(p, START, attempts).best;
      if best != [] {
        FirstIsHeaviest(p.values, best);
        var k := Min(|p.values|, MAX_ASSETS);
        assert First(Count(best)) <= First(k);
        PrefixBounds(p.values, First(Count(best)), First(k));
      }
    }
  }

  lemma {:induction false} OnesRemain(n: nat, i: nat)
    requires i <= n
    ensures Remaining(Repeat(1, n), i) == n - i
    decreases n - i
  {
    if i < n { OnesRemain(n, i + 1); }
  }

  lemma {:induction false} OnesWeigh(n: nat, k: nat)
    requires k <= n
    ensures Weight(Repeat(1, n), First(k)) == k
  {
    if k > 0 {
      OnesWeigh(n, k - 1);
      assert First(k)[..k - 1] == First(k - 1);
    }
  }

  /** More than 256 values that are all needed: they reach the target, and nothing is found whatever the attempts. */
  lemma TooManyNeeded(n: nat, io: uint32, attempts: nat)
    requires 256 < n < TWO_32 && 0 < io && n + 1 <= attempts
    ensures var p := Problem(Repeat(1, n), n, io);
            && ValidProblem(p) && Descending(p.values) && Remaining(p.values, 0) == p.target
            && Run(p, START, attempts).best == []
  {
    hide Run, Weight, Remaining;
    var p := Problem(Repeat(1, n), n, io);
    OnesRemain(n, 0);
    OnesWeigh(n, MAX_ASSETS);
    CompleteInNPlusOne(p, attempts);
  }

  // ---------------------------------------------------------------- the 32-bit score

  /** For this ratio every search over descending values that ends by itself is score-optimal. */
  ghost predicate AlwaysOptimal(io: uint32) {
    forall p: Problem, attempts: nat ::
      ValidProblem(p) && Descending(p.values) && p.ioRatio == io && Run(p, START, attempts).done
      ==> LeastScore(p, Run(p, START, attempts))
  }

  /** 2^32 - io coins of value 2 and one of value 1: the first change-making selection scores 0 after wrapping. */
  function WrapProblem(io: uint32): Problem
    requires TWO_32 - MAX_ASSETS <= io
  {
    var k := TWO_32 - io;
    Problem(Repeat(2, k) + [1], 2 * k - 1, io)
  }

  lemma {:induction false} FirstWeighs(k: nat, i: nat)
    requires i <= k
    ensures Weight(Repeat(2, k) + [1], First(i)) == 2 * i
    decreases i
  {
    if i > 0 {
      assert First(i)[..i - 1] == First(i - 1);
      FirstWeighs(k, i - 1);
    }
  }

  lemma WrapProblemShape(io: uint32)
    requires TWO_32 - MAX_ASSETS <= io
    ensures var p, k := WrapProblem(io), TWO_32 - io;
            && ValidProblem(p) && Descending(p.values) && p.target == 2 * k - 1 && p.ioRatio == io
            && |p.values| == k + 1
            && Weight(p.values, First(k)) == 2 * k && Count(First(k)) == k
            && forall i :: 0 <= i < k ==> Weight(p.values, First(i)) < p.target
  {
    var p, k := WrapProblem(io), TWO_32 - io;
    FirstWeighs(k, k);
    FirstCount(k);
    TotalSplits(p.values, First(k));
    assert Remaining(p.values, k + 1) == 0;
    assert Remaining(p.values, k) == 1;
    forall i | 0 <= i < k ensures Weight(p.values, First(i)) < p.target { FirstWeighs(k, i); }
  }

  /** The exact match it misses: all but one of the twos, and the one. */
  lemma WrapProblemExact(io: uint32)
    requires TWO_32 - MAX_ASSETS <= io
    ensures var p, k := WrapProblem(io), TWO_32 - io;
            var e := First(k - 1) + [false] + [true];
            Full(p, e) && Score(p, e) == k
  {
    var p, k := WrapProblem(io), TWO_32 - io;
    Append(p.values, First(k - 1), false);
    Append(p.values, First(k - 1) + [false], true);
    FirstWeighs(k, k - 1);
    FirstCount(k - 1);
  }

  lemma WrapScoreZero(io: uint32)
    requires TWO_32 - MAX_ASSETS <= io
    ensures ValidProblem(WrapProblem(io))
    ensures var s := Run(WrapProblem(io), START, TWO_32 - io + 1);
            s.bestScore == 0 && s.best != []
  {
    hide Run, Step, WrapProblem;
    var p, k := WrapProblem(io), TWO_32 - io;
    WrapProblemShape(io);
    FirstDescent(p, k);
    RunNext(p, k);
    FirstKept(p, START.(chosen := First(k)));
  }

  /** The first selection that reaches the target is kept. */
  lemma FirstKept(p: Problem, s: Search)
    requires |s.chosen| <= |p.values| && 0 < p.target <= Weight(p.values, s.chosen)
    requires s.bestScore == NO_SCORE && s.bestSum == 0
    ensures Step(p, s).best == s.chosen && Step(p, s).bestScore == WrappedScore(p, s.chosen)
  {
  }

  lemma WrapBreaksOptimality(io: uint32, attempts: nat)
    requires io + 256 >= 0x1_0000_0000 && |WrapProblem(io).values| + 1 <= attempts
    ensures ValidProblem(WrapProblem(io)) && Descending(WrapProblem(io).values)
    ensures !LeastScore(WrapProblem(io), Run(WrapProblem(io), START, attempts))
  {
    var p, k := WrapProblem(io), TWO_32 - io;
    WrapProblemShape(io);
    WrapScoreZero(io);
    Anytime(p, k + 1, attempts);
    RunInv(p, START, attempts);
    WrapProblemExact(io);
    var e := First(k - 1) + [false] + [true];
    var best := Run(p, START, attempts).best;
    if LeastScore(p, Run(p, START, attempts)) {
      assert Score(p, best) <= k < TWO_32;
      assert Score(p, best) == 0;
      WeightOfNone(p.values, best);
    }
  }

  /** The search is score-optimal for exactly the ratios that leave room for 256 inputs in 32 bits. */
  lemma OptimalIffNoWrap(io: uint32)
    requires 0 < io
    ensures AlwaysOptimal(io) <==> io + 256 < 0x1_0000_0000
  {
    if io + MAX_ASSETS < TWO_32 {
      forall p: Problem, attempts: nat |
        ValidProblem(p) && Descending(p.values) && p.ioRatio == io && Run(p, START, attempts).done
        ensures LeastScore(p, Run(p, START, attempts))
      {
        ScoreOptimal(p, attempts);
      }
    } else {
      var p := WrapProblem(io);
      var attempts := TreeSize(|p.values|, 0) + |p.values| + 1;
      PowPositive(|p.values|);
      WrapBreaksOptimality(io, attempts);
      SearchTerminates(p, attempts);
    }
  }

  // ---------------------------------------------------------------- one attempt

  /** The indices of a selection are those of its inputs, in ascending order. */
  lemma {:induction false} IndicesMean(m: Selection)
    ensures forall i: nat :: i in Indices(m) <==> i < |m| && m[i]
    ensures forall j, k :: 0 <= j < k < |Indices(m)| ==> Indices(m)[j] < Indices(m)[k]
  {
    if m != [] {
      var q := m[..|m| - 1];
      IndicesMean(q);
      assert forall k :: 0 <= k < |Indices(q)| ==> Indices(q)[k] < |q|;
    }
  }

  /** Whether an exact match of one input is better than what was kept. */
  predicate Beats(p: Problem, s: Search) {
    s.bestScore > 1 || (s.bestScore == 1 && s.bestSum != p.target)
  }

  /**
   An attempt goes one value further exactly if the inputs chosen do not reach the target, can still reach it, and
   are fewer than 256 and than the best score; it ends the search exactly if it goes no further with no input chosen,
   or with a single one that is an exact match and better than what was kept.
   */
  lemma StepExact(p: Problem, s: Search)
    requires |s.chosen| <= |p.values| && 0 < p.target && !s.done
    ensures var t, c := Step(p, s), s.chosen;
            var sum, k := Weight(p.values, c), Count(c);
            var further := sum < p.target <= sum + Remaining(p.values, |c|) && k < s.bestScore && k < 256;
            && (|c| < |t.chosen| <==> further)
            && (further ==> |c| < |p.values| && t.chosen[..|c|] == c && |t.chosen| == |c| + 1 && !t.done)
            && (t.done <==> !further && (k == 0 || (k == 1 && sum == p.target && Beats(p, s))))
  {
    if Count(s.chosen) > 0 { FlipShape(s.chosen); }
  }

  /** Going further includes the next value, unless it equals one that was just omitted behind an input. */
  lemma StepIncludes(p: Problem, s: Search)
    requires |s.chosen| < |p.values| && 0 < p.target && !s.done && |s.chosen| < |Step(p, s).chosen|
    ensures var c := s.chosen;
            Step(p, s).chosen[|c|] <==> Count(c) == 0 || c[|c| - 1] || p.values[|c|] != p.values[|c| - 1]
  {
    if Count(s.chosen) > 0 { FlipShape(s.chosen); }
  }
}
