/**
 The coin search of src/coins.c with its sums in 64-bit arithmetic. Totals below 2^64 make it the
 plain walk; beyond that sums wrap around, and still every selection found reaches the target.
 */
module CoinSums {
  import opened Common
  import opened CoinSelection
  import opened CoinOptimality

  function Wrap(x: int): uint64 {
    x % TWO_64
  }

  /** What the values of a selection add up to in a register. */
  function Sum64(p: Problem, m: Selection): uint64
    requires |m| <= |p.values|
  {
    Wrap(Weight(p.values, m))
  }

  function Remaining64(p: Problem, i: nat): uint64
    requires i <= |p.values|
  {
    Wrap(Remaining(p.values, i))
  }

  function Score64(p: Problem, m: Selection): uint32
    requires |m| <= |p.values|
  {
    (Count(m) + if Sum64(p, m) == p.target then 0 else p.ioRatio) % TWO_32
  }

  predicate Improves64(p: Problem, s: Search)
    requires |s.chosen| <= |p.values|
  {
    var score, sum := Score64(p, s.chosen), Sum64(p, s.chosen);
    || score < s.bestScore
    || (score == s.bestScore && (sum > s.bestSum || (sum == p.target && s.bestSum != p.target)))
  }

  function Record64(p: Problem, s: Search): Search
    requires |s.chosen| <= |p.values|
  {
    if Improves64(p, s)
    then s.(bestScore := Score64(p, s.chosen), bestSum := Sum64(p, s.chosen), best := s.chosen)
    else s
  }

  function Step64(p: Problem, s: Search): (t: Search)
    requires |s.chosen| <= |p.values| && 0 < p.target
  {
    var sum, k := Sum64(p, s.chosen), Count(s.chosen);
    if Wrap(sum + Remaining64(p, |s.chosen|)) < p.target then Backtrack(s)
    else if p.target <= sum then
      if Improves64(p, s) && sum == p.target && k == 1 then Record64(p, s).(done := true)
      else Backtrack(Record64(p, s))
    else if s.bestScore <= k || MAX_ASSETS <= k then Backtrack(s)
    else
      assert |s.chosen| < |p.values|;
      s.(chosen := s.chosen + [WorthIncluding(p, s.chosen)])
  }

  function Run64(p: Problem, s: Search, attempts: nat): (t: Search)
    requires |s.chosen| <= |p.values| && 0 < p.target
    ensures |t.chosen| <= |p.values|
    decreases attempts
  {
    if attempts == 0 || s.done then s
    else
      Step64Shape(p, s);
      Run64(p, Step64(p, s), attempts - 1)
  }

  lemma Step64Shape(p: Problem, s: Search)
    requires |s.chosen| <= |p.values| && 0 < p.target
    ensures |Step64(p, s).chosen| <= |p.values|
  {
    if Count(s.chosen) > 0 { FlipShape(s.chosen); }
  }

  lemma {:induction false} Run64Split(p: Problem, s: Search, a: nat, b: nat)
    requires |s.chosen| <= |p.values| && 0 < p.target
    ensures Run64(p, s, a + b) == Run64(p, Run64(p, s, a), b)
    decreases a
  {
    if a > 0 && !s.done {
      Step64Shape(p, s);
      Run64Split(p, Step64(p, s), a - 1, b);
    } else if a > 0 {
      assert Run64(p, s, b) == s;
    }
  }

  lemma Run64Next(p: Problem, attempts: nat)
    requires 0 < p.target
    ensures var s := Run64(p, START, attempts);
            Run64(p, START, attempts + 1) == if s.done then s else Step64(p, s)
  {
    Run64Split(p, START, attempts, 1);
    var s := Run64(p, START, attempts);
    if !s.done {
      Step64Shape(p, s);
      assert Run64(p, Step64(p, s), 0) == Step64(p, s);
    }
  }

  // ---------------------------------------------------------------- totals below 2^64

  lemma {:induction false} WeightFits(values: seq<uint64>, m: Selection)
    requires |m| <= |values|
    ensures Weight(values, m) + Remaining(values, |m|) <= Remaining(values, 0)
  {
    if m != [] { WeightFits(values, m[..|m| - 1]); }
  }

  lemma SmallWrap(x: nat)
    requires x < TWO_64
    ensures Wrap(x) == x
  {
  }

  lemma StepIsPlain(p: Problem, s: Search)
    requires |s.chosen| <= |p.values| && 0 < p.target && Remaining(p.values, 0) < TWO_64
    ensures Step64(p, s) == Step(p, s)
  {
    hide Wrap, Weight, Remaining, Backtrack, WorthIncluding;
    var c := s.chosen;
    WeightFits(p.values, c);
    SmallWrap(Weight(p.values, c));
    SmallWrap(Remaining(p.values, |c|));
    SmallWrap(Weight(p.values, c) + Remaining(p.values, |c|));
  }

  /** When the values add up to less than 2^64 the search is the plain walk. */
  lemma {:induction false} RunIsPlain(p: Problem, s: Search, attempts: nat)
    requires |s.chosen| <= |p.values| && 0 < p.target && Remaining(p.values, 0) < TWO_64
    ensures Run64(p, s, attempts) == Run(p, s, attempts)
    decreases attempts
  {
    hide Step, Step64;
    if attempts > 0 && !s.done {
      StepIsPlain(p, s);
      StepShape(p, s);
      RunIsPlain(p, Step(p, s), attempts - 1);
    }
  }

  // ---------------------------------------------------------------- any totals

  /** Bounded inputs, a best selection that really reaches the target, and scores and sums of their width. */
  ghost predicate Inv64(p: Problem, s: Search) {
    && |s.chosen| <= |p.values| && Count(s.chosen) <= MAX_ASSETS
    && (s.best == [] || (Solves(p, s.best) && Count(s.best) > 0))
    && s.bestScore < TWO_32 && s.bestSum < TWO_64
  }

  lemma {:induction false} CountFlip(m: Selection) returns (n: nat)
    requires Count(m) > 0
    ensures n == Count(Flip(m)) && n + 1 == Count(m)
  {
    if m[|m| - 1] {
      assert (m[..|m| - 1] + [false])[..|m| - 1] == m[..|m| - 1];
      n := Count(m) - 1;
    } else {
      n := CountFlip(m[..|m| - 1]);
    }
  }

  /** A wrapped sum is never more than the sum itself. */
  lemma ReachedSolves(p: Problem, m: Selection)
    requires |m| <= |p.values| && 0 < p.target <= Sum64(p, m) && Count(m) <= MAX_ASSETS
    ensures Solves(p, m) && Count(m) > 0 && m != []
  {
    if Count(m) == 0 { WeightOfNone(p.values, m); }
  }

  lemma BacktrackInv64(p: Problem, s: Search)
    requires Inv64(p, s)
    ensures Inv64(p, Backtrack(s))
  {
    hide Solves;
    if Count(s.chosen) > 0 {
      FlipShape(s.chosen);
      var n := CountFlip(s.chosen);
    }
  }

  lemma RecordInv64(p: Problem, s: Search)
    requires Inv64(p, s) && 0 < p.target <= Sum64(p, s.chosen)
    ensures Inv64(p, Record64(p, s))
  {
    hide Solves, Sum64;
    ReachedSolves(p, s.chosen);
  }

  lemma Step64Inv(p: Problem, s: Search)
    requires Inv64(p, s) && 0 < p.target
    ensures Inv64(p, Step64(p, s))
  {
    hide Solves, Sum64, Improves64, Record64, Backtrack, WorthIncluding;
    BacktrackInv64(p, s);
    if p.target <= Sum64(p, s.chosen) {
      RecordInv64(p, s);
      BacktrackInv64(p, Record64(p, s));
    } else if |s.chosen| < |p.values| {
      Append(p.values, s.chosen, WorthIncluding(p, s.chosen));
    }
  }

  lemma {:induction false} Run64Inv(p: Problem, s: Search, attempts: nat)
    requires Inv64(p, s) && 0 < p.target
    ensures Inv64(p, Run64(p, s, attempts))
    decreases attempts
  {
    hide Step64, Solves;
    if attempts > 0 && !s.done {
      Step64Shape(p, s);
      Step64Inv(p, s);
      Run64Inv(p, Step64(p, s), attempts - 1);
    }
  }

  /** Whatever wraps around, a selection that is found has at most 256 inputs and reaches the target. */
  lemma FoundReaches(p: Problem, attempts: nat)
    requires 0 < p.target
    ensures var best := Run64(p, START, attempts).best;
            best == [] || (|best| <= |p.values| && p.target <= Weight(p.values, best) && Count(best) <= 256)
  {
    Run64Inv(p, START, attempts);
  }

  /** Two values whose total wraps around to nothing are taken to be insufficient for what either of them reaches. */
  lemma WrappedTotal(target: uint64, ioRatio: uint32)
    requires 0 < target <= 0x8000_0000_0000_0000
    ensures var p := Problem([0x8000_0000_0000_0000, 0x8000_0000_0000_0000], target, ioRatio);
            Remaining64(p, 0) < target && Descending(p.values) && Solves(p, [true])
  {
    var values: seq<uint64> := [0x8000_0000_0000_0000, 0x8000_0000_0000_0000];
    assert Remaining(values, 1) == values[1] + Remaining(values, 2);
    assert Remaining(values, 0) == values[0] + Remaining(values, 1);
    assert Weight(values, [true]) == Weight(values, []) + values[0];
    assert Count([true]) == Count([]) + 1;
  }
}
