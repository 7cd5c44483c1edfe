/** An exact match does not win a tie: one concrete search, step by step. */
module CoinTies {
  import opened Common
  import opened CoinSelection
  import opened CoinOptimality

  /** Inputs 10, 3 and 2 are an exact match; 9 and 8 need a change output, which costs as much as the third input. */
  const TIE := Problem([10, 9, 8, 3, 2], 15, 1)

  /** The values left after the first n. */
  function Left(n: nat): nat
    requires n <= 5
  {
    [32, 22, 13, 5, 2, 0][n]
  }

  lemma LeftIsRemaining(n: nat)
    requires n <= 5
    ensures |TIE.values| == 5 && Remaining(TIE.values, n) == Left(n)
    decreases 5 - n
  {
    if n < 5 { LeftIsRemaining(n + 1); }
  }

  /** The prefix adds up to w with k inputs. */
  ghost predicate Adds(c: Selection, w: nat, k: nat) {
    |c| <= 5 && Weight(TIE.values, c) == w && Count(c) == k
  }

  lemma NothingAdds()
    ensures Adds([], 0, 0)
  {
  }

  lemma Next(c: Selection, w: nat, k: nat, b: bool)
    requires Adds(c, w, k) && |c| < 5
    ensures Adds(c + [b], if b then w + TIE.values[|c|] else w, if b then k + 1 else k)
  {
    Append(TIE.values, c, b);
  }

  lemma FlipLast(c: Selection)
    ensures Count(c + [true]) > 0 && Flip(c + [true]) == c + [false]
  {
    assert (c + [true])[..|c|] == c;
  }

  lemma FlipPast(c: Selection)
    requires Count(c) > 0
    ensures Count(c + [false]) > 0 && Flip(c + [false]) == Flip(c)
  {
    assert (c + [false])[..|c|] == c;
  }

  function At(c: Selection, bestSum: nat, best: Selection): Search {
    Search(c, if best == [] then NO_SCORE else 3, bestSum, best, false)
  }

  /** Below the target with enough left: the next value is included. */
  lemma Include(c: Selection, w: nat, k: nat, bestSum: nat, best: Selection)
    requires Adds(c, w, k) && |c| < 5 && w < 15 <= w + Left(|c|) && k < 3
    ensures Step(TIE, At(c, bestSum, best)) == At(c + [true], bestSum, best)
    ensures Adds(c + [true], w + TIE.values[|c|], k + 1)
  {
    LeftIsRemaining(|c|);
    Next(c, w, k, true);
    assert WorthIncluding(TIE, c) by {
      if |c| == 0 { assert Count([]) == 0; }
    }
  }

  /** Too little left: back to the last input. */
  lemma Reject(c: Selection, w: nat, k: nat, bestSum: nat, best: Selection)
    requires Adds(c, w, k) && w + Left(|c|) < 15
    ensures var s := At(c, bestSum, best);
            Step(TIE, s) == if k == 0 then s.(done := true) else At(Flip(c), bestSum, best)
  {
    LeftIsRemaining(|c|);
  }

  /** The target is reached with a score of 3: recorded for a larger sum, or as the first exact match. */
  lemma Reach(c: Selection, w: nat, k: nat, bestSum: nat, best: Selection)
    requires Adds(c, w, k) && w >= 15 && k == (if w == 15 then 3 else 2) && c != []
    ensures var better := best == [] || w > bestSum || (w == 15 && bestSum != 15);
            Step(TIE, At(c, bestSum, best)) == if better then At(Flip(c), w, c) else At(Flip(c), bestSum, best)
  {
    LeftIsRemaining(|c|);
  }

  lemma RunOne(s: Search, t: Search, n: nat)
    requires |s.chosen| <= 5 && |t.chosen| <= 5 && !s.done && n > 0 && Step(TIE, s) == t
    ensures Run(TIE, s, n) == Run(TIE, t, n - 1)
  {
  }

  /** 10 and 9 are found first. */
  lemma FirstFound(n: nat)
    requires n >= 3
    ensures var t := [] + [true]; var tt := t + [true];
            Adds(t, 10, 1) && Run(TIE, START, n) == Run(TIE, At(t + [false], 19, tt), n - 3)
  {
    hide Step, Adds, Flip, Run;
    var t: Selection := [] + [true];
    NothingAdds();
    Include([], 0, 0, 0, []);
    RunOne(START, At(t, 0, []), n);
    Include(t, 10, 1, 0, []);
    RunOne(At(t, 0, []), At(t + [true], 0, []), n - 1);
    Reach(t + [true], 19, 2, 0, []);
    FlipLast(t);
    RunOne(At(t + [true], 0, []), At(t + [false], 19, t + [true]), n - 2);
  }

  /** Then 10 and 8, which are not kept, and 10, 3 and 2, the exact match, which are. */
  lemma ExactFound(t: Selection, best: Selection, n: nat)
    requires n >= 5 && |t| == 1 && Adds(t, 10, 1) && best != []
    ensures var tff := t + [false] + [false]; var e := tff + [true] + [true];
            && Adds(tff, 10, 1)
            && Run(TIE, At(t + [false], 19, best), n) == Run(TIE, At(tff + [true] + [false], 15, e), n - 5)
  {
    hide Step, Adds, Flip, Run;
    var tf := t + [false];
    var tff := tf + [false];
    var tfft := tff + [true];
    Next(t, 10, 1, false);
    Include(tf, 10, 1, 19, best);
    RunOne(At(tf, 19, best), At(tf + [true], 19, best), n);
    Reach(tf + [true], 18, 2, 19, best);
    FlipLast(tf);
    RunOne(At(tf + [true], 19, best), At(tff, 19, best), n - 1);
    Next(tf, 10, 1, false);
    Include(tff, 10, 1, 19, best);
    RunOne(At(tff, 19, best), At(tfft, 19, best), n - 2);
    Include(tfft, 13, 2, 19, best);
    RunOne(At(tfft, 19, best), At(tfft + [true], 19, best), n - 3);
    Reach(tfft + [true], 15, 3, 19, best);
    FlipLast(tfft);
    RunOne(At(tfft + [true], 19, best), At(tfft + [false], 15, tfft + [true]), n - 4);
  }

  /** No more with 10. */
  lemma TenDone(t: Selection, e: Selection, n: nat)
    requires n >= 2 && t == [] + [true] && Adds(t + [false] + [false], 10, 1) && e != []
    ensures Run(TIE, At(t + [false] + [false] + [true] + [false], 15, e), n) == Run(TIE, At([] + [false], 15, e), n - 2)
  {
    hide Step, Flip, Run;
    var tf := t + [false];
    var tff := tf + [false];
    var tfft := tff + [true];
    Next(tff, 10, 1, true);
    Next(tfft, 13, 2, false);
    Reject(tfft + [false], 13, 2, 15, e);
    FlipPast(tfft);
    FlipLast(tff);
    RunOne(At(tfft + [false], 15, e), At(tff + [false], 15, e), n);
    Next(tff, 10, 1, false);
    Reject(tff + [false], 10, 1, 15, e);
    Next(t, 10, 1, false);
    FlipPast(tff);
    FlipPast(tf);
    FlipPast(t);
    FlipLast([]);
    RunOne(At(tff + [false], 15, e), At([] + [false], 15, e), n - 1);
  }

  /** 9 and 8 replace the exact match, and nothing replaces them. */
  lemma ExactReplaced(e: Selection, n: nat)
    requires n >= 5 && e != []
    ensures var best := [] + [false] + [true] + [true];
            Run(TIE, At([] + [false], 15, e), n) == At([] + [false] + [false], 17, best).(done := true)
            && Adds(best, 17, 2)
  {
    hide Step, Flip, Run;
    var f: Selection := [] + [false];
    var ft := f + [true];
    NothingAdds();
    Next([], 0, 0, false);
    Include(f, 0, 0, 15, e);
    RunOne(At(f, 15, e), At(ft, 15, e), n);
    Include(ft, 9, 1, 15, e);
    RunOne(At(ft, 15, e), At(ft + [true], 15, e), n - 1);
    Reach(ft + [true], 17, 2, 15, e);
    FlipLast(ft);
    var best := ft + [true];
    RunOne(At(ft + [true], 15, e), At(ft + [false], 17, best), n - 2);
    Next(ft, 9, 1, false);
    Reject(ft + [false], 9, 1, 17, best);
    FlipPast(ft);
    FlipLast(f);
    RunOne(At(ft + [false], 17, best), At(f + [false], 17, best), n - 3);
    Next(f, 0, 0, false);
    Reject(f + [false], 0, 0, 17, best);
    var end := At(f + [false], 17, best).(done := true);
    RunOne(At(f + [false], 17, best), end, n - 4);
    RunDone(end, n - 5);
  }

  lemma RunDone(s: Search, n: nat)
    requires |s.chosen| <= 5 && s.done
    ensures Run(TIE, s, n) == s
  {
  }

  /**
   With the exact match of three inputs and two inputs with change costing the same, the complete search answers
   the latter: up to ioRatio more inputs do not make an exact match preferred, only fewer do. And 10 and 9, which
   cost the same too, are given up although their change is larger.
   */
  lemma ExactLosesTie(attempts: nat)
    requires attempts >= 15
    ensures ValidProblem(TIE) && NoWrap(TIE) && Descending(TIE.values)
    ensures var s := Run(TIE, START, attempts);
            var exact := [] + [true] + [false] + [false] + [true] + [true];
            && s.done && |s.best| == 3 && Weight(TIE.values, s.best) == 17 && Count(s.best) == 2
            && Weight(TIE.values, exact) == TIE.target && Count(exact) == Count(s.best) + TIE.ioRatio
    ensures var larger := [] + [true] + [true]; Weight(TIE.values, larger) == 19 && Count(larger) == 2
  {
    hide Step, Flip, Run, Weight, Count;
    var t: Selection := [] + [true];
    var tff := t + [false] + [false];
    var e := tff + [true] + [true];
    FirstFound(attempts);
    ExactFound(t, t + [true], attempts - 3);
    TenDone(t, e, attempts - 8);
    ExactReplaced(e, attempts - 10);
    LeftIsRemaining(0);
    Next(tff, 10, 1, true);
    Next(tff + [true], 13, 2, true);
    Next(t, 10, 1, true);
  }
}
