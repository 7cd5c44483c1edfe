/**
 wally_coinselect_assets of src/coins.c: the search loop over an index stack, proved to follow `CoinSums.Run64`, and
 so `CoinSelection.Run` when the values add up to less than 2^64.
 */
module CoinSelectAssets {
  import opened Common
  import opened CoinSelection
  import opened CoinOptimality
  import opened CoinSums

  datatype ValueRemaining = ValueRemaining(remaining: uint64, value: uint64)

  /** What the index stack holds for a prefix: the included indices below v, the last one on top. */
  lemma {:induction false} TopOfStack(m: Selection)
    requires Count(m) > 0
    ensures var r, j := Indices(m), |Flip(m)| - 1;
            && 0 <= j < |m| && r[|r| - 1] == j && r[..|r| - 1] == Indices(m[..j]) == Indices(Flip(m))
    ensures m[|m| - 1] <==> Indices(m)[Count(m) - 1] == |m| - 1
  {
    hide Flip, Count;
    FlipShape(m);
    var q, last := m[..|m| - 1], m[|m| - 1];
    assert m == q + [last];
    LastIndex(q, last);
    if last {
      FlipLast(q);
    } else {
      OmitLast(q);
      TopOfStack(q);
      assert m[..|Flip(q)| - 1] == q[..|Flip(q)| - 1];
    }
  }

  lemma LastIndex(q: Selection, last: bool)
    ensures Indices(q + [last]) == Indices(q) + (if last then [|q|] else [])
    ensures Count(q + [last]) == Count(q) + if last then 1 else 0
  {
    assert (q + [last])[..|q|] == q;
  }

  lemma FlipLast(q: Selection)
    ensures Count(q + [true]) > 0 && Flip(q + [true]) == q + [false] && Indices(q + [false]) == Indices(q)
  {
    LastIndex(q, true);
    LastIndex(q, false);
    assert (q + [true])[..|q|] == q;
  }

  lemma OmitLast(q: Selection)
    requires Count(q) > 0
    ensures Count(q + [false]) > 0 && Flip(q + [false]) == Flip(q)
  {
    assert (q + [false])[..|q|] == q;
  }

  lemma {:induction false} FlipWeight(values: seq<uint64>, m: Selection)
    requires Count(m) > 0 && |m| <= |values|
    ensures 0 < |Flip(m)| <= |m| && |Flip(m)| <= |values|
    ensures Weight(values, Flip(m)) == Weight(values, m) - values[|Flip(m)| - 1]
  {
    FlipShape(m);
    if m[|m| - 1] {
      Append(values, m[..|m| - 1], false);
    } else {
      FlipWeight(values, m[..|m| - 1]);
    }
  }

  /** Register arithmetic follows the plain sums. */
  lemma WrapAdds(a: nat, b: nat)
    ensures Wrap(Wrap(a) + b) == Wrap(a + b)
  {
  }

  lemma WrapTakes(a: nat, b: nat)
    ensures Wrap(Wrap(a + b) - b) == Wrap(a)
  {
  }

  /** vr[i].remaining is what values i and up add up to, with a zero sentinel at the end. */
  ghost predicate VrValid(p: Problem, vr: seq<ValueRemaining>) {
    && |vr| == |p.values| + 1
    && (forall i :: 0 <= i <= |p.values| ==> vr[i].remaining == Remaining64(p, i))
    && (forall i :: 0 <= i < |p.values| ==> vr[i].value == p.values[i])
  }

  method SuffixSums(p: Problem, total: uint64) returns (vr: array<ValueRemaining>)
    requires total == Remaining64(p, 0)
    ensures fresh(vr) && VrValid(p, vr[..])
  {
    hide Wrap;
    vr := new ValueRemaining[|p.values| + 1];
    var remaining, i := total, 0;
    while i < |p.values|
      invariant 0 <= i <= |p.values| && remaining == Remaining64(p, i)
      invariant forall k :: 0 <= k < i ==> vr[k].remaining == Remaining64(p, k) && vr[k].value == p.values[k]
    {
      vr[i] := ValueRemaining(remaining, p.values[i]);
      WrapTakes(Remaining(p.values, i + 1), p.values[i]);
      remaining := Wrap(remaining as int - p.values[i]);
      i := i + 1;
    }
    SmallWrap(0);
    vr[i] := ValueRemaining(0, 0);
  }

  method Total(values: seq<uint64>) returns (total: uint64)
    ensures total == Wrap(Remaining(values, 0))
  {
    hide Wrap;
    total := 0;
    var i := 0;
    ghost var sum: nat := 0;
    SmallWrap(0);
    while i < |values|
      invariant 0 <= i <= |values| && sum + Remaining(values, i) == Remaining(values, 0) && total == Wrap(sum)
    {
      WrapAdds(sum, values[i]);
      total := Wrap(total + values[i]);
      sum := sum + values[i];
      i := i + 1;
    }
  }

  /**
   The search. Everything the caller can observe is fixed by the walk in 64-bit arithmetic: the written indices are
   those of the best selection it keeps with this budget. When the values add up to less than 2^64 that is the plain
   walk, and for descending values nothing is written exactly when no 256 values suffice.
   */
  method CoinselectAssets(values: seq<uint64>, target: uint64, attempts: uint64, ioRatio: uint32,
                          indicesOut: array<uint32>) returns (ret: Status, written: nat)
    requires |values| < TWO_32
    modifies indicesOut
    ensures ret == if || values == [] || target == 0 || attempts < |values| + 1 || ioRatio == 0
                      || (indicesOut.Length < |values| && indicesOut.Length < 256)
                   then Einval else Ok
    ensures ret == Einval || Wrap(Remaining(values, 0)) < target ==>
              written == 0 && indicesOut[..] == old(indicesOut[..])
    ensures ret == Ok && target <= Wrap(Remaining(values, 0)) ==>
              && written <= Min(|values|, 256) <= indicesOut.Length
              && indicesOut[..written] == Indices(Run64(Problem(values, target, ioRatio), START, attempts).best)
              && forall k :: Min(|values|, 256) <= k < indicesOut.Length ==> indicesOut[k] == old(indicesOut[k])
    ensures ret == Ok && target <= Remaining(values, 0) < TWO_64 ==>
              && written <= indicesOut.Length
              && indicesOut[..written] == Indices(Run(Problem(values, target, ioRatio), START, attempts).best)
    ensures ret == Ok && Descending(values) && Remaining(values, 0) < TWO_64 ==>
              (written != 0 <==> target <= Weight(values, First(Min(|values|, 256))))
  {
    hide Wrap, Weight;
    written := 0;
    if || values == [] || target == 0 || attempts < |values| + 1 || ioRatio == 0
       || (indicesOut.Length < |values| && indicesOut.Length < MAX_ASSETS)
    {
      return Einval, 0;
    }
    ret := Ok;
    var p := Problem(values, target, ioRatio);
    var remaining := Total(values);
    PlainRun(p, attempts);
    if remaining < target {
      return;
    }
    var vr := SuffixSums(p, remaining);
    var attempt;
    ghost var s;
    written, attempt, s := SearchLoop(p, vr, attempts, indicesOut);
    RunDoneOrSpent(p, attempt, attempts);
    RunBounds(p, attempts);
  }

  /** What the plain walk says of the search when nothing wraps around. */
  lemma PlainRun(p: Problem, attempts: nat)
    requires 0 < |p.values| < TWO_32 && 0 < p.target && 0 < p.ioRatio && |p.values| + 1 <= attempts
    ensures Remaining(p.values, 0) < TWO_64 ==>
              && Wrap(Remaining(p.values, 0)) == Remaining(p.values, 0)
              && Run64(p, START, attempts) == Run(p, START, attempts)
              && (Descending(p.values) ==>
                    (|Indices(Run(p, START, attempts).best)| != 0 && p.target <= Remaining(p.values, 0)
                     <==> p.target <= Weight(p.values, First(Min(|p.values|, 256)))))
  {
    hide Weight, Run, Run64;
    if Remaining(p.values, 0) < TWO_64 {
      RunIsPlain(p, START, attempts);
      WeightFits(p.values, First(Min(|p.values|, MAX_ASSETS)));
      if p.target <= Remaining(p.values, 0) && Descending(p.values) {
        BestHasInputs(p, attempts);
        CompleteInNPlusOne(p, attempts);
      }
    }
  }

  lemma BestHasInputs(p: Problem, attempts: nat)
    requires ValidProblem(p)
    ensures |Indices(Run(p, START, attempts).best)| == 0 <==> Run(p, START, attempts).best == []
  {
    RunInv(p, START, attempts);
    var best := Run(p, START, attempts).best;
    if best != [] && Count(best) == 0 { WeightOfNone(p.values, best); }
  }

  /** The loop variables stand for the prefix c: v is its length, the stack holds its included indices. */
  ghost predicate Stands(p: Problem, c: Selection, v: nat, stack: seq<uint32>, sum: nat) {
    && |c| <= |p.values| && v == |c| && stack == Indices(c) && sum == Sum64(p, c)
  }

  /** The bounds that keep every variable of the loop within its machine type and every index in its array. */
  ghost predicate Bounded(p: Problem, s: Search) {
    && 0 < p.target < TWO_64 && |p.values| < TWO_32 && |s.chosen| <= |p.values|
    && Count(s.chosen) <= Min(|p.values|, MAX_ASSETS)
    && Count(s.best) <= Min(|p.values|, MAX_ASSETS)
    && s.bestScore < TWO_32 && s.bestSum < TWO_64
  }

  lemma RunBounds(p: Problem, attempts: nat)
    requires 0 < p.target < TWO_64 && |p.values| < TWO_32
    ensures Bounded(p, Run64(p, START, attempts))
  {
    hide Run64;
    Run64Inv(p, START, attempts);
    CountAtMostLength(Run64(p, START, attempts).chosen);
    CountAtMostLength(Run64(p, START, attempts).best);
  }

  /** Drops the last included value and moves v back to it. */
  method PopLast(p: Problem, ghost c: Selection, vr: array<ValueRemaining>, indices: array<uint32>,
                 v: uint32, ii: uint32, sum: uint64) returns (v': uint32, ii': uint32, sum': uint64)
    requires VrValid(p, vr[..]) && 0 < ii <= indices.Length
    requires Stands(p, c, v, indices[..ii], sum)
    ensures ii' == ii - 1 && v' + 1 == |Flip(c)| && Stands(p, Flip(c), v' + 1, indices[..ii'], sum')
  {
    hide Wrap, Weight;
    TopOfStack(c);
    FlipWeight(p.values, c);
    FlipShape(c);
    ii', v' := ii - 1, v - 1;
    assert indices[ii'] == Indices(c)[|Indices(c)| - 1];
    while v' > indices[ii']
      invariant indices[ii'] <= v' < |c|
    {
      v' := v' - 1;
    }
    WrapTakes(Weight(p.values, Flip(c)), p.values[v']);
    sum' := Wrap(sum as int - vr[v'].value);
    assert indices[..ii'] == indices[..ii][..ii'];
  }

  /** Adds value v to the selection unless it duplicates a value just omitted. */
  method Advance(p: Problem, ghost c: Selection, vr: array<ValueRemaining>, indices: array<uint32>,
                 v: uint32, ii: uint32, sum: uint64) returns (ii': uint32, sum': uint64)
    requires VrValid(p, vr[..]) && ii < indices.Length && |p.values| < TWO_32
    requires Stands(p, c, v, indices[..ii], sum) && v < |p.values|
    requires indices.Length < TWO_32
    modifies indices
    ensures ii' <= indices.Length
    ensures var d := c + [WorthIncluding(p, c)]; Stands(p, d, v + 1, indices[..ii'], sum')
  {
    hide Wrap, Weight, Count, Flip, Indices;
    ii', sum' := ii, sum;
    if ii > 0 { TopOfStack(c); }
    Append(p.values, c, WorthIncluding(p, c));
    if ii == 0 || v - 1 == indices[ii - 1] || vr[v].value != vr[v - 1].value {
      indices[ii] := v;
      ii' := ii + 1;
      WrapAdds(Weight(p.values, c), p.values[v]);
      sum' := Wrap(sum + vr[v].value);
      assert indices[..ii'] == old(indices[..ii]) + [v];
    }
  }

  /** The end of an attempt: drop the last included value or go one value further, then step to the next value. */
  method Move(p: Problem, ghost c: Selection, vr: array<ValueRemaining>, indices: array<uint32>,
              v: uint32, ii: uint32, sum: uint64, backtrack: bool) returns (v': uint32, ii': uint32, sum': uint64)
    requires VrValid(p, vr[..]) && ii <= indices.Length && |p.values| < TWO_32 && indices.Length == MAX_ASSETS
    requires Stands(p, c, v, indices[..ii], sum)
    requires if backtrack then ii > 0 else ii < MAX_ASSETS && v < |p.values|
    modifies indices
    ensures ii' <= MAX_ASSETS
    ensures Stands(p, if backtrack then Flip(c) else c + [WorthIncluding(p, c)], v', indices[..ii'], sum')
  {
    if backtrack {
      v', ii', sum' := PopLast(p, c, vr, indices, v, ii, sum);
    } else {
      v' := v;
      ii', sum' := Advance(p, c, vr, indices, v, ii, sum);
    }
    v' := v' + 1;
  }

  /** The best variables and the output buffer stand for what the walk keeps. */
  ghost predicate Keeps(s: Search, bestScore: nat, bestSum: nat, written: nat, out: seq<uint32>) {
    && bestScore == s.bestScore && bestSum == s.bestSum
    && written <= |out| && out[..written] == Indices(s.best)
  }

  /** Scores a selection that reaches the target and writes it out when it is better. */
  method Consider(p: Problem, ghost s: Search, sum: uint64, bestScore: uint32, bestSum: uint64, written: nat,
                  indices: array<uint32>, ii: uint32, indicesOut: array<uint32>, ghost cap: nat)
    returns (bestScore': uint32, bestSum': uint64, written': nat, better: bool)
    requires |s.chosen| <= |p.values| && sum == Sum64(p, s.chosen)
    requires ii <= indices.Length && indices[..ii] == Indices(s.chosen)
    requires ii <= cap <= indicesOut.Length && indices != indicesOut
    requires Keeps(s, bestScore, bestSum, written, indicesOut[..])
    modifies indicesOut
    ensures better == Improves64(p, s)
    ensures Keeps(Record64(p, s), bestScore', bestSum', written', indicesOut[..])
    ensures written' == written || written' == ii
    ensures forall k :: cap <= k < indicesOut.Length ==> indicesOut[k] == old(indicesOut[k])
  {
    var score := (ii + if sum == p.target then 0 else p.ioRatio) % TWO_32;
    bestScore', bestSum', written' := bestScore, bestSum, written;
    better := score < bestScore ||
              (score == bestScore && (sum > bestSum || (sum == p.target && bestSum != p.target)));
    if better {
      bestScore', bestSum', written' := score, sum, ii;
      var i := 0;
      while i < ii
        invariant 0 <= i <= ii
        invariant indicesOut[..i] == indices[..i]
        invariant forall k :: cap <= k < indicesOut.Length ==> indicesOut[k] == old(indicesOut[k])
      {
        indicesOut[i] := indices[i];
        i := i + 1;
      }
    }
  }

  /** The local variables of the search loop. */
  datatype Registers = Registers(v: uint32, ii: uint32, sum: uint64, bestScore: uint32, bestSum: uint64, written: nat)

  ghost predicate StandsFor(p: Problem, s: Search, r: Registers, stack: seq<uint32>, out: seq<uint32>) {
    && Keeps(s, r.bestScore, r.bestSum, r.written, out)
    && (!s.done ==> r.ii <= |stack| && Stands(p, s.chosen, r.v, stack[..r.ii], r.sum))
  }

  /** One attempt of the loop is one step of the walk. */
  method Attempt(p: Problem, ghost s: Search, ghost t: Search, vr: array<ValueRemaining>,
                 indices: array<uint32>, indicesOut: array<uint32>, ghost cap: nat, r: Registers)
    returns (r': Registers, stop: bool)
    requires VrValid(p, vr[..]) && Bounded(p, s) && !s.done && t == Step64(p, s)
    requires cap == Min(|p.values|, MAX_ASSETS) <= indicesOut.Length && indices != indicesOut
    requires indices.Length == MAX_ASSETS && StandsFor(p, s, r, indices[..], indicesOut[..])
    modifies indices, indicesOut
    ensures forall k :: cap <= k < indicesOut.Length ==> indicesOut[k] == old(indicesOut[k])
    ensures stop == t.done && StandsFor(p, t, r', indices[..], indicesOut[..])
  {
    hide Wrap, Weight, WorthIncluding, Flip;
    var backtrack := false;
    r', stop := r, false;
    assert indices[..][..r.ii] == indices[..r.ii];
    assert r.ii == Count(s.chosen);
    if Wrap(r.sum + vr[r.v].remaining) < p.target {
      backtrack := true;
    } else if r.sum >= p.target {
      var bestScore, bestSum, written, better :=
        Consider(p, s, r.sum, r.bestScore, r.bestSum, r.written, indices, r.ii, indicesOut, cap);
      r' := r.(bestScore := bestScore, bestSum := bestSum, written := written);
      if better && r.sum == p.target && r.ii == 1 {
        return r', true; // perfect selection
      }
      backtrack := true;
    } else if r.ii >= r.bestScore || r.ii >= MAX_ASSETS {
      backtrack := true;
    }
    if backtrack && r.ii == 0 {
      return r', true; // all viable selections have been searched
    }
    if !backtrack { BeforeSentinel(p, s.chosen); }
    var v, ii, sum := Move(p, s.chosen, vr, indices, r.v, r.ii, r.sum, backtrack);
    assert indices[..][..ii] == indices[..ii];
    r' := r'.(v := v, ii := ii, sum := sum);
  }

  lemma NextAttempt(p: Problem, attempt: nat, s: Search) returns (t: Search)
    requires 0 < p.target < TWO_64 && |p.values| < TWO_32 && s == Run64(p, START, attempt) && !s.done
    ensures Bounded(p, s) && t == Step64(p, s) == Run64(p, START, attempt + 1)
  {
    RunBounds(p, attempt);
    Run64Next(p, attempt);
    t := Step64(p, s);
  }

  /** At the sentinel the loop turns back one way or the other. */
  lemma BeforeSentinel(p: Problem, c: Selection)
    requires |c| <= |p.values| && Sum64(p, c) < p.target <= Wrap(Sum64(p, c) + Remaining64(p, |c|))
    ensures |c| < |p.values|
  {
  }

  lemma StartStands(p: Problem)
    requires 0 < p.target
    ensures Run64(p, START, 0) == START && Sum64(p, []) == 0
  {
  }

  method SearchLoop(p: Problem, vr: array<ValueRemaining>, attempts: uint64, indicesOut: array<uint32>)
    returns (written: nat, attempt: nat, ghost s: Search)
    requires 0 < p.target < TWO_64 && |p.values| < TWO_32 && VrValid(p, vr[..])
    requires Min(|p.values|, MAX_ASSETS) <= indicesOut.Length
    modifies indicesOut
    ensures s == Run64(p, START, attempt) && attempt <= attempts && (s.done || attempt == attempts)
    ensures Keeps(s, s.bestScore, s.bestSum, written, indicesOut[..])
    ensures forall k :: Min(|p.values|, MAX_ASSETS) <= k < indicesOut.Length ==> indicesOut[k] == old(indicesOut[k])
  {
    hide Run64, Step64, Wrap, Weight;
    ghost var cap := Min(|p.values|, MAX_ASSETS);
    var indices := new uint32[MAX_ASSETS];
    var r, stop := Registers(0, 0, 0, 0xffff_ffff, 0, 0), false;
    attempt, s := 0, START;
    StartStands(p);
    while attempt < attempts && !stop
      invariant 0 <= attempt <= attempts
      invariant s == Run64(p, START, attempt) && s.done == stop
      invariant StandsFor(p, s, r, indices[..], indicesOut[..])
      invariant forall k :: cap <= k < indicesOut.Length ==> indicesOut[k] == old(indicesOut[k])
    {
      ghost var t := NextAttempt(p, attempt, s);
      r, stop := Attempt(p, s, t, vr, indices, indicesOut, cap, r);
      s, attempt := t, attempt + 1;
    }
    written := r.written;
  }

  /** Once the walk has ended, further attempts change nothing. */
  lemma RunDoneOrSpent(p: Problem, a: nat, b: nat)
    requires 0 < p.target && a <= b && (a == b || Run64(p, START, a).done)
    ensures Run64(p, START, b) == Run64(p, START, a)
  {
    Run64Split(p, START, a, b - a);
  }
}
