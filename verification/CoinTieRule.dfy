/**
 Which of the selections of least score the coin search of src/coins.c keeps: the order of the
 walk decides, and the last exact match among them.
 */
module CoinTieRule {
  import opened Common
  import opened CoinSelection
  import opened CoinOptimality

  /** No value is included where the walk skips it for being equal to the one omitted before it. */
  ghost predicate Walked(p: Problem, m: Selection)
    requires |m| <= |p.values|
  {
    m == [] ||
    (Walked(p, m[..|m| - 1]) && (m[|m| - 1] ==> WorthIncluding(p, m[..|m| - 1])))
  }

  ghost predicate IsLeastScore(p: Problem, least: nat) {
    && (forall m: Selection :: Full(p, m) ==> least <= Score(p, m))
    && exists m: Selection :: Full(p, m) && Score(p, m) == least
  }

  /**
   The solutions of a score under a prefix that are not skipped, in the order of the walk: including before omitting.
   */
  ghost function Visit(p: Problem, score: nat, c: Selection): seq<Selection>
    requires |c| <= |p.values|
    decreases |p.values| - |c|
  {
    if |c| == |p.values| then (if Solves(p, c) && Score(p, c) == score then [c] else [])
    else (if WorthIncluding(p, c) then Visit(p, score, c + [true]) else []) + Visit(p, score, c + [false])
  }

  /** Those that come before a prefix. */
  ghost function Passed(p: Problem, score: nat, c: Selection): seq<Selection>
    requires |c| <= |p.values|
  {
    if c == [] then []
    else
      var d := c[..|c| - 1];
      Passed(p, score, d) + if !c[|c| - 1] && WorthIncluding(p, d) then Visit(p, score, d + [true]) else []
  }

  function Sum(p: Problem, m: Selection): nat {
    if |m| <= |p.values| then Weight(p.values, m) else 0
  }

  /** The sum kept after a list of selections of equal score: a larger one, or the first exact one, replaces it. */
  function Keep(p: Problem, l: seq<Selection>): nat {
    if l == [] then 0
    else
      var b, w := Keep(p, l[..|l| - 1]), Sum(p, l[|l| - 1]);
      if w > b || (w == p.target && b != p.target) then w else b
  }

  // ---------------------------------------------------------------- what the walk visits

  lemma {:induction false} VisitSound(p: Problem, score: nat, c: Selection)
    requires |c| <= |p.values|
    ensures forall m :: m in Visit(p, score, c) ==> c <= m && Full(p, m) && Score(p, m) == score
    decreases |p.values| - |c|
  {
    hide Score, WorthIncluding, Solves;
    if |c| < |p.values| {
      if WorthIncluding(p, c) { VisitSound(p, score, c + [true]); }
      VisitSound(p, score, c + [false]);
      forall m | m in Visit(p, score, c)
        ensures c <= m
      {
        assert c + [true] <= m || c + [false] <= m;
        assert c <= c + [true] && c <= c + [false];
      }
    }
  }

  lemma {:induction false} VisitComplete(p: Problem, m: Selection, c: Selection)
    requires c <= m && Full(p, m) && Walked(p, m)
    ensures m in Visit(p, Score(p, m), c)
    decreases |p.values| - |c|
  {
    hide Score, WorthIncluding, Solves, Walked;
    if |c| == |m| {
      assert c == m;
    } else {
      var b := m[|c|];
      assert c + [b] <= m by { assert m[..|c|] == c; }
      VisitComplete(p, m, c + [b]);
      assert m[..|c|] == c;
      if b { WalkedAt(p, m, |c|); }
    }
  }

  lemma {:induction false} WalkedAt(p: Problem, m: Selection, i: nat)
    requires i < |m| <= |p.values| && Walked(p, m) && m[i]
    ensures WorthIncluding(p, m[..i])
    decreases |m|
  {
    if i < |m| - 1 {
      WalkedAt(p, m[..|m| - 1], i);
      assert m[..|m| - 1][..i] == m[..i];
    }
  }

  lemma WalkedAppend(p: Problem, c: Selection, b: bool)
    requires |c| < |p.values| && Walked(p, c) && (b ==> WorthIncluding(p, c))
    ensures Walked(p, c + [b])
  {
    assert (c + [b])[..|c|] == c;
  }

  lemma {:induction false} WalkedFlip(p: Problem, c: Selection)
    requires |c| <= |p.values| && Walked(p, c) && Count(c) > 0
    ensures |Flip(c)| <= |p.values| && Walked(p, Flip(c))
    decreases |c|
  {
    hide WorthIncluding;
    FlipShape(c);
    if c[|c| - 1] {
      WalkedAppend(p, c[..|c| - 1], false);
    } else {
      WalkedFlip(p, c[..|c| - 1]);
    }
  }

  lemma PassedAppend(p: Problem, score: nat, c: Selection, b: bool)
    requires |c| < |p.values|
    ensures Passed(p, score, c + [b])
         == Passed(p, score, c) + if !b && WorthIncluding(p, c) then Visit(p, score, c + [true]) else []
  {
    assert (c + [b])[..|c|] == c;
  }

  /** Going on to the next value passes nothing. */
  lemma PassedDescend(p: Problem, score: nat, c: Selection)
    requires |c| < |p.values|
    ensures Passed(p, score, c + [WorthIncluding(p, c)]) == Passed(p, score, c)
  {
    PassedAppend(p, score, c, WorthIncluding(p, c));
  }

  /** Leaving a subtree passes what is under it. */
  lemma {:induction false} PassedFlip(p: Problem, score: nat, c: Selection)
    requires |c| <= |p.values| && Walked(p, c) && Count(c) > 0
    ensures |Flip(c)| <= |p.values| && Passed(p, score, Flip(c)) == Passed(p, score, c) + Visit(p, score, c)
    decreases |c|
  {
    hide Visit, Passed, WorthIncluding;
    FlipShape(c);
    var d := c[..|c| - 1];
    assert c == d + [c[|c| - 1]];
    PassedAppend(p, score, d, c[|c| - 1]);
    if c[|c| - 1] {
      PassedAppend(p, score, d, false);
    } else {
      PassedFlip(p, score, d);
      VisitUnfold(p, score, d);
    }
  }

  lemma VisitUnfold(p: Problem, score: nat, c: Selection)
    requires |c| < |p.values|
    ensures Visit(p, score, c)
         == (if WorthIncluding(p, c) then Visit(p, score, c + [true]) else []) + Visit(p, score, c + [false])
  {
  }

  /** A prefix without inputs leaves only what is under it. */
  lemma {:induction false} PassedAll(p: Problem, score: nat, c: Selection)
    requires |c| <= |p.values| && Count(c) == 0
    ensures Passed(p, score, c) + Visit(p, score, c) == Visit(p, score, [])
    decreases |c|
  {
    hide Visit, Passed, WorthIncluding;
    if c == [] {
      PassedNothing(p, score);
      assert [] + Visit(p, score, []) == Visit(p, score, []);
    } else {
      var d := c[..|c| - 1];
      assert c == d + [false];
      PassedAppend(p, score, d, false);
      VisitUnfold(p, score, d);
      PassedAll(p, score, d);
    }
  }

  lemma PassedNothing(p: Problem, score: nat)
    ensures Passed(p, score, []) == []
  {
  }

  // ---------------------------------------------------------------- selections that reach the target

  /** A selection with the rest omitted. */
  function Padded(p: Problem, c: Selection): (m: Selection)
    requires |c| <= |p.values|
    ensures |m| == |p.values|
    decreases |p.values| - |c|
  {
    if |c| == |p.values| then c else Padded(p, c + [false])
  }

  lemma {:induction false} PaddedSame(p: Problem, c: Selection)
    requires |c| <= |p.values|
    ensures c <= Padded(p, c) && Count(Padded(p, c)) == Count(c)
            && Weight(p.values, Padded(p, c)) == Weight(p.values, c)
    ensures Walked(p, c) ==> Walked(p, Padded(p, c))
    decreases |p.values| - |c|
  {
    hide Count, Weight, Walked;
    if |c| < |p.values| {
      Append(p.values, c, false);
      if Walked(p, c) { WalkedAppend(p, c, false); }
      PaddedSame(p, c + [false]);
    }
  }

  /** Once the target is reached, any further input only raises the score. */
  lemma MoreInputsScoreMore(p: Problem, c: Selection, m: Selection)
    requires |c| < |p.values| && p.target <= Weight(p.values, c) && c + [true] <= m && |m| <= |p.values|
    ensures Score(p, c) < Score(p, m)
  {
    Append(p.values, c, true);
    PrefixBounds(p.values, c + [true], m);
  }

  /** Under a prefix that reaches the target with the score, the walk visits that selection only. */
  lemma {:induction false} VisitReached(p: Problem, c: Selection)
    requires |c| <= |p.values| && p.target <= Weight(p.values, c) && Count(c) <= MAX_ASSETS
    ensures Visit(p, Score(p, c), c) == [Padded(p, c)]
    decreases |p.values| - |c|
  {
    hide Visit, Padded, WorthIncluding;
    var score := Score(p, c);
    if |c| < |p.values| {
      Append(p.values, c, false);
      VisitReached(p, c + [false]);
      VisitUnfold(p, score, c);
      VisitSound(p, score, c + [true]);
      var more := Visit(p, score, c + [true]);
      if more != [] {
        assert more[0] in more;
        MoreInputsScoreMore(p, c, more[0]);
      }
      PaddedUnfold(p, c);
    } else {
      VisitLeaf(p, score, c);
      PaddedUnfold(p, c);
    }
  }

  lemma VisitLeaf(p: Problem, score: nat, c: Selection)
    requires |c| == |p.values|
    ensures Visit(p, score, c) == if Solves(p, c) && Score(p, c) == score then [c] else []
  {
  }

  lemma PaddedUnfold(p: Problem, c: Selection)
    requires |c| <= |p.values|
    ensures Padded(p, c) == if |c| == |p.values| then c else Padded(p, c + [false])
  {
  }

  /** Nothing of the score is visited where every solution scores otherwise. */
  lemma VisitNothing(p: Problem, score: nat, c: Selection)
    requires |c| <= |p.values| && forall m: Selection :: Full(p, m) && c <= m ==> Score(p, m) != score
    ensures Visit(p, score, c) == []
  {
    hide Visit, Score;
    VisitSound(p, score, c);
    EmptyOrFirst(Visit(p, score, c));
  }

  lemma EmptyOrFirst<T>(l: seq<T>)
    ensures l == [] || l[0] in l
  {
  }

  // ---------------------------------------------------------------- the invariant over every run

  /**
   The kept sum is the one kept of the selections of least score passed so far; before the first, the score is worse.
   */
  ghost predicate Kept(p: Problem, least: nat, s: Search, l: seq<Selection>) {
    if Bound(s) == least then l != [] && s.bestSum == Keep(p, l) else least < Bound(s) && l == []
  }

  ghost predicate TieInv(p: Problem, least: nat, s: Search) {
    && Inv(p, s) && NoWrap(p) && IsLeastScore(p, least)
    && if s.done then Bound(s) == least && Kept(p, least, s, Visit(p, least, []))
       else Walked(p, s.chosen) && Kept(p, least, s, Passed(p, least, s.chosen))
  }

  /** Leaving a subtree without anything that matters, or with what was just recorded. */
  lemma BacktrackTies(p: Problem, least: nat, s: Search)
    requires Inv(p, s) && NoWrap(p) && IsLeastScore(p, least) && !s.done && Walked(p, s.chosen)
    requires SubtreeCovered(p, s.chosen, Bound(s))
    requires Kept(p, least, s, Passed(p, least, s.chosen) + Visit(p, least, s.chosen))
    ensures TieInv(p, least, Backtrack(s))
  {
    hide Visit, Passed, Walked, Covered, SubtreeCovered, Keep;
    BacktrackInv(p, s);
    if Count(s.chosen) == 0 {
      PassedAll(p, least, s.chosen);
      FoundLeast(p, least, s.(done := true));
    } else {
      PassedFlip(p, least, s.chosen);
      WalkedFlip(p, s.chosen);
    }
  }

  /** At the end the least score has been found. */
  lemma FoundLeast(p: Problem, least: nat, s: Search)
    requires Inv(p, s) && NoWrap(p) && IsLeastScore(p, least) && s.done && least <= Bound(s)
    ensures Bound(s) == least
  {
    var m: Selection :| Full(p, m) && Score(p, m) == least;
  }

  /** Recording the selection that the walk has reached. */
  lemma RecordTies(p: Problem, least: nat, s: Search)
    requires TieInv(p, least, s) && !s.done && p.target <= Weight(p.values, s.chosen)
    ensures Kept(p, least, Record(p, s), Passed(p, least, s.chosen) + Visit(p, least, s.chosen))
  {
    hide Visit, Passed, Walked, Covered, Keep, Padded, Score, Count;
    var c, l := s.chosen, Passed(p, least, s.chosen);
    NoWrapScore(p, c);
    PaddedSame(p, c);
    var y := Padded(p, c);
    SameScore(p, c, y);
    assert Full(p, y);
    assert least <= Score(p, c);
    if Score(p, c) == least {
      VisitReached(p, c);
      KeepOne(p, l, y);
      KeepNothing(p);
    } else {
      VisitOther(p, least, c);
      assert l + [] == l;
    }
  }

  lemma SameScore(p: Problem, c: Selection, m: Selection)
    requires |c| <= |p.values| && |m| <= |p.values| && Count(c) == Count(m)
             && Weight(p.values, c) == Weight(p.values, m)
    ensures Score(p, c) == Score(p, m)
  {
  }

  lemma KeepOne(p: Problem, l: seq<Selection>, m: Selection)
    ensures var b, w := Keep(p, l), Sum(p, m);
            Keep(p, l + [m]) == if w > b || (w == p.target && b != p.target) then w else b
  {
    assert (l + [m])[..|l|] == l;
  }

  lemma KeepNothing(p: Problem)
    ensures Keep(p, []) == 0
  {
  }

  /** Under a selection that reaches the target with more than the least score there is nothing of least score. */
  lemma VisitOther(p: Problem, least: nat, c: Selection)
    requires |c| <= |p.values| && p.target <= Weight(p.values, c) && least < Score(p, c)
    ensures Visit(p, least, c) == []
  {
    hide Visit;
    forall m: Selection | Full(p, m) && c <= m
      ensures Score(p, m) != least
    {
      PrefixBounds(p.values, c, m);
    }
    VisitNothing(p, least, c);
  }

  /** Where the walk turns back before the target there is nothing of least score. */
  lemma VisitPruned(p: Problem, least: nat, s: Search)
    requires TieInv(p, least, s) && !s.done && Weight(p.values, s.chosen) < p.target
    requires var sum, k := Weight(p.values, s.chosen), Count(s.chosen);
             sum + Remaining(p.values, |s.chosen|) < p.target || s.bestScore <= k || MAX_ASSETS <= k
    ensures Visit(p, least, s.chosen) == []
  {
    hide Visit, Passed, Walked, Keep, Covered;
    var c := s.chosen;
    forall m: Selection | Full(p, m) && c <= m
      ensures Score(p, m) != least
    {
      PrefixBounds(p.values, c, m);
      StrictlyMore(p.values, c, m);
    }
    VisitNothing(p, least, c);
  }

  /** A single exact input ends the search: then every selection of least score is exact. */
  lemma PerfectTies(p: Problem, least: nat, s: Search)
    requires TieInv(p, least, s) && !s.done && Weight(p.values, s.chosen) == p.target && Count(s.chosen) == 1
    requires Improves(p, s)
    ensures TieInv(p, least, Record(p, s).(done := true))
  {
    hide Visit, Passed, Walked, Keep, Covered, Padded, Score;
    var c, t := s.chosen, Record(p, s).(done := true);
    var l := Visit(p, least, []);
    PerfectInv(p, s);
    NoWrapScore(p, c);
    PaddedSame(p, c);
    SameScore(p, c, Padded(p, c));
    ScoreOfOne(p, c);
    FoundLeast(p, least, t);
    VisitComplete(p, Padded(p, c), []);
    VisitSound(p, least, []);
    forall m | m in l
      ensures Sum(p, m) == p.target
    {
      OneIsExact(p, m);
    }
    KeepExact(p, l);
  }

  lemma ScoreOfOne(p: Problem, c: Selection)
    requires |c| <= |p.values| && Weight(p.values, c) == p.target && Count(c) == 1
    ensures Score(p, c) == 1
  {
  }

  lemma OneIsExact(p: Problem, m: Selection)
    requires ValidProblem(p) && Full(p, m) && Score(p, m) == 1
    ensures Sum(p, m) == p.target
  {
    if Count(m) == 0 { WeightOfNone(p.values, m); }
  }

  lemma {:induction false} KeepExact(p: Problem, l: seq<Selection>)
    requires l != [] && p.target > 0 && forall m :: m in l ==> Sum(p, m) == p.target
    ensures Keep(p, l) == p.target
  {
    var d := l[..|l| - 1];
    assert l[|l| - 1] in l;
    if d != [] {
      forall m | m in d
        ensures Sum(p, m) == p.target
      {
        assert m in l;
      }
      KeepExact(p, d);
    }
  }

  lemma StepTies(p: Problem, least: nat, s: Search)
    requires TieInv(p, least, s) && !s.done
    ensures TieInv(p, least, Step(p, s))
  {
    hide Visit, Passed, Walked, Keep, Covered, Improves;
    var c, sum, k := s.chosen, Weight(p.values, s.chosen), Count(s.chosen);
    StepInv(p, s);
    var l := Passed(p, least, c);
    if sum + Remaining(p.values, |c|) < p.target || (sum < p.target && (s.bestScore <= k || MAX_ASSETS <= k)) {
      VisitPruned(p, least, s);
      assert l + [] == l;
      PruneCovers(p, c, Bound(s));
      BacktrackTies(p, least, s);
    } else if p.target <= sum {
      if Improves(p, s) && sum == p.target && k == 1 {
        PerfectTies(p, least, s);
      } else {
        RecordInv(p, s);
        CountAtMostLength(c);
        RecordTies(p, least, s);
        NoWrapScore(p, c);
        PruneCovers(p, c, Bound(Record(p, s)));
        BacktrackTies(p, least, Record(p, s));
      }
    } else {
      PassedDescend(p, least, c);
      WalkedAppend(p, c, WorthIncluding(p, c));
    }
  }

  lemma {:induction false} RunTies(p: Problem, least: nat, s: Search, attempts: nat)
    requires TieInv(p, least, s)
    ensures TieInv(p, least, Run(p, s, attempts))
    decreases attempts
  {
    hide Visit, Passed, Walked, Keep, Step, Covered;
    if attempts > 0 && !s.done {
      StepTies(p, least, s);
      RunTies(p, least, Step(p, s), attempts - 1);
    }
  }

  // ---------------------------------------------------------------- the rule

  /** What comes after the last exact selection of a list; all of it if there is none. */
  function SinceExact(p: Problem, l: seq<Selection>): seq<Selection> {
    if l == [] || Sum(p, l[|l| - 1]) == p.target then [] else SinceExact(p, l[..|l| - 1]) + [l[|l| - 1]]
  }

  /** The greatest weight in a list. */
  function Greatest(p: Problem, l: seq<Selection>): (g: nat)
    requires l != []
    ensures (exists m :: m in l && Sum(p, m) == g) && forall m :: m in l ==> Sum(p, m) <= g
  {
    var d, w := l[..|l| - 1], Sum(p, l[|l| - 1]);
    assert l == d + [l[|l| - 1]];
    if d == [] || Greatest(p, d) <= w then w else Greatest(p, d)
  }

  lemma {:induction false} KeepRule(p: Problem, l: seq<Selection>)
    requires l != [] && p.target > 0 && forall m :: m in l ==> Sum(p, m) >= p.target
    ensures var since := SinceExact(p, l);
            Keep(p, l) == if since == [] then p.target else Greatest(p, since)
    ensures SinceExact(p, l) == [] <==> Sum(p, l[|l| - 1]) == p.target
    ensures forall m :: m in SinceExact(p, l) ==> Sum(p, m) > p.target
  {
    hide Sum, Keep, SinceExact, Greatest;
    var d, y := l[..|l| - 1], l[|l| - 1];
    assert l == d + [y];
    assert y in l;
    KeepOne(p, d, y);
    SinceExactOne(p, d, y);
    if d == [] {
      KeepNothing(p);
      GreatestOne(p, [], y);
    } else {
      forall m | m in d
        ensures Sum(p, m) >= p.target
      {
        assert m in l;
      }
      KeepRule(p, d);
      GreatestOne(p, SinceExact(p, d), y);
    }
  }

  lemma SinceExactOne(p: Problem, l: seq<Selection>, m: Selection)
    ensures SinceExact(p, l + [m]) == if Sum(p, m) == p.target then [] else SinceExact(p, l) + [m]
    ensures SinceExact(p, []) == []
  {
    assert (l + [m])[..|l|] == l;
  }

  lemma GreatestOne(p: Problem, l: seq<Selection>, m: Selection)
    ensures Greatest(p, l + [m]) == if l == [] || Greatest(p, l) <= Sum(p, m) then Sum(p, m) else Greatest(p, l)
  {
    assert (l + [m])[..|l|] == l;
  }

  ghost predicate Ordered(l: seq<Selection>) {
    forall i, j :: 0 <= i < j < |l| ==> Before(l[i], l[j])
  }

  lemma OrderedConcat(a: seq<Selection>, b: seq<Selection>)
    requires Ordered(a) && Ordered(b) && forall m, n :: m in a && n in b ==> Before(m, n)
    ensures Ordered(a + b)
  {
    hide Before;
    forall i, j | 0 <= i < j < |a + b|
      ensures Before((a + b)[i], (a + b)[j])
    {
      if j < |a| {
        assert Before(a[i], a[j]);
      } else if i < |a| {
        assert a[i] in a && b[j - |a|] in b;
      } else {
        assert Before(b[i - |a|], b[j - |a|]);
      }
    }
  }

  /** The list of selections of a score is in the order of the walk. */
  lemma {:induction false} VisitOrdered(p: Problem, score: nat, c: Selection)
    requires |c| <= |p.values|
    ensures Ordered(Visit(p, score, c))
    decreases |p.values| - |c|
  {
    hide WorthIncluding, Solves, Score, Before;
    if |c| < |p.values| {
      var a, b := if WorthIncluding(p, c) then Visit(p, score, c + [true]) else [], Visit(p, score, c + [false]);
      if WorthIncluding(p, c) { VisitOrdered(p, score, c + [true]); }
      VisitOrdered(p, score, c + [false]);
      VisitSound(p, score, c + [true]);
      VisitSound(p, score, c + [false]);
      forall m, n | m in a && n in b
        ensures Before(m, n)
      {
        IncludedFirst(c, m, n);
      }
      OrderedConcat(a, b);
    }
  }

  lemma IncludedFirst(c: Selection, m: Selection, n: Selection)
    requires c + [true] <= m && c + [false] <= n
    ensures Before(m, n)
  {
    assert m[..|c|] == c && n[..|c|] == c;
    assert m[|c|] == (c + [true])[|c|] && n[|c|] == (c + [false])[|c|];
  }

  lemma {:induction false} VisitWalked(p: Problem, score: nat, c: Selection)
    requires |c| <= |p.values| && Walked(p, c)
    ensures forall m :: m in Visit(p, score, c) ==> |m| <= |p.values| && Walked(p, m)
    decreases |p.values| - |c|
  {
    hide WorthIncluding, Solves, Score, Walked;
    if |c| < |p.values| {
      if WorthIncluding(p, c) {
        WalkedAppend(p, c, true);
        VisitWalked(p, score, c + [true]);
      }
      WalkedAppend(p, c, false);
      VisitWalked(p, score, c + [false]);
    }
  }

  /** A selection is listed exactly if it solves the problem with the score and is not skipped. */
  lemma VisitExact(p: Problem, score: nat, m: Selection)
    ensures m in Visit(p, score, []) <==> Full(p, m) && Score(p, m) == score && Walked(p, m)
  {
    hide Visit, Score, Solves;
    VisitSound(p, score, []);
    VisitWalked(p, score, []);
    if Full(p, m) && Score(p, m) == score && Walked(p, m) { VisitComplete(p, m, []); }
  }

  /** The places of the inputs added up: moving an input up a place lowers it. */
  function Places(m: Selection): nat {
    if m == [] then 0 else Places(m[..|m| - 1]) + if m[|m| - 1] then |m| else 0
  }

  lemma {:induction false} PlacesReplace(m: Selection, j: nat, b: bool)
    requires j < |m|
    ensures Places(m[j := b]) == Places(m) - (if m[j] then j + 1 else 0) + (if b then j + 1 else 0)
  {
    var k := |m| - 1;
    if j == k {
      assert m[j := b][..k] == m[..k];
    } else {
      assert m[j := b][..k] == m[..k][j := b];
      PlacesReplace(m[..k], j, b);
    }
  }

  lemma {:induction false} FirstSkipped(p: Problem, m: Selection) returns (i: nat)
    requires |m| <= |p.values| && !Walked(p, m)
    ensures 0 < i < |m| && m[i] && !m[i - 1] && p.values[i] == p.values[i - 1]
    decreases |m|
  {
    hide WorthIncluding;
    var d := m[..|m| - 1];
    if Walked(p, d) {
      i := |m| - 1;
      SkippedEqual(p, d);
    } else {
      i := FirstSkipped(p, d);
      assert d[..i] == m[..i];
    }
  }

  lemma SkippedEqual(p: Problem, d: Selection)
    requires |d| < |p.values| && !WorthIncluding(p, d)
    ensures d != [] && !d[|d| - 1] && p.values[|d|] == p.values[|d| - 1]
  {
  }

  /** Every selection has one that is not skipped with the same weight and number of inputs. */
  lemma {:induction false} Unskipped(p: Problem, m: Selection) returns (n: Selection)
    requires |m| == |p.values|
    ensures |n| == |m| && Walked(p, n) && Count(n) == Count(m) && Weight(p.values, n) == Weight(p.values, m)
    decreases Places(m)
  {
    hide Walked, Count, Weight, Places;
    if Walked(p, m) {
      n := m;
    } else {
      var i := FirstSkipped(p, m);
      var a := m[i - 1 := true];
      Replace(p.values, m, i - 1, true);
      Replace(p.values, a, i, false);
      PlacesReplace(m, i - 1, true);
      PlacesReplace(a, i, false);
      n := Unskipped(p, a[i := false]);
    }
  }

  lemma TieStart(p: Problem, least: nat)
    requires ValidProblem(p) && NoWrap(p) && IsLeastScore(p, least)
    ensures TieInv(p, least, START)
  {
    hide Visit;
    StartInv(p);
    PassedNothing(p, least);
    var m: Selection :| Full(p, m) && Score(p, m) == least;
    NoWrapScore(p, m);
  }

  /**
   The sum a complete search keeps: of the selections of least score that the walk does not skip, in its order, the
   target if the last one is exact, and otherwise the greatest sum of those after the last exact one.
   */
  lemma TieRule(p: Problem, attempts: nat, least: nat)
    requires ValidProblem(p) && NoWrap(p) && Run(p, START, attempts).done && IsLeastScore(p, least)
    ensures var s, l := Run(p, START, attempts), Visit(p, least, []);
            && l != [] && Solves(p, s.best) && Score(p, s.best) == least && Weight(p.values, s.best) == s.bestSum
            && s.bestSum == if SinceExact(p, l) == [] then p.target else Greatest(p, SinceExact(p, l))
  {
    hide Visit, Passed, Walked, Keep, Run, SinceExact, Greatest, Covered;
    TieStart(p, least);
    RunTies(p, least, START, attempts);
    var s, l := Run(p, START, attempts), Visit(p, least, []);
    var m: Selection :| Full(p, m) && Score(p, m) == least;
    NoWrapScore(p, m);
    NoWrapScore(p, s.best);
    VisitReaches(p, least);
    KeepRule(p, l);
  }

  /** The least score is the one a complete search ends with, if it found anything. */
  lemma BestIsLeast(p: Problem, attempts: nat)
    requires ValidProblem(p) && NoWrap(p) && Run(p, START, attempts).done && Run(p, START, attempts).best != []
    ensures IsLeastScore(p, Run(p, START, attempts).bestScore)
  {
    hide Run, Padded, Score;
    var best := Run(p, START, attempts).best;
    RunInv(p, START, attempts);
    ScoreOptimal(p, attempts);
    NoWrapScore(p, best);
    PaddedSame(p, best);
    SameScore(p, best, Padded(p, best));
    assert Full(p, Padded(p, best));
  }

  lemma VisitReaches(p: Problem, least: nat)
    ensures forall m :: m in Visit(p, least, []) ==> Full(p, m) && Score(p, m) == least && Sum(p, m) >= p.target
  {
    hide Visit, Score;
    VisitSound(p, least, []);
  }

  /** An exact match is kept exactly if the last of the selections of least score in the order of the walk is one. */
  lemma ExactKept(p: Problem, attempts: nat, least: nat)
    requires ValidProblem(p) && NoWrap(p) && Run(p, START, attempts).done && IsLeastScore(p, least)
    ensures var s, l := Run(p, START, attempts), Visit(p, least, []);
            && l != [] && Solves(p, s.best)
            && (Weight(p.values, s.best) == p.target <==> Sum(p, l[|l| - 1]) == p.target)
  {
    hide Visit, Run, SinceExact;
    var l := Visit(p, least, []);
    TieRule(p, attempts, least);
    VisitReaches(p, least);
    KeepRule(p, l);
  }

  /** The last selection of a score, in the order of the walk, is exact. */
  ghost predicate LastIsExact(p: Problem, score: nat) {
    var l := Visit(p, score, []);
    l != [] && Sum(p, l[|l| - 1]) == p.target
  }

  /** No selection with change scores below a number of inputs. */
  ghost predicate ChangeScoresAtLeast(p: Problem, score: nat) {
    forall m: Selection :: Full(p, m) && Weight(p.values, m) != p.target ==> score <= Count(m) + p.ioRatio
  }

  /**
   Exact matches against change, with e an exact match of fewest inputs: an exact match is kept if and only if no
   selection with change has more than ioRatio inputs less than e, and the last selection of e's score is exact. So it
   is whenever none has even exactly that many less. The exact match kept has as few inputs as e.
   */
  lemma PreferenceRule(p: Problem, attempts: nat, e: Selection)
    requires ValidProblem(p) && NoWrap(p) && Run(p, START, attempts).done
    requires Full(p, e) && Weight(p.values, e) == p.target
    requires forall m: Selection :: Full(p, m) && Weight(p.values, m) == p.target ==> Count(e) <= Count(m)
    ensures var best := Run(p, START, attempts).best;
            && Solves(p, best)
            && (Weight(p.values, best) == p.target
                <==> ChangeScoresAtLeast(p, Count(e)) && LastIsExact(p, Count(e)))
            && (Weight(p.values, best) == p.target ==> Count(best) == Count(e))
    ensures ChangeScoresAtLeast(p, Count(e) + 1) ==> LastIsExact(p, Count(e))
  {
    hide Visit, Run, Count, Weight, Padded;
    if ChangeScoresAtLeast(p, Count(e)) {
      LeastIsExact(p, e);
      ExactKept(p, attempts, Count(e));
      TieRule(p, attempts, Count(e));
      if ChangeScoresAtLeast(p, Count(e) + 1) {
        forall m: Selection | Solves(p, m) && Weight(p.values, m) != p.target
          ensures Count(e) < Count(m) + p.ioRatio
        {
          PaddedSame(p, m);
          assert Full(p, Padded(p, m));
        }
        ExactPreferred(p, attempts, e);
      }
    } else {
      var m: Selection :| Full(p, m) && Weight(p.values, m) != p.target && Count(m) + p.ioRatio < Count(e);
      forall n: Selection | Solves(p, n) && Weight(p.values, n) == p.target
        ensures Count(m) + p.ioRatio < Count(n)
      {
        PaddedSame(p, n);
        assert Full(p, Padded(p, n));
      }
      ChangePreferred(p, attempts, m);
    }
  }

  lemma LeastIsExact(p: Problem, e: Selection)
    requires Full(p, e) && Weight(p.values, e) == p.target && ChangeScoresAtLeast(p, Count(e))
    requires forall m: Selection :: Full(p, m) && Weight(p.values, m) == p.target ==> Count(e) <= Count(m)
    ensures IsLeastScore(p, Count(e))
  {
    hide Count, Weight;
    assert Score(p, e) == Count(e);
  }

  /** Without an exact match of least score the change is the largest of all selections of that score. */
  lemma LargestChange(p: Problem, attempts: nat, least: nat)
    requires ValidProblem(p) && NoWrap(p) && Run(p, START, attempts).done && IsLeastScore(p, least)
    requires forall m: Selection :: Full(p, m) && Score(p, m) == least ==> Weight(p.values, m) != p.target
    ensures var best := Run(p, START, attempts).best;
            && Solves(p, best) && Score(p, best) == least
            && forall m: Selection :: Full(p, m) && Score(p, m) == least ==>
              Weight(p.values, m) <= Weight(p.values, best)
  {
    hide Visit, Run, SinceExact, Greatest, Count, Weight, Score, Walked;
    var l := Visit(p, least, []);
    TieRule(p, attempts, least);
    VisitReaches(p, least);
    NoneExact(p, l);
    forall m: Selection | Full(p, m) && Score(p, m) == least
      ensures Weight(p.values, m) <= Weight(p.values, Run(p, START, attempts).best)
    {
      var n := Unskipped(p, m);
      SameScore(p, m, n);
      VisitExact(p, least, n);
      assert Sum(p, n) <= Greatest(p, l);
    }
  }

  lemma {:induction false} NoneExact(p: Problem, l: seq<Selection>)
    requires forall m :: m in l ==> Sum(p, m) != p.target
    ensures SinceExact(p, l) == l
  {
    if l != [] {
      var d := l[..|l| - 1];
      assert l == d + [l[|l| - 1]];
      assert l[|l| - 1] in l;
      NoneExact(p, d);
    }
  }
}
