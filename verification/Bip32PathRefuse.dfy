/** Which path strings are refused, and so which printed paths are accepted. */
module Bip32PathRefuse {
  import opened Common
  import opened Radix
  import opened Bip32Path
  import opened Bip32PathPrint

  /** What can be wrong where an element should start. */
  datatype Flaw =
    | Missing                                // the end of the string, or another slash
    | Unknown                                // a character no element starts with
    | TooLarge(digits: seq<Digit>)           // a number of 2^31 or more
    | Followed(item: Item)                   // a number and its mark, and then something that cannot follow
    | Wild                                   // a second wildcard, or one where none is allowed
    | WildFollowed(mark: Option<char>)       // a wildcard and its mark, and then no slash
    | Grouped                                // a second group, or one where none is allowed
    | EmptyStart                             // a group that starts without a number
    | Unclosed                               // a group that does not end
    | BadGroup(items: seq<Item>)             // too few or many alternatives, an empty one, or an unfit one chosen
    | Broken(items: seq<Item>)               // alternatives, and then neither a semicolon nor the end of the group

  /** A text with this flaw; what comes after it does not matter. */
  ghost predicate Flawed(t: string, f: Flaw, q: Request, mayWildcard: bool, mayGroup: bool) {
    match f
    case Missing => t == "" || t[0] == '/'
    case Unknown => t != "" && !('0' <= t[0] <= '9') && t[0] !in "/*<"
    case TooLarge(d) => d != [] && Value(d, 10) >= 0x8000_0000 && PrintDigits(d) <= t
    case Followed(item) =>
      && ItemShaped(item, q.allowUpper) && PrintItem(item) <= t && |PrintItem(item)| < |t|
      && CannotFollow(t[|PrintItem(item)|], item.mark.Some?, q.allowUpper, mayGroup)
    case Wild => t != "" && t[0] == '*' && !mayWildcard
    case WildFollowed(mark) =>
      && MarkOk(mark, q.allowUpper) && "*" + PrintMark(mark) <= t && 1 + |PrintMark(mark)| < |t|
      && t[1 + |PrintMark(mark)|] != '/' && (mark.None? ==> !IsMark(t[1], q.allowUpper))
    case Grouped => t != "" && t[0] == '<' && !mayGroup
    case EmptyStart => |t| > 1 && t[0] == '<' && !('0' <= t[1] <= '9')
    case Unclosed => t != "" && t[0] == '<' && '>' !in t
    case BadGroup(items) =>
      items != [] && MarksOk(items, q.allowUpper) && PrintElement(Group(items)) <= t && !GroupOk(items, q)
    case Broken(items) =>
      && items != [] && MarksOk(items, q.allowUpper) && "<" + PrintItems(items) <= t && 1 + |PrintItems(items)| < |t|
      && var c := t[1 + |PrintItems(items)|]; !('0' <= c <= '9') && c !in "'hH;>"
  }

  /** After a number: a digit would belong to it, and so would a mark if it has none; a slash or group may come. */
  predicate CannotFollow(c: char, marked: bool, allowUpper: bool, mayGroup: bool) {
    && !('0' <= c <= '9') && c != '/' && (marked || !(c in "'h" || (allowUpper && c == 'H')))
    && (c == '<' ==> !mayGroup)
  }

  // ---------------------------------------------------------------- numbers

  lemma PrefixAt(str: string, i: nat, t: string, a: string)
    requires Tail(str, i, t) && a <= t
    ensures At(str, i, a)
  {
    forall k | 0 <= k < |a|
      ensures str[i + k] == a[k]
    {
      assert t[k] == a[k];
    }
  }

  lemma TailAt(str: string, i: nat, t: string, k: nat)
    requires Tail(str, i, t) && k < |t|
    ensures i + k < |str| && str[i + k] == t[k]
  {
  }

  lemma LargeFails(str: string, s: State, t: string, d: seq<Digit>, q: Request)
    requires Tail(str, s.i, t) && d != [] && Value(d, 10) >= 0x8000_0000 && PrintDigits(d) <= t && q.childNum < HARDENED
    ensures s.i < |str| && IsDigit(str[s.i]) && Step(str, q, s) == None
  {
    hide ReadNumber;
    PrefixAt(str, s.i, t, PrintDigits(d));
    assert str[s.i + 0] == PrintDigits(d)[0];
    assert d[..0] == [];
    DigitsTooLarge(str, s.i, d, 0);
  }

  lemma FollowedFails(str: string, s: State, t: string, item: Item, q: Request)
    requires Flawed(t, Followed(item), q, s.mayWildcard, s.mayGroup) && Tail(str, s.i, t) && q.childNum < HARDENED
    ensures ParseFrom(str, q, s) == None
  {
    hide ReadNumber, Value, ParseFrom, GroupStep, WildcardStep, SlashStep;
    var d, n := PrintDigits(item.digits), |PrintItem(item)|;
    PrefixAt(str, s.i, t, PrintItem(item));
    AtSplit(str, s.i, d, PrintMark(item.mark));
    assert str[s.i + 0] == d[0];
    TailAt(str, s.i, t, n);
    if item.mark.Some? { AtChar(str, s.i + |d|, item.mark.value, ""); }
    assert str[s.i + (|d| - 1)] == d[|d| - 1];
    NumberRead(str, s.i, item.digits);
    if Fits(item) {
      NumberThen(str, s, item, q);
      var x := Step(str, q, s).value;
      NothingFollows(str, x, q, item.mark.Some?);
      ParseStep(str, s, x, q);
      ParseStops(str, x, q);
    } else {
      ParseStops(str, s, q);
    }
  }

  lemma NumberThen(str: string, s: State, item: Item, q: Request)
    requires s.i < |str| && IsDigit(str[s.i]) && q.childNum < HARDENED && ItemShaped(item, q.allowUpper) && Fits(item)
    requires var j := s.i + |item.digits|;
             && j <= |str| && ReadNumber(str, s.i, 0) == Some((Value(item.digits, 10), j))
             && SkipMark(str, j, q.allowUpper) == s.i + |PrintItem(item)|
    ensures Step(str, q, s).Some? && Step(str, q, s).value.i == s.i + |PrintItem(item)|
    ensures Step(str, q, s).value.mayGroup == s.mayGroup
  {
    hide ReadNumber, Value;
  }

  lemma NothingFollows(str: string, s: State, q: Request, marked: bool)
    requires 0 < s.i < |str| && q.childNum < HARDENED && str[s.i - 1] != '/'
    requires CannotFollow(str[s.i], marked, q.allowUpper, s.mayGroup)
    ensures Step(str, q, s) == None
  {
  }

  lemma ParseStops(str: string, s: State, q: Request)
    requires s.i < |str| && q.childNum < HARDENED && Step(str, q, s) == None
    ensures ParseFrom(str, q, s) == None
  {
  }

  // ---------------------------------------------------------------- wildcards and groups

  lemma WildFollowedFails(str: string, s: State, t: string, mark: Option<char>, q: Request)
    requires Flawed(t, WildFollowed(mark), q, s.mayWildcard, s.mayGroup) && Tail(str, s.i, t) && q.childNum < HARDENED
    ensures s.i < |str| && Step(str, q, s) == None
  {
    var n := 1 + |PrintMark(mark)|;
    PrefixAt(str, s.i, t, "*" + PrintMark(mark));
    AtChar(str, s.i, '*', PrintMark(mark));
    TailAt(str, s.i, t, n);
    if mark.Some? { AtChar(str, s.i + 1, mark.value, ""); }
  }

  /** Without a closing bracket behind it no group is read. */
  lemma UnclosedFails(str: string, s: State, q: Request)
    requires s.i < |str| && str[s.i] == '<' && q.childNum < HARDENED && forall k :: s.i <= k < |str| ==> str[k] != '>'
    ensures Step(str, q, s) == None
  {
    hide ReadNumber, SkipBefore, SkipAfter;
  }

  lemma NoMore(str: string, k: nat, close: nat)
    requires Closed(str, k, PrintMoreItems([]), close)
    ensures k == close
  {
  }

  /** Some alternative has no number. */
  predicate AnyEmpty(items: seq<Item>) {
    items != [] && (items[0].digits == [] || AnyEmpty(items[1..]))
  }

  lemma {:induction false} EmptyOrShaped(items: seq<Item>, allowUpper: bool)
    requires MarksOk(items, allowUpper)
    ensures AnyEmpty(items) || ItemsShaped(items, allowUpper)
  {
    if items != [] { EmptyOrShaped(items[1..], allowUpper); }
  }

  lemma SkipNone(str: string, s: Scan, todo: nat, allowUpper: bool, k: nat)
    requires 0 < todo && s.i < |str| && k == SkipMark(str, SkipDigits(str, s.i), allowUpper)
    requires SkipDigits(str, s.i) == s.i || k == |str| || str[k] != ';'
    ensures SkipBefore(str, s, todo, allowUpper) == None
  {
  }

  /** The scan for the alternative runs into an empty one, or into what follows the last. */
  lemma {:induction false} BeforeFails(str: string, s: Scan, items: seq<Item>, todo: nat, close: nat, q: Request)
    requires items != [] && MarksOk(items, q.allowUpper) && Closed(str, s.i, PrintItems(items), close)
    requires str[close] != ';' && todo > 0 && (|items| <= todo || AnyEmpty(items[..todo]))
    ensures s.i <= |str| && SkipBefore(str, s, todo, q.allowUpper) == None
    decreases todo
  {
    hide PrintItem, PrintItems, PrintMoreItems, Fits, SkipDigits, SkipMark, ReadNumber, Closed, AnyEmpty, SkipBefore;
    var j, k := FirstRead(str, s.i, items, close, q);
    if items[0].digits == [] {
      SkipNone(str, s, todo, q.allowUpper, k);
    } else if |items| == 1 {
      assert items[1..] == [];
      NoMore(str, k, close);
      SkipNone(str, s, todo, q.allowUpper, k);
    } else {
      SkipOneBefore(str, s, todo, q.allowUpper, j, k);
      if |items| > todo { EmptyBehind(items, todo); }
      BeforeFails(str, Scan(k + 1, s.hardened || k > j, s.count + 1), items[1..], todo - 1, close, q);
    }
  }

  lemma EmptyBehind(items: seq<Item>, todo: nat)
    requires 0 < todo <= |items| && AnyEmpty(items[..todo]) && items[0].digits != []
    ensures todo > 1 && AnyEmpty(items[1..][..todo - 1])
  {
    assert items[..todo][1..] == items[1..][..todo - 1];
  }

  lemma AfterNone(str: string, s: Scan, allowUpper: bool)
    requires s.i < |str| && str[s.i] != '>'
    requires var i := if str[s.i] == ';' then s.i + 1 else s.i; SkipDigits(str, i) == i
    ensures SkipAfter(str, s, allowUpper) == None
  {
  }

  /** The scan behind the alternative asked for runs into an empty one, or into what is not the end of the group. */
  lemma {:induction false} AfterFails(str: string, s: Scan, items: seq<Item>, close: nat, q: Request)
    requires MarksOk(items, q.allowUpper) && Closed(str, s.i, PrintMoreItems(items), close)
    requires str[close] != ';' && (AnyEmpty(items) || str[close] != '>')
    ensures SkipAfter(str, s, q.allowUpper) == None
    decreases |items|
  {
    hide PrintItem, PrintItems, Fits, SkipMark, ReadNumber, SkipAfter;
    if items == [] {
      AfterNone(str, s, q.allowUpper);
    } else {
      MoreRead(str, s.i, items, close);
      var j, k := FirstRead(str, s.i + 1, items, close, q);
      if items[0].digits == [] {
        AfterNone(str, s, q.allowUpper);
      } else {
        SkipOneAfter(str, s, q.allowUpper, j, k);
        AfterFails(str, Scan(k, s.hardened || k > j, s.count + 1), items[1..], close, q);
      }
    }
  }

  lemma ChosenUnfit(str: string, q: Request, s: State, b: Scan)
    requires s.i < b.i <= |str| && ReadNumber(str, b.i, 0) == None
    ensures ChosenStep(str, q, s, b) == None
  {
  }

  lemma ChosenMiscounted(str: string, q: Request, s: State, b: Scan, v: nat, j: nat, k: nat, a: Option<Scan>)
    requires s.i < b.i <= |str| && ReadNumber(str, b.i, 0) == Some((v, j)) && k == SkipMark(str, j, q.allowUpper)
    requires SkipAfter(str, Scan(k, b.hardened || k > j, b.count + 1), q.allowUpper) == a
    requires a.Some? ==> !(2 <= a.value.count < 255)
    ensures ChosenStep(str, q, s, b) == None
  {
  }

  /** What is wrong with a group, when the alternatives before the one asked for are not. */
  lemma ChosenFlaw(items: seq<Item>, q: Request)
    requires MarksOk(items, q.allowUpper) && q.multiIndex < |items| && !GroupOk(items, q)
    requires ItemsShaped(items[..q.multiIndex], q.allowUpper) && items[0].digits != []
    ensures var m := q.multiIndex;
            !(2 <= |items| < 255) || !Fits(items[m]) || AnyEmpty(items[m + 1..])
  {
    hide Fits;
    var m := q.multiIndex;
    EmptyOrShaped(items[m + 1..], q.allowUpper);
    if 2 <= |items| < 255 && Fits(items[m]) && !AnyEmpty(items[m + 1..]) {
      forall i | 0 <= i < |items| && (i != m || i == 0)
        ensures items[i].digits != []
      {
        if i < m {
          assert items[..m][i] == items[i];
        } else if i > m {
          assert items[m + 1..][i - m - 1] == items[i];
        }
      }
    }
  }

  /** From the alternative asked for on. */
  lemma ChosenFails(str: string, s: State, b: Scan, items: seq<Item>, close: nat, q: Request)
    requires MarksOk(items, q.allowUpper) && s.i < b.i && b.count == q.multiIndex < |items|
    requires Closed(str, b.i, PrintItems(items[q.multiIndex..]), close) && str[close] != ';'
    requires ItemsShaped(items[..q.multiIndex], q.allowUpper) && items[0].digits != []
    requires str[close] != '>' || !GroupOk(items, q)
    ensures b.i <= |str| && ChosenStep(str, q, s, b) == None
  {
    hide PrintItem, PrintItems, PrintMoreItems, SkipAfter, ReadNumber, SkipDigits, SkipMark, Fits, ChosenStep, Closed,
        AnyEmpty, GroupOk, Value, ItemsShaped, AnyMarked;
    var m := q.multiIndex;
    assert items[m..][0] == items[m] && items[m..][1..] == items[m + 1..];
    var j, k := FirstRead(str, b.i, items[m..], close, q);
    if !Fits(items[m]) {
      ChosenUnfit(str, q, s, b);
    } else {
      var from := Scan(k, b.hardened || k > j, m + 1);
      if str[close] != '>' || AnyEmpty(items[m + 1..]) {
        AfterFails(str, from, items[m + 1..], close, q);
        ChosenMiscounted(str, q, s, b, Value(items[m].digits, 10), j, k, None);
      } else {
        ChosenFlaw(items, q);
        EmptyOrShaped(items[m + 1..], q.allowUpper);
        var a := AfterRead(str, from, items[m + 1..], close, q);
        ChosenMiscounted(str, q, s, b, Value(items[m].digits, 10), j, k, Some(a));
      }
    }
  }

  lemma GroupNone(str: string, q: Request, s: State)
    requires s.i + 1 < |str| && IsDigit(str[s.i + 1])
    requires SkipBefore(str, Scan(s.i + 1, s.features.hardened, 0), q.multiIndex, q.allowUpper) == None
    ensures GroupStep(str, q, s) == None
  {
  }

  lemma GroupFails(str: string, s: State, items: seq<Item>, close: nat, q: Request)
    requires items != [] && MarksOk(items, q.allowUpper) && s.i < |str| && str[s.i] == '<' && q.childNum < HARDENED
    requires Closed(str, s.i + 1, PrintItems(items), close) && str[close] != ';'
    requires str[close] != '>' || !GroupOk(items, q)
    ensures Step(str, q, s) == None
  {
    hide PrintItem, PrintItems, Fits, SkipBefore, SkipDigits, ReadNumber, ChosenStep, Closed, AnyEmpty, GroupOk,
        GroupStep, ItemsShaped, AnyMarked;
    var m, from := q.multiIndex, Scan(s.i + 1, s.features.hardened, 0);
    var j, k := FirstRead(str, s.i + 1, items, close, q);
    if items[0].digits == [] {
      NoFirst(str, s, q);
    } else {
      if m > 0 && (|items| <= m || AnyEmpty(items[..m])) {
        BeforeFails(str, from, items, m, close, q);
        GroupNone(str, q, s);
      } else {
        EmptyOrShaped(items[..Min(m, |items|)], q.allowUpper);
        if m == 0 { NoneEmpty(items); }
        var b := BeforeRead(str, from, items, m, close, q);
        GroupUnfold(str, q, s, b);
        ChosenFails(str, s, b, items, close, q);
      }
    }
  }

  lemma NoneEmpty(items: seq<Item>)
    ensures !AnyEmpty(items[..0])
  {
  }

  lemma BadGroupFails(str: string, s: State, t: string, items: seq<Item>, q: Request)
    requires Flawed(t, BadGroup(items), q, s.mayWildcard, s.mayGroup) && Tail(str, s.i, t) && q.childNum < HARDENED
    ensures s.i < |str| && str[s.i] == '<' && Step(str, q, s) == None
  {
    hide PrintItem, PrintItems, At, Closed, Tail, GroupOk, Step;
    PrefixAt(str, s.i, t, PrintElement(Group(items)));
    GroupText(items, str, s.i);
    GroupFails(str, s, items, s.i + 1 + |PrintItems(items)|, q);
  }

  lemma BrokenFails(str: string, s: State, t: string, items: seq<Item>, q: Request)
    requires Flawed(t, Broken(items), q, s.mayWildcard, s.mayGroup) && Tail(str, s.i, t) && q.childNum < HARDENED
    ensures s.i < |str| && str[s.i] == '<' && Step(str, q, s) == None
  {
    hide PrintItem, PrintItems, At, Tail, GroupOk, Step;
    PrefixAt(str, s.i, t, "<" + PrintItems(items));
    AtChar(str, s.i, '<', PrintItems(items));
    TailAt(str, s.i, t, 1 + |PrintItems(items)|);
    InText(str, s.i + 1, PrintItems(items));
    GroupFails(str, s, items, s.i + 1 + |PrintItems(items)|, q);
  }

  lemma InText(str: string, i: nat, t: string)
    requires At(str, i, t)
    ensures i + |t| <= |str|
  {
  }

  /** A flawed text is not read on, whatever follows the flaw. */
  lemma FlawFails(str: string, s: State, t: string, f: Flaw, q: Request)
    requires Flawed(t, f, q, s.mayWildcard, s.mayGroup) && !f.Missing? && Tail(str, s.i, t) && q.childNum < HARDENED
    ensures s.i < |str| && ParseFrom(str, q, s) == None
  {
    hide GroupStep, NumberStep, WildcardStep, SlashStep, ParseFrom, PrintItem, PrintItems, GroupOk, Value;
    if t != "" { TailAt(str, s.i, t, 0); }
    match f
    case Unknown => ParseStops(str, s, q);
    case TooLarge(d) =>
      LargeFails(str, s, t, d, q);
      ParseStops(str, s, q);
    case Followed(item) => FollowedFails(str, s, t, item, q);
    case Wild =>
      NoWildcard(str, s, q);
      ParseStops(str, s, q);
    case WildFollowed(mark) =>
      WildFollowedFails(str, s, t, mark, q);
      ParseStops(str, s, q);
    case Grouped => ParseStops(str, s, q);
    case EmptyStart =>
      TailAt(str, s.i, t, 1);
      NoFirst(str, s, q);
      ParseStops(str, s, q);
    case Unclosed =>
      forall k | s.i <= k < |str|
        ensures str[k] != '>'
      {
        TailAt(str, s.i, t, k - s.i);
      }
      UnclosedFails(str, s, q);
      ParseStops(str, s, q);
    case BadGroup(items) =>
      BadGroupFails(str, s, t, items, q);
      ParseStops(str, s, q);
    case Broken(items) =>
      BrokenFails(str, s, t, items, q);
      ParseStops(str, s, q);
  }

  lemma NoWildcard(str: string, s: State, q: Request)
    requires s.i < |str| && str[s.i] == '*' && !s.mayWildcard && q.childNum < HARDENED
    ensures Step(str, q, s) == None
  {
  }

  lemma NoFirst(str: string, s: State, q: Request)
    requires s.i + 1 < |str| && str[s.i] == '<' && !IsDigit(str[s.i + 1]) && q.childNum < HARDENED
    ensures Step(str, q, s) == None
  {
  }

  // ---------------------------------------------------------------- paths

  /** The text of elements and a slash, up to whatever comes then. */
  function Before(es: seq<Element>): string {
    if es == [] then "" else PrintElements(es) + "/"
  }

  lemma BeforeSplits(es: seq<Element>)
    requires es != []
    ensures Before(es) == PrintElement(es[0]) + ("/" + Before(es[1..]))
  {
    hide PrintElement;
    if es[1..] == [] {
      assert PrintElements(es) == PrintElement(es[0]) + "";
    } else {
      assert PrintElements(es) == PrintElement(es[0]) + (['/'] + PrintElements(es[1..]));
    }
  }

  /** Elements are read up to the slash behind the last one. */
  lemma {:induction false} ElementsBefore(str: string, s: State, es: seq<Element>, t: string, q: Request)
      returns (x: State)
    requires es != [] && q.childNum < HARDENED && Writable(es, q, s.mayWildcard, s.mayGroup)
    requires Tail(str, s.i, Before(es) + t) && MayStart(str, s.i, es[0])
    ensures 0 < x.i < |str| && str[x.i] == '/' && Tail(str, x.i + 1, t)
    ensures ParseFrom(str, q, s) == ParseFrom(str, q, x)
    ensures SlashMayFollow(str[x.i - 1], q.allowUpper, x.features.hardened)
    ensures x.mayWildcard == (s.mayWildcard && !HasWildcard(es)) && x.mayGroup == (s.mayGroup && !HasGroup(es))
    decreases |es|
  {
    hide Step, ParseFrom, PrintElement, PrintElements, PrintMore, Before, ElementOk, Tail, At, SlashMayFollow;
    var rest := Before(es[1..]) + t;
    BeforeSplits(es);
    assert Before(es) + t == PrintElement(es[0]) + (['/'] + rest);
    ElementStarts(es[0], q);
    TailSplit(str, s.i, PrintElement(es[0]), ['/'] + rest);
    var j := s.i + |PrintElement(es[0])|;
    TailSplit(str, j, ['/'], rest);
    ElementTo(str, s, es[0], j, q);
    x := After(s, es[0], q, j);
    if es[1..] == [] {
      BeforeNothing(t);
    } else {
      ElementStarts(es[1], q);
      BeforeSplits(es[1..]);
      assert rest == PrintElement(es[1]) + ("/" + Before(es[1..][1..]) + t);
      TailSplit(str, j + 1, PrintElement(es[1]), "/" + Before(es[1..][1..]) + t);
      SlashRead(str, x, q);
      ParseStep(str, x, x.(i := j + 1), q);
      x := ElementsBefore(str, x.(i := j + 1), es[1..], t, q);
    }
  }

  lemma BeforeNothing(t: string)
    ensures Before([]) + t == t
  {
  }

  /** A slash at the end, or before another one, is not read. */
  lemma SlashFails(str: string, s: State, t: string, q: Request)
    requires s.i < |str| && str[s.i] == '/' && Tail(str, s.i + 1, t) && (t == "" || t[0] == '/')
    requires q.childNum < HARDENED
    ensures ParseFrom(str, q, s) == None
  {
    if t != "" { TailAt(str, s.i + 1, t, 0); }
  }

  /** After a slash another one is not read. */
  lemma SecondSlashFails(str: string, s: State, q: Request)
    requires 0 < s.i < |str| && str[s.i] == '/' == str[s.i - 1] && q.childNum < HARDENED
    ensures ParseFrom(str, q, s) == None
  {
  }

  lemma Behind(str: string, s: State, es: seq<Element>, t: string, f: Flaw, q: Request)
    requires es != [] && q.childNum < HARDENED && Writable(es, q, s.mayWildcard, s.mayGroup)
    requires Tail(str, s.i, Before(es) + t) && MayStart(str, s.i, es[0])
    requires Flawed(t, f, q, s.mayWildcard && !HasWildcard(es), s.mayGroup && !HasGroup(es))
    ensures ParseFrom(str, q, s) == None
  {
    hide Step, ParseFrom, Before, Writable, HasWildcard, HasGroup, Tail;
    var x := ElementsBefore(str, s, es, t, q);
    if f.Missing? {
      SlashFails(str, x, t, q);
    } else {
      FlawFails(str, x.(i := x.i + 1), t, f, q);
      NotSlash(str, x, t, f, q);
      SlashRead(str, x, q);
      ParseStep(str, x, x.(i := x.i + 1), q);
    }
  }

  lemma NotSlash(str: string, s: State, t: string, f: Flaw, q: Request)
    requires Flawed(t, f, q, s.mayWildcard, s.mayGroup) && !f.Missing? && Tail(str, s.i + 1, t)
    ensures s.i + 1 < |str| && str[s.i + 1] != '/'
  {
    hide PrintItems, GroupOk, Value;
    if f.TooLarge? { assert t[0] == PrintDigits(f.digits)[0]; }
    if f.Followed? { assert t[0] == PrintItem(f.item)[0] == PrintDigits(f.item.digits)[0]; }
    if f.WildFollowed? { assert t[0] == ("*" + PrintMark(f.mark))[0]; }
    if f.BadGroup? { assert t[0] == PrintElement(Group(f.items))[0]; }
    if f.Broken? { assert t[0] == ("<" + PrintItems(f.items))[0]; }
    TailAt(str, s.i + 1, t, 0);
  }

  /**
   A path that is written as it may be up to a flaw is refused, whatever comes after the flaw. Only at the very start,
   and unless the path must be bare, a slash or an m could be taken for the prefix.
   */
  lemma ParseRefused(prefix: string, es: seq<Element>, t: string, f: Flaw, childNum: uint32, multiIndex: uint32,
      flags: PathFlags)
    requires PrefixOk(prefix, flags) && PrefixFits(prefix, es)
    requires var q := Request(childNum, multiIndex, flags.allowUpper);
             && Writable(es, q, flags.wildcard, flags.multipath)
             && Flawed(t, f, q, flags.wildcard && !HasWildcard(es), flags.multipath && !HasGroup(es))
    requires es == [] && prefix in {"", "m", "M"} && t != "" && !flags.bare ==> t[0] !in "/mM"
    ensures Parse(prefix + Before(es) + t, childNum, multiIndex, flags) == None
  {
    hide ParseFrom, Start, Before, Writable, Tail, Flawed, HasWildcard, HasGroup;
    var q := Request(childNum, multiIndex, flags.allowUpper);
    var str := prefix + Before(es) + t;
    if !InvalidRequest(str, childNum, multiIndex, flags) {
      assert str == prefix + (Before(es) + t);
      TailOfConcat(prefix, Before(es) + t);
      var s := StateAfter(prefix, flags);
      if es != [] {
        FirstChar(str, |prefix|, es, t, q, flags);
        FirstMayStart(str, prefix, Before(es) + t, es, flags);
        StartAfter(str, prefix, flags);
        Behind(str, s, es, t, f, q);
      } else {
        BeforeNothing(t);
        NoElements();
        if flags.bare && t[0] == '/' {
          BareSlash(str, flags);
        } else {
          StartBefore(str, prefix, t, flags);
          if prefix !in {"", "m", "M"} { PrefixEnds(str, prefix, t, flags); }
          FromStart(str, s, t, f, q);
        }
      }
    }
  }

  lemma BareSlash(str: string, flags: PathFlags)
    requires str != "" && str[0] == '/' && flags.bare
    ensures Start(str, flags) == None
  {
  }

  lemma FirstMayStart(str: string, prefix: string, rest: string, es: seq<Element>, flags: PathFlags)
    requires es != [] && PrefixOk(prefix, flags) && PrefixFits(prefix, es) && str == prefix + rest
    ensures MayStart(str, |prefix|, es[0])
  {
  }

  lemma FirstChar(str: string, i: nat, es: seq<Element>, t: string, q: Request, flags: PathFlags)
    requires es != [] && Writable(es, q, flags.wildcard, flags.multipath) && Tail(str, i, Before(es) + t)
    ensures i < |str| && str[i] != '/' && str[i] != 'm' && str[i] != 'M'
  {
    hide PrintElement, Before, ElementOk, Tail, At;
    BeforeSplits(es);
    assert Before(es) + t == PrintElement(es[0]) + ("/" + Before(es[1..]) + t);
    ElementStarts(es[0], q);
    TailSplit(str, i, PrintElement(es[0]), "/" + Before(es[1..]) + t);
  }

  lemma StartBefore(str: string, prefix: string, t: string, flags: PathFlags)
    requires str != "" && str == prefix + t && PrefixOk(prefix, flags)
    requires prefix in {"", "m", "M"} && t != "" ==> t[0] !in (if flags.bare then "/" else "/mM")
    ensures Start(str, flags) == Some(StateAfter(prefix, flags))
  {
    if prefix != "" {
      assert str[0] == prefix[0];
      if |prefix| == 2 { assert str[1] == prefix[1]; }
    } else {
      assert str == t && t[0] != '/' && (flags.bare || (t[0] != 'm' && t[0] != 'M'));
    }
  }

  lemma NoElements()
    ensures !HasWildcard([]) && !HasGroup([])
  {
  }

  lemma PrefixEnds(str: string, prefix: string, t: string, flags: PathFlags)
    requires str == prefix + t && PrefixOk(prefix, flags) && prefix !in {"", "m", "M"}
    ensures str[|prefix| - 1] == '/'
  {
  }

  /** Nothing is accepted before the first element. */
  lemma FromStart(str: string, s: State, t: string, f: Flaw, q: Request)
    requires Tail(str, s.i, t) && q.childNum < HARDENED && Flawed(t, f, q, s.mayWildcard, s.mayGroup)
    requires s.path == [] && (t != "" && t[0] == '/' ==> s.i > 0 && str[s.i - 1] == '/')
    ensures s.i <= |str|
    ensures var r := ParseFrom(str, q, s); r.Some? ==> r.value.path == []
  {
    if t == "" {
    } else {
      TailAt(str, s.i, t, 0);
      if f.Missing? {
        SecondSlashFails(str, s, q);
      } else {
        FlawFails(str, s, t, f, q);
      }
    }
  }

  // ---------------------------------------------------------------- printed paths

  /** Elements of digits, marks and brackets, whatever the numbers and however many; alternatives may be empty. */
  ghost predicate Shaped(e: Element, allowUpper: bool) {
    match e
    case Child(item) => ItemShaped(item, allowUpper)
    case Wildcard(mark) => MarkOk(mark, allowUpper)
    case Group(items) => items != [] && MarksOk(items, allowUpper)
  }

  /** What is wrong with a shaped element that may not be written here. */
  function FlawOf(e: Element, q: Request): Flaw {
    match e
    case Child(item) => TooLarge(item.digits)
    case Wildcard(mark) => Wild
    case Group(items) => if GroupOk(items, q) then Grouped else BadGroup(items)
  }

  lemma FlawedElement(e: Element, rest: string, q: Request, mayWildcard: bool, mayGroup: bool)
    requires Shaped(e, q.allowUpper)
    requires !(ElementOk(e, q) && (e.Wildcard? ==> mayWildcard) && (e.Group? ==> mayGroup))
    ensures Flawed(PrintElement(e) + rest, FlawOf(e, q), q, mayWildcard, mayGroup)
    ensures PrintElement(e) != "" && PrintElement(e)[0] !in "/mM"
  {
    hide Value, PrintItems, GroupOk, IsDigit;
    var t := PrintElement(e) + rest;
    match e
    case Child(item) =>
      assert t == PrintDigits(item.digits) + (PrintMark(item.mark) + rest);
      assert t[0] == PrintDigits(item.digits)[0];
    case Wildcard(mark) => assert t[0] == '*';
    case Group(items) => assert t[0] == '<';
  }

  /** The first element that may not be written where it stands. */
  lemma {:induction false} FirstFlaw(es: seq<Element>, q: Request, mayWildcard: bool, mayGroup: bool) returns (m: nat)
    requires !Writable(es, q, mayWildcard, mayGroup)
    ensures m < |es| && Writable(es[..m], q, mayWildcard, mayGroup)
    ensures var w, g := mayWildcard && !HasWildcard(es[..m]), mayGroup && !HasGroup(es[..m]);
            !(ElementOk(es[m], q) && (es[m].Wildcard? ==> w) && (es[m].Group? ==> g))
  {
    hide ElementOk;
    if ElementOk(es[0], q) && (es[0].Wildcard? ==> mayWildcard) && (es[0].Group? ==> mayGroup) {
      m := FirstFlaw(es[1..], q, mayWildcard && !es[0].Wildcard?, mayGroup && !es[0].Group?);
      m := m + 1;
      assert es[..m][0] == es[0] && es[..m][1..] == es[1..][..m - 1];
    } else {
      m := 0;
      assert es[..0] == [];
    }
  }

  lemma PrintUnfold(es: seq<Element>)
    requires es != []
    ensures PrintElements(es) == PrintElement(es[0]) + PrintMore(es[1..])
    ensures es[1..] != [] ==> PrintMore(es[1..]) == "/" + PrintElements(es[1..])
  {
  }

  lemma {:induction false} PrintSplits(es: seq<Element>, m: nat)
    requires m < |es|
    ensures PrintElements(es) == Before(es[..m]) + (PrintElement(es[m]) + PrintMore(es[m + 1..]))
    decreases m
  {
    hide PrintElement, PrintElements, PrintMore, Before;
    var rest := PrintElement(es[m]) + PrintMore(es[m + 1..]);
    PrintUnfold(es);
    if m == 0 {
      assert es[..0] == [];
      BeforeNothing(rest);
    } else {
      PrintSplits(es[1..], m - 1);
      assert es[1..][..m - 1] == es[..m][1..] && es[1..][m..] == es[m + 1..];
      BeforeSplits(es[..m]);
      var a, b := PrintElement(es[0]), Before(es[..m][1..]);
      assert a + ("/" + (b + rest)) == (a + ("/" + b)) + rest;
    }
  }

  /** Too many elements are read, but not accepted. */
  lemma TooLong(prefix: string, es: seq<Element>, childNum: uint32, multiIndex: uint32, flags: PathFlags)
    requires PrefixOk(prefix, flags) && PrefixFits(prefix, es) && |es| > 255
    requires Writable(es, Request(childNum, multiIndex, flags.allowUpper), flags.wildcard, flags.multipath)
    ensures Parse(PrintPath(prefix, es), childNum, multiIndex, flags) == None
  {
    hide Step, ParseFrom, Start, AfterAll, PrintPath, ElementOk, Tail, ChildNumbers;
    var q := Request(childNum, multiIndex, flags.allowUpper);
    var str := PrintPath(prefix, es);
    StartRead(prefix, es, q, flags);
    var s := Start(str, flags).value;
    if childNum < HARDENED {
      ElementsRead(str, s, es, q);
      AfterAllPath(s, es, q);
    }
  }

  /**
   For every printed path, whatever its numbers, wildcards and groups: it is accepted if and only if it has 1 to 255
   elements, numbers below 2^31 where they count, at most one wildcard and one group, both allowed, a group of 2 to 254
   alternatives with the one asked for, a wildcard for a child number asked for and a group for an alternative.
   */
  lemma AcceptedIff(prefix: string, es: seq<Element>, childNum: uint32, multiIndex: uint32, flags: PathFlags)
    requires PrefixOk(prefix, flags) && PrefixFits(prefix, es)
    requires forall i :: 0 <= i < |es| ==> Shaped(es[i], flags.allowUpper)
    ensures var q := Request(childNum, multiIndex, flags.allowUpper);
            Parse(PrintPath(prefix, es), childNum, multiIndex, flags).Some? <==>
            && !flags.undefined && 1 <= |es| <= 255 && childNum < 0x8000_0000
            && Writable(es, q, flags.wildcard, flags.multipath)
            && (childNum == 0 || HasWildcard(es)) && (multiIndex == 0 || HasGroup(es))
            && (childNum == 0 || flags.wildcard) && (multiIndex == 0 || flags.multipath)
  {
    hide ParseFrom, PrintPath, Start, ElementOk, HasWildcard, HasGroup, Shaped, PrintElement, ChildNumbers, FeaturesOf;
    var q := Request(childNum, multiIndex, flags.allowUpper);
    var str := PrintPath(prefix, es);
    if InvalidRequest(str, childNum, multiIndex, flags) {
      if str == "" { PrintNothing(prefix, es, q, flags); }
    } else if es == [] {
      NothingAccepted(prefix, es, childNum, multiIndex, flags);
    } else if !Writable(es, q, flags.wildcard, flags.multipath) {
      NotWritable(prefix, es, childNum, multiIndex, flags);
    } else if |es| > 255 {
      TooLong(prefix, es, childNum, multiIndex, flags);
    } else {
      ParsePrinted(prefix, es, childNum, multiIndex, flags);
    }
  }

  lemma PrintNothing(prefix: string, es: seq<Element>, q: Request, flags: PathFlags)
    requires PrintPath(prefix, es) == ""
    ensures prefix == "" && (es == [] || !Writable(es, q, flags.wildcard, flags.multipath))
  {
    if es != [] && ElementOk(es[0], q) { ElementStarts(es[0], q); }
  }

  lemma NothingAccepted(prefix: string, es: seq<Element>, childNum: uint32, multiIndex: uint32, flags: PathFlags)
    requires PrefixOk(prefix, flags) && es == []
    ensures Parse(PrintPath(prefix, es), childNum, multiIndex, flags) == None
  {
    hide ParseFrom, Start, Flawed;
    assert PrintPath(prefix, es) == prefix + Before([]) + "";
    EndIsMissing(Request(childNum, multiIndex, flags.allowUpper), flags);
    ParseRefused(prefix, [], "", Missing, childNum, multiIndex, flags);
  }

  lemma EndIsMissing(q: Request, flags: PathFlags)
    ensures Flawed("", Missing, q, flags.wildcard && !HasWildcard([]), flags.multipath && !HasGroup([]))
  {
  }

  lemma NotWritable(prefix: string, es: seq<Element>, childNum: uint32, multiIndex: uint32, flags: PathFlags)
    requires PrefixOk(prefix, flags) && PrefixFits(prefix, es)
    requires forall i :: 0 <= i < |es| ==> Shaped(es[i], flags.allowUpper)
    requires !Writable(es, Request(childNum, multiIndex, flags.allowUpper), flags.wildcard, flags.multipath)
    ensures Parse(PrintPath(prefix, es), childNum, multiIndex, flags) == None
  {
    hide Parse, ElementOk, HasWildcard, HasGroup, Shaped, PrintElement, PrintElements, PrintMore, Writable, Flawed,
        Before;
    var q := Request(childNum, multiIndex, flags.allowUpper);
    var m := FirstFlaw(es, q, flags.wildcard, flags.multipath);
    var w, g := flags.wildcard && !HasWildcard(es[..m]), flags.multipath && !HasGroup(es[..m]);
    var t := PrintElement(es[m]) + PrintMore(es[m + 1..]);
    FlawedElement(es[m], PrintMore(es[m + 1..]), q, w, g);
    PrintSplits(es, m);
    assert prefix + (Before(es[..m]) + t) == prefix + Before(es[..m]) + t;
    ParseRefused(prefix, es[..m], t, FlawOf(es[m], q), childNum, multiIndex, flags);
  }

  /** A group without the alternative asked for. */
  ghost predicate OutOfRange(e: Element, q: Request) {
    e.Group? && e.items != [] && |e.items| <= q.multiIndex && MarksOk(e.items, q.allowUpper)
  }

  /**
   So a path that is written as it may be up to a group without the alternative asked for is refused, whatever is
   written after that group.
   */
  lemma ParseOutOfRange(prefix: string, es: seq<Element>, m: nat, childNum: uint32, multiIndex: uint32,
      flags: PathFlags)
    requires PrefixOk(prefix, flags) && PrefixFits(prefix, es) && m < |es|
    requires var q := Request(childNum, multiIndex, flags.allowUpper);
             Writable(es[..m], q, flags.wildcard, flags.multipath) && OutOfRange(es[m], q)
    ensures Parse(PrintPath(prefix, es), childNum, multiIndex, flags) == None
  {
    hide Parse, HasWildcard, HasGroup, PrintElement, PrintElements, PrintMore, Writable, Flawed, Before, MarksOk;
    var q := Request(childNum, multiIndex, flags.allowUpper);
    var w, g := flags.wildcard && !HasWildcard(es[..m]), flags.multipath && !HasGroup(es[..m]);
    var t := PrintElement(es[m]) + PrintMore(es[m + 1..]);
    FlawedElement(es[m], PrintMore(es[m + 1..]), q, w, g);
    PrintSplits(es, m);
    assert prefix + (Before(es[..m]) + t) == prefix + Before(es[..m]) + t;
    ParseRefused(prefix, es[..m], t, FlawOf(es[m], q), childNum, multiIndex, flags);
  }

  /** The child numbers of elements that may be written: a number, 2^31 more of it with a mark. */
  lemma NumbersMean(e: Element, q: Request)
    requires ElementOk(e, q) && q.childNum < 0x8000_0000
    ensures var (v, marked) := match e
                               case Child(item) => (Value(item.digits, 10), item.mark.Some?)
                               case Wildcard(mark) => (q.childNum, mark.Some?)
                               case Group(items) => (Value(items[q.multiIndex].digits, 10),
                                                     items[q.multiIndex].mark.Some?);
            v < 0x8000_0000 && ChildNumber(e, q) == v + if marked then 0x8000_0000 else 0
  {
    hide Value;
  }

  const ZERO_OR_NOTHING: seq<Item> := [Item([0], None), Item([], None)]

  lemma ZeroOrNothing()
    ensures PrintPath("m/", [Group(ZERO_OR_NOTHING)]) == "m/<0;>"
    ensures Value([0], 10) == 0 && Value([], 10) == 0
  {
    assert PrintItem(Item([0], None)) == "0";
    assert PrintItems(ZERO_OR_NOTHING) == "0" + ([';'] + PrintItems([Item([], None)]));
    assert PrintItems([Item([], None)]) == "";
    assert PrintElements([Group(ZERO_OR_NOTHING)]) == PrintElement(Group(ZERO_OR_NOTHING)) + PrintMore([]);
    assert [0][..0] == [];
  }

  /** An alternative without a number is taken for 0 if it is the one asked for; asking for another refuses the path. */
  lemma EmptyAlternative(flags: PathFlags)
    requires !flags.undefined && !flags.bare && flags.multipath
    ensures Parse("m/<0;>", 0, 1, flags).Some? && Parse("m/<0;>", 0, 1, flags).value.path == [0]
    ensures Parse("m/<0;>", 0, 0, flags) == None
  {
    hide Parse, PrintPath, Value, FeaturesOf;
    var es := [Group(ZERO_OR_NOTHING)];
    ZeroOrNothing();
    assert HasGroup(es);
    assert !GroupOk(ZERO_OR_NOTHING, Request(0, 0, flags.allowUpper)) by { assert ZERO_OR_NOTHING[1].digits == []; }
    assert Shaped(es[0], flags.allowUpper);
    AcceptedIff("m/", es, 0, 0, flags);
    assert GroupOk(ZERO_OR_NOTHING, Request(0, 1, flags.allowUpper));
    assert Writable(es, Request(0, 1, flags.allowUpper), flags.wildcard, flags.multipath) by {
      assert es[1..] == [];
    }
    ParsePrinted("m/", es, 0, 1, flags);
    NumbersMean(es[0], Request(0, 1, flags.allowUpper));
  }

  /** Digits right behind a mark are taken for the next element. */
  lemma AdjacentNumbers(flags: PathFlags)
    requires !flags.undefined
    ensures Parse("1h2", 0, 0, flags).Some? && Parse("1h2", 0, 0, flags).value.path == [0x8000_0001, 2]
  {
    hide ReadNumber, Value;
    var str, q := "1h2", Request(0, 0, flags.allowUpper);
    assert [1][..0] == [] && [2][..0] == [];
    OneDigit(1);
    OneDigit(2);
    NumberRead(str, 0, [1]);
    NumberRead(str, 2, [2]);
    var s := Start(str, flags).value;
    var t := Step(str, q, s).value;
    assert t.i == 2 && t.path == [0x8000_0001];
    var u := Step(str, q, t).value;
    assert u.i == 3 && u.path == [0x8000_0001, 2];
    ParseStep(str, s, t, q);
    ParseStep(str, t, u, q);
    AtEnd(str, u, q);
  }

  lemma OneDigit(d: Digit)
    ensures Value([d], 10) == d && PrintDigits([d]) == ['0' + d as char]
  {
    assert [d][..0] == [];
  }

  lemma AtEnd(str: string, s: State, q: Request)
    requires s.i == |str| && q.childNum < HARDENED
    ensures ParseFrom(str, q, s) == Some(s)
  {
  }
}
