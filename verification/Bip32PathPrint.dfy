/** Writing paths as strings, and the proof that the parser reads back what was written. */
module Bip32PathPrint {
  import opened Common
  import opened Radix
  import opened Bip32Path

  /** A number in decimal, possibly with leading zeros, and an optional hardened mark. */
  type Digit = d: nat | d < 10

  datatype Item = Item(digits: seq<Digit>, mark: Option<char>)

  datatype Element = Child(item: Item) | Wildcard(mark: Option<char>) | Group(items: seq<Item>)

  // ---------------------------------------------------------------- printing

  function PrintDigits(d: seq<Digit>): (s: string)
    ensures |s| == |d| && forall i :: 0 <= i < |s| ==> IsDigit(s[i]) && DigitValue(s[i]) == d[i]
  {
    seq(|d|, i requires 0 <= i < |d| => '0' + d[i] as char)
  }

  function PrintMark(m: Option<char>): string {
    if m.None? then "" else [m.value]
  }

  function PrintItem(it: Item): string {
    PrintDigits(it.digits) + PrintMark(it.mark)
  }

  /** Alternatives separated by semicolons. */
  function PrintItems(items: seq<Item>): string
    decreases |items|, 0
  {
    if items == [] then "" else PrintItem(items[0]) + PrintMoreItems(items[1..])
  }

  /** Further alternatives, each after a semicolon. */
  function PrintMoreItems(items: seq<Item>): string
    decreases |items|, 1
  {
    if items == [] then "" else [';'] + PrintItems(items)
  }

  function PrintElement(e: Element): string {
    match e
    case Child(item) => PrintItem(item)
    case Wildcard(mark) => ['*'] + PrintMark(mark)
    case Group(items) => ['<'] + (PrintItems(items) + ['>'])
  }

  /** Elements separated by slashes. */
  function PrintElements(es: seq<Element>): string
    decreases |es|, 0
  {
    if es == [] then "" else PrintElement(es[0]) + PrintMore(es[1..])
  }

  /** Further elements, each after a slash. */
  function PrintMore(es: seq<Element>): string
    decreases |es|, 1
  {
    if es == [] then "" else ['/'] + PrintElements(es)
  }

  /** A path: an optional m and slash, then the elements separated by slashes. */
  function PrintPath(prefix: string, es: seq<Element>): string {
    prefix + PrintElements(es)
  }

  // ---------------------------------------------------------------- what may be written, and what it means

  /** Digits, and a mark that is one. */
  predicate ItemShaped(it: Item, allowUpper: bool) {
    it.digits != [] && MarkOk(it.mark, allowUpper)
  }

  /** A number that fits. */
  predicate Fits(it: Item) {
    Value(it.digits, 10) < 0x8000_0000
  }

  predicate ItemsShaped(items: seq<Item>, allowUpper: bool) {
    forall i :: 0 <= i < |items| ==> ItemShaped(items[i], allowUpper)
  }

  predicate MarksOk(items: seq<Item>, allowUpper: bool) {
    forall i :: 0 <= i < |items| ==> MarkOk(items[i].mark, allowUpper)
  }

  /**
   2 to 254 alternatives with the one asked for, whose number fits; the others have one too. The one asked for needs
   none, and then counts as 0, unless it is the first.
   */
  predicate GroupOk(items: seq<Item>, q: Request) {
    var m := q.multiIndex;
    && 2 <= |items| < 255 && m < |items| && MarksOk(items, q.allowUpper) && Fits(items[m])
    && forall i :: 0 <= i < |items| && (i != m || i == 0) ==> items[i].digits != []
  }

  predicate MarkOk(m: Option<char>, allowUpper: bool) {
    m.Some? ==> m.value in {'\'', 'h'} || (allowUpper && m.value == 'H')
  }

  ghost predicate ElementOk(e: Element, q: Request) {
    match e
    case Child(item) => ItemShaped(item, q.allowUpper) && Fits(item)
    case Wildcard(mark) => MarkOk(mark, q.allowUpper)
    case Group(items) => GroupOk(items, q)
  }

  /** At most one wildcard and one group, each only where allowed. */
  ghost predicate Writable(es: seq<Element>, q: Request, mayWildcard: bool, mayGroup: bool) {
    es == [] ||
    (&& ElementOk(es[0], q)
     && (es[0].Wildcard? ==> mayWildcard) && (es[0].Group? ==> mayGroup)
     && Writable(es[1..], q, mayWildcard && !es[0].Wildcard?, mayGroup && !es[0].Group?))
  }

  /** The number an item stands for; 0 for one the parser would reject. */
  function ItemValue(it: Item): uint32 {
    var v := Value(it.digits, 10);
    if v < HARDENED then WithMark(v, it.mark.Some?) else 0
  }

  /** The child number an element stands for. */
  function ChildNumber(e: Element, q: Request): uint32 {
    match e
    case Child(item) => ItemValue(item)
    case Wildcard(mark) => if q.childNum < HARDENED then WithMark(q.childNum, mark.Some?) else 0
    case Group(items) => if q.multiIndex < |items| then ItemValue(items[q.multiIndex]) else 0
  }

  predicate AnyMarked(items: seq<Item>) {
    items != [] && (items[0].mark.Some? || AnyMarked(items[1..]))
  }

  predicate Marked(e: Element) {
    match e
    case Child(item) => item.mark.Some?
    case Wildcard(mark) => mark.Some?
    case Group(items) => AnyMarked(items)
  }

  /** The parser state after an element that ends at j. */
  function After(s: State, e: Element, q: Request, j: nat): State {
    var f := s.features.(hardened := s.features.hardened || Marked(e));
    var t := s.(i := j, path := s.path + [ChildNumber(e, q)], features := f);
    match e
    case Child(_) => t
    case Wildcard(_) => t.(mayWildcard := false, features := f.(wildcard := true, wildcardPos := |s.path|))
    case Group(items) => t.(mayGroup := false, features := f.(multipath := true, numMulti := |items|))
  }

  // ---------------------------------------------------------------- reading one item

  /** t stands at position i of str. */
  ghost predicate At(str: string, i: nat, t: string) {
    i + |t| <= |str| && forall k {:trigger t[k]} :: 0 <= k < |t| ==> str[i + k] == t[k]
  }

  lemma AtSplit(str: string, i: nat, a: string, b: string)
    requires At(str, i, a + b)
    ensures At(str, i, a) && At(str, i + |a|, b)
    ensures a != "" ==> str[i] == a[0]
  {
    assert a != "" ==> str[i + 0] == (a + b)[0];
    forall k | 0 <= k < |a| ensures str[i + k] == a[k] { assert (a + b)[k] == a[k]; }
    forall k | 0 <= k < |b| ensures str[i + |a| + k] == b[k] { assert (a + b)[|a| + k] == b[k]; }
  }

  lemma AtChar(str: string, i: nat, c: char, t: string)
    requires At(str, i, [c] + t)
    ensures i < |str| && str[i] == c && At(str, i + 1, t)
  {
    AtSplit(str, i, [c], t);
    assert str[i + 0] == [c][0];
  }

  /** An item ends where the string ends, or where neither a digit nor a mark follows. */
  predicate Ends(str: string, j: nat) {
    j == |str| || (j < |str| && !IsDigit(str[j]) && str[j] !in "'hH")
  }

  lemma {:induction false} DigitsSkipped(str: string, i: nat, d: seq<Digit>, k: nat)
    requires At(str, i, PrintDigits(d)) && k <= |d|
    requires i + |d| == |str| || !IsDigit(str[i + |d|])
    ensures SkipDigits(str, i + k) == i + |d|
    decreases |d| - k
  {
    if k < |d| {
      assert str[i + k] == PrintDigits(d)[k];
      DigitsSkipped(str, i, d, k + 1);
    }
  }

  lemma {:induction false} DigitsRead(str: string, i: nat, d: seq<Digit>, k: nat)
    requires Value(d, 10) < HARDENED && At(str, i, PrintDigits(d)) && k <= |d|
    requires i + |d| == |str| || !IsDigit(str[i + |d|])
    ensures Value(d[..k], 10) < HARDENED
    ensures ReadNumber(str, i + k, Value(d[..k], 10)) == Some((Value(d, 10), i + |d|))
    decreases |d| - k
  {
    PrefixSmaller(d, k);
    if k == |d| {
      assert d[..k] == d;
    } else {
      assert str[i + k] == PrintDigits(d)[k];
      assert d[..k + 1][..k] == d[..k];
      PrefixSmaller(d, k + 1);
      DigitsRead(str, i, d, k + 1);
    }
  }

  /** Digits of a number that does not fit are not read on, whatever follows them. */
  lemma {:induction false} DigitsTooLarge(str: string, i: nat, d: seq<Digit>, k: nat)
    requires Value(d, 10) >= HARDENED && At(str, i, PrintDigits(d)) && k <= |d| && Value(d[..k], 10) < HARDENED
    ensures ReadNumber(str, i + k, Value(d[..k], 10)) == None
    decreases |d| - k
  {
    assert d[..|d|] == d;
    if k < |d| {
      assert str[i + k] == PrintDigits(d)[k];
      assert d[..k + 1][..k] == d[..k];
      if Value(d[..k + 1], 10) < HARDENED { DigitsTooLarge(str, i, d, k + 1); }
    }
  }

  /** A number on its own, up to whatever is no digit. */
  lemma NumberRead(str: string, i: nat, d: seq<Digit>)
    requires At(str, i, PrintDigits(d)) && (i + |d| == |str| || !IsDigit(str[i + |d|]))
    ensures ReadNumber(str, i, 0) == if Value(d, 10) < 0x8000_0000 then Some((Value(d, 10), i + |d|)) else None
    ensures SkipDigits(str, i) == i + |d|
  {
    assert d[..0] == [];
    DigitsSkipped(str, i, d, 0);
    if Value(d, 10) < HARDENED { DigitsRead(str, i, d, 0); } else { DigitsTooLarge(str, i, d, 0); }
  }

  lemma {:induction false} PrefixSmaller(d: seq<nat>, k: nat)
    requires k <= |d|
    ensures Value(d[..k], 10) <= Value(d, 10)
  {
    if k == |d| {
      assert d[..k] == d;
    } else {
      PrefixSmaller(d[..|d| - 1], k);
      assert d[..|d| - 1][..k] == d[..k];
    }
  }

  /** A number, if there is one, and its mark. */
  lemma ItemRead(str: string, i: nat, it: Item, q: Request)
    requires MarkOk(it.mark, q.allowUpper) && At(str, i, PrintItem(it)) && Ends(str, i + |PrintItem(it)|)
    ensures var j := i + |it.digits|;
            && j <= |str| && SkipDigits(str, i) == j
            && (i < |str| && IsDigit(str[i]) <==> it.digits != [])
            && ReadNumber(str, i, 0) == (if Fits(it) then Some((Value(it.digits, 10), j)) else None)
            && SkipMark(str, j, q.allowUpper) == i + |PrintItem(it)|
            && (i + |PrintItem(it)| > j <==> it.mark.Some?)
    ensures it.digits != [] ==>
              var p := str[i + |PrintItem(it)| - 1]; IsDigit(p) || (IsMark(p, q.allowUpper) && it.mark.Some?)
  {
    hide SkipDigits, ReadNumber, Value;
    var d := PrintDigits(it.digits);
    AtSplit(str, i, d, PrintMark(it.mark));
    if d != "" { assert str[i + 0] == d[0] && str[i + (|d| - 1)] == d[|d| - 1]; }
    if it.mark.Some? { AtChar(str, i + |d|, it.mark.value, ""); }
    NumberRead(str, i, it.digits);
  }

  // ---------------------------------------------------------------- reading a group

  /** The text of alternatives stands at i, and at `close` comes something that does not belong to an item. */
  ghost predicate Closed(str: string, i: nat, t: string, close: nat) {
    At(str, i, t) && i + |t| == close < |str| && Ends(str, close)
  }

  lemma ClosedSplit(str: string, i: nat, a: string, b: string, close: nat)
    requires Closed(str, i, a + b, close)
    ensures At(str, i, a) && Closed(str, i + |a|, b, close)
  {
    AtSplit(str, i, a, b);
  }

  lemma ClosedChar(str: string, i: nat, c: char, t: string, close: nat)
    requires Closed(str, i, [c] + t, close)
    ensures i < close && str[i] == c && Closed(str, i + 1, t, close)
  {
    AtChar(str, i, c, t);
  }

  /** After an item of a group comes a semicolon, or what follows the last. */
  lemma MoreRead(str: string, k: nat, items: seq<Item>, close: nat)
    requires Closed(str, k, PrintMoreItems(items), close)
    ensures Ends(str, k)
    ensures items != [] ==> k < close && str[k] == ';' && Closed(str, k + 1, PrintItems(items), close)
  {
    if items != [] {
      ClosedChar(str, k, ';', PrintItems(items), close);
    }
  }

  /** Reading the first of some alternatives: its digits, if there are any, end at j and its mark at k. */
  lemma FirstRead(str: string, i: nat, items: seq<Item>, close: nat, q: Request) returns (j: nat, k: nat)
    requires items != [] && MarkOk(items[0].mark, q.allowUpper) && Closed(str, i, PrintItems(items), close)
    ensures i <= j <= k <= close < |str| && SkipDigits(str, i) == j
    ensures (i < j <==> items[0].digits != []) && (IsDigit(str[i]) <==> items[0].digits != [])
    ensures ReadNumber(str, i, 0) == if Fits(items[0]) then Some((Value(items[0].digits, 10), j)) else None
    ensures SkipMark(str, j, q.allowUpper) == k && (k > j <==> items[0].mark.Some?)
    ensures Closed(str, k, PrintMoreItems(items[1..]), close) && Ends(str, k)
    ensures |items| > 1 ==> k < close && str[k] == ';' && Closed(str, k + 1, PrintItems(items[1..]), close)
  {
    hide PrintItem, SkipDigits, ReadNumber, Value;
    ClosedSplit(str, i, PrintItem(items[0]), PrintMoreItems(items[1..]), close);
    MoreRead(str, i + |PrintItem(items[0])|, items[1..], close);
    ItemRead(str, i, items[0], q);
    j, k := i + |items[0].digits|, i + |PrintItem(items[0])|;
  }

  lemma SkipOneBefore(str: string, s: Scan, todo: nat, allowUpper: bool, j: nat, k: nat)
    requires 0 < todo && s.i < |str| && s.i < j == SkipDigits(str, s.i) && k == SkipMark(str, j, allowUpper) < |str|
             && str[k] == ';'
    ensures SkipBefore(str, s, todo, allowUpper)
         == SkipBefore(str, Scan(k + 1, s.hardened || k > j, s.count + 1), todo - 1, allowUpper)
  {
  }

  lemma SkipOneAfter(str: string, s: Scan, allowUpper: bool, j: nat, k: nat)
    requires s.i < |str| && str[s.i] == ';'
    requires s.i + 1 < j == SkipDigits(str, s.i + 1) && k == SkipMark(str, j, allowUpper)
    ensures SkipAfter(str, s, allowUpper) == SkipAfter(str, Scan(k, s.hardened || k > j, s.count + 1), allowUpper)
  {
  }

  lemma {:induction false} BeforeRead(str: string, s: Scan, items: seq<Item>, todo: nat, close: nat, q: Request)
    returns (b: Scan)
    requires todo < |items| && ItemsShaped(items[..todo], q.allowUpper) && Closed(str, s.i, PrintItems(items), close)
    ensures b.i <= |str| && SkipBefore(str, s, todo, q.allowUpper) == Some(b)
    ensures b.count == s.count + todo && b.hardened == (s.hardened || AnyMarked(items[..todo]))
    ensures Closed(str, b.i, PrintItems(items[todo..]), close)
    decreases todo
  {
    hide PrintItem, PrintItems, SkipDigits, ReadNumber, AnyMarked;
    if todo > 0 {
      assert items[..todo][0] == items[0] && items[..todo][1..] == items[1..][..todo - 1];
      var j, k := FirstRead(str, s.i, items, close, q);
      SkipOneBefore(str, s, todo, q.allowUpper, j, k);
      assert items[1..] != [];
      b := BeforeRead(str, Scan(k + 1, s.hardened || k > j, s.count + 1), items[1..], todo - 1, close, q);
      assert items[1..][todo - 1..] == items[todo..];
      MarkedFirst(items[..todo]);
    } else {
      assert items[..0] == [] && items[0..] == items;
      MarkedFirst([]);
      b := s;
    }
  }

  lemma MarkedFirst(items: seq<Item>)
    ensures AnyMarked(items) == (items != [] && (items[0].mark.Some? || AnyMarked(items[1..])))
  {
  }

  lemma {:induction false} AfterRead(str: string, s: Scan, items: seq<Item>, close: nat, q: Request)
    returns (a: Scan)
    requires ItemsShaped(items, q.allowUpper) && Closed(str, s.i, PrintMoreItems(items), close) && str[close] == '>'
    ensures SkipAfter(str, s, q.allowUpper) == Some(a)
    ensures a.i == close && a.hardened == (s.hardened || AnyMarked(items)) && a.count == s.count + |items|
    decreases |items|
  {
    hide PrintItem, PrintItems, SkipDigits, ReadNumber, AnyMarked, SkipMark;
    MarkedFirst(items);
    if items != [] {
      MoreRead(str, s.i, items, close);
      var j, k := FirstRead(str, s.i + 1, items, close, q);
      SkipOneAfter(str, s, q.allowUpper, j, k);
      a := AfterRead(str, Scan(k, s.hardened || k > j, s.count + 1), items[1..], close, q);
    } else {
      a := s;
    }
  }

  lemma {:induction false} MarkedChosen(items: seq<Item>, m: nat)
    requires m < |items|
    ensures AnyMarked(items) <==> AnyMarked(items[..m]) || items[m].mark.Some? || AnyMarked(items[m + 1..])
  {
    if m > 0 {
      MarkedChosen(items[1..], m - 1);
      assert items[1..][..m - 1] == items[..m][1..] && items[1..][m..] == items[m + 1..];
    }
  }

  lemma ChosenUnfold(str: string, q: Request, s: State, b: Scan, v: nat, j: nat, k: nat, a: Scan)
    requires s.i < b.i <= |str| && ReadNumber(str, b.i, 0) == Some((v, j)) && k == SkipMark(str, j, q.allowUpper)
    requires SkipAfter(str, Scan(k, b.hardened || k > j, b.count + 1), q.allowUpper) == Some(a)
    requires a.i < |str| && 2 <= a.count < 255
    ensures ChosenStep(str, q, s, b)
         == Some(s.(i := a.i + 1, path := s.path + [WithMark(v, k > j)], mayGroup := false,
                    features := s.features.(multipath := true, numMulti := a.count, hardened := a.hardened)))
  {
  }

  lemma GroupUnfold(str: string, q: Request, s: State, b: Scan)
    requires s.i + 1 < |str| && IsDigit(str[s.i + 1]) && b.count == q.multiIndex && s.i + 1 <= b.i <= |str|
    requires SkipBefore(str, Scan(s.i + 1, s.features.hardened, 0), q.multiIndex, q.allowUpper) == Some(b)
    ensures GroupStep(str, q, s) == ChosenStep(str, q, s, b)
  {
  }

  /** What is left of a group that may be written, around the alternative asked for. */
  lemma GroupParts(items: seq<Item>, q: Request)
    requires GroupOk(items, q)
    ensures var m := q.multiIndex;
            && ItemsShaped(items[..m], q.allowUpper) && MarkOk(items[m].mark, q.allowUpper)
            && ItemsShaped(items[m + 1..], q.allowUpper) && items[m..] != []
            && items[m..][0] == items[m] && items[m..][1..] == items[m + 1..]
            && items[0].digits != [] && MarkOk(items[0].mark, q.allowUpper)
  {
  }

  /** The chosen alternative and everything after it. */
  lemma ChosenRead(str: string, s: State, b: Scan, items: seq<Item>, close: nat, q: Request)
    requires GroupOk(items, q) && s.i < b.i && b.count == q.multiIndex
    requires b.hardened == (s.features.hardened || AnyMarked(items[..q.multiIndex]))
    requires Closed(str, b.i, PrintItems(items[q.multiIndex..]), close) && str[close] == '>' && q.childNum < HARDENED
    ensures ChosenStep(str, q, s, b) == Some(After(s, Group(items), q, close + 1))
  {
    hide PrintItem, PrintItems, PrintMoreItems, ItemsShaped, SkipAfter, ReadNumber, SkipDigits, ChosenStep, AnyMarked;
    var m := q.multiIndex;
    GroupParts(items, q);
    var j, k := FirstRead(str, b.i, items[m..], close, q);
    var a := AfterRead(str, Scan(k, b.hardened || k > j, m + 1), items[m + 1..], close, q);
    MarkedChosen(items, m);
    ChosenUnfold(str, q, s, b, Value(items[m].digits, 10), j, k, a);
  }

  /** A whole group, given where its alternatives stand. */
  lemma GroupBodyRead(str: string, s: State, items: seq<Item>, close: nat, q: Request)
    requires GroupOk(items, q) && q.childNum < HARDENED
    requires Closed(str, s.i + 1, PrintItems(items), close) && str[close] == '>'
    ensures GroupStep(str, q, s) == Some(After(s, Group(items), q, close + 1))
  {
    hide PrintItems, ItemsShaped, SkipBefore, ReadNumber, SkipDigits, ChosenStep, GroupStep, Fits, AnyMarked, GroupOk;
    GroupParts(items, q);
    ChosenInside(items, q);
    var j, k := FirstRead(str, s.i + 1, items, close, q);
    var b := BeforeRead(str, Scan(s.i + 1, s.features.hardened, 0), items, q.multiIndex, close, q);
    GroupUnfold(str, q, s, b);
    ChosenRead(str, s, b, items, close, q);
  }

  lemma ChosenInside(items: seq<Item>, q: Request)
    requires GroupOk(items, q)
    ensures q.multiIndex < |items|
  {
  }

  lemma GroupText(items: seq<Item>, str: string, i: nat)
    requires At(str, i, PrintElement(Group(items)))
    ensures var close := i + 1 + |PrintItems(items)|;
            && i < |str| && str[i] == '<' && Closed(str, i + 1, PrintItems(items), close) && str[close] == '>'
            && close + 1 == i + |PrintElement(Group(items))|
  {
    hide PrintItems, IsDigit;
    var text := PrintItems(items);
    AtChar(str, i, '<', text + ['>']);
    AtSplit(str, i + 1, text, ['>']);
    AtChar(str, i + 1 + |text|, '>', "");
    BracketEnds(str, i + 1 + |text|);
  }

  lemma BracketEnds(str: string, j: nat)
    requires j < |str| && str[j] == '>'
    ensures Ends(str, j)
  {
  }

  // ---------------------------------------------------------------- reading an element

  /** An element can be followed by a slash: its last character is a digit, a mark, a star or a bracket. */
  predicate SlashMayFollow(c: char, allowUpper: bool, hardened: bool) {
    IsDigit(c) || c == '*' || c == '>' || (IsMark(c, allowUpper) && hardened)
  }

  /** At the end or before a slash. */
  predicate ElementEnds(str: string, j: nat) {
    j == |str| || (j < |str| && str[j] == '/')
  }

  lemma ChildRead(str: string, s: State, item: Item, q: Request)
    requires ItemShaped(item, q.allowUpper) && Fits(item) && q.childNum < HARDENED && At(str, s.i, PrintItem(item))
    requires ElementEnds(str, s.i + |PrintItem(item)|)
    ensures var j := s.i + |PrintItem(item)|;
            && s.i < j && s.i < |str| && Step(str, q, s) == Some(After(s, Child(item), q, j))
            && SlashMayFollow(str[j - 1], q.allowUpper, item.mark.Some?)
  {
    ItemRead(str, s.i, item, q);
  }

  /** A wildcard needs a slash before it, unless it comes first. */
  predicate MayStart(str: string, i: nat, e: Element) {
    e.Wildcard? && i > 0 ==> i <= |str| && str[i - 1] == '/'
  }

  lemma WildcardRead(str: string, s: State, mark: Option<char>, q: Request)
    requires MarkOk(mark, q.allowUpper) && q.childNum < HARDENED && At(str, s.i, PrintElement(Wildcard(mark)))
    requires s.mayWildcard && (s.i > 0 ==> str[s.i - 1] == '/')
    requires ElementEnds(str, s.i + |PrintElement(Wildcard(mark))|)
    ensures var j := s.i + |PrintElement(Wildcard(mark))|;
            && s.i < j && s.i < |str| && Step(str, q, s) == Some(After(s, Wildcard(mark), q, j))
            && SlashMayFollow(str[j - 1], q.allowUpper, mark.Some?)
  {
    hide NumberStep, GroupStep, SlashStep;
    AtChar(str, s.i, '*', PrintMark(mark));
    if mark.Some? { AtChar(str, s.i + 1, mark.value, ""); }
  }

  lemma ElementRead(str: string, s: State, e: Element, q: Request)
    requires ElementOk(e, q) && q.childNum < HARDENED && At(str, s.i, PrintElement(e))
    requires (e.Wildcard? ==> s.mayWildcard) && (e.Group? ==> s.mayGroup) && MayStart(str, s.i, e)
    requires ElementEnds(str, s.i + |PrintElement(e)|)
    ensures var j := s.i + |PrintElement(e)|;
            && s.i < j && s.i < |str| && Step(str, q, s) == Some(After(s, e, q, j))
            && SlashMayFollow(str[j - 1], q.allowUpper, Marked(e))
  {
    hide Step, PrintItem, PrintItems, ItemShaped, Fits, At, GroupOk;
    match e
    case Child(item) => ChildRead(str, s, item, q);
    case Wildcard(mark) => WildcardRead(str, s, mark, q);
    case Group(items) => GroupRead(str, s, items, q);
  }

  lemma GroupRead(str: string, s: State, items: seq<Item>, q: Request)
    requires ElementOk(Group(items), q) && q.childNum < HARDENED && At(str, s.i, PrintElement(Group(items)))
    requires s.mayGroup
    ensures var j := s.i + |PrintElement(Group(items))|;
            && s.i < j && s.i < |str| && Step(str, q, s) == Some(After(s, Group(items), q, j))
            && SlashMayFollow(str[j - 1], q.allowUpper, Marked(Group(items)))
  {
    hide PrintItems, GroupOk, GroupStep, NumberStep, SlashStep, WildcardStep;
    GroupText(items, str, s.i);
    GroupBodyRead(str, s, items, s.i + 1 + |PrintItems(items)|, q);
  }

  // ---------------------------------------------------------------- reading a path

  /** The state after some elements, the last ending at j. */
  function AfterAll(s: State, es: seq<Element>, q: Request): State
    decreases |es|
  {
    if es == [] then s else AfterAll(After(s, es[0], q, s.i), es[1..], q)
  }

  lemma SlashRead(str: string, s: State, q: Request)
    requires 0 < s.i < |str| && str[s.i] == '/' && s.i + 1 < |str| && str[s.i + 1] != '/'
    requires SlashMayFollow(str[s.i - 1], q.allowUpper, s.features.hardened) && q.childNum < HARDENED
    ensures Step(str, q, s) == Some(s.(i := s.i + 1))
  {
  }

  /** Moving the position commutes with reading elements. */
  lemma {:induction false} AfterAllAt(s: State, es: seq<Element>, q: Request, i: nat)
    ensures AfterAll(s.(i := i), es, q) == AfterAll(s, es, q).(i := i)
    decreases |es|
  {
    if es != [] {
      AfterAllAt(After(s, es[0], q, s.i), es[1..], q, i);
      assert After(s.(i := i), es[0], q, i) == After(s, es[0], q, s.i).(i := i);
    }
  }

  lemma ElementStarts(e: Element, q: Request)
    requires ElementOk(e, q)
    ensures var t := PrintElement(e); t != "" && t[0] != '/' && t[0] != 'm' && t[0] != 'M'
  {
    match e
    case Child(item) => assert PrintElement(e)[0] == PrintDigits(item.digits)[0];
    case Wildcard(mark) => assert PrintElement(e)[0] == '*';
    case Group(items) => assert PrintElement(e)[0] == '<';
  }

  /** t stands at i and is the rest of the string. */
  ghost predicate Tail(str: string, i: nat, t: string) {
    At(str, i, t) && i + |t| == |str|
  }

  lemma TailSplit(str: string, i: nat, a: string, b: string)
    requires Tail(str, i, a + b) && a != ""
    ensures At(str, i, a) && Tail(str, i + |a|, b) && i < |str| && str[i] == a[0]
  {
    AtSplit(str, i, a, b);
  }

  lemma ParseStep(str: string, s: State, t: State, q: Request)
    requires s.i < |str| && q.childNum < HARDENED && Step(str, q, s) == Some(t)
    ensures ParseFrom(str, q, s) == ParseFrom(str, q, t)
  {
  }

  lemma MoreEnds(str: string, j: nat, es: seq<Element>)
    requires Tail(str, j, PrintMore(es))
    ensures ElementEnds(str, j)
    ensures es != [] ==> j < |str| && str[j] == '/' && Tail(str, j + 1, PrintElements(es))
  {
    if es != [] { TailSplit(str, j, ['/'], PrintElements(es)); }
  }

  /** Where elements are printed, the first one stands, and the rest after it. */
  lemma FirstIsElement(str: string, i: nat, es: seq<Element>, q: Request)
    requires es != [] && ElementOk(es[0], q) && Tail(str, i, PrintElements(es))
    ensures var j := i + |PrintElement(es[0])|;
            i < j && At(str, i, PrintElement(es[0])) && Tail(str, j, PrintMore(es[1..])) && ElementEnds(str, j)
    ensures i < |str| && str[i] != '/' && str[i] != 'm' && str[i] != 'M'
  {
    hide PrintElement, PrintMore, ElementOk, Tail, At, ElementEnds;
    ElementStarts(es[0], q);
    TailSplit(str, i, PrintElement(es[0]), PrintMore(es[1..]));
    MoreEnds(str, i + |PrintElement(es[0])|, es[1..]);
  }

  /** Over a slash to the next element. */
  lemma SlashTo(str: string, s: State, es: seq<Element>, q: Request)
    requires es != [] && ElementOk(es[0], q) && Tail(str, s.i, PrintMore(es)) && q.childNum < HARDENED
    requires 0 < s.i && SlashMayFollow(str[s.i - 1], q.allowUpper, s.features.hardened)
    ensures s.i < |str| && str[s.i] == '/' && Tail(str, s.i + 1, PrintElements(es))
    ensures ParseFrom(str, q, s) == ParseFrom(str, q, s.(i := s.i + 1))
  {
    MoreEnds(str, s.i, es);
    FirstIsElement(str, s.i + 1, es, q);
    SlashRead(str, s, q);
    ParseStep(str, s, s.(i := s.i + 1), q);
  }

  /** Over an element to whatever follows it. */
  lemma ElementTo(str: string, s: State, e: Element, j: nat, q: Request)
    requires ElementOk(e, q) && At(str, s.i, PrintElement(e)) && q.childNum < HARDENED
    requires j == s.i + |PrintElement(e)| && ElementEnds(str, j)
    requires (e.Wildcard? ==> s.mayWildcard) && (e.Group? ==> s.mayGroup) && MayStart(str, s.i, e)
    ensures s.i < j <= |str| && ParseFrom(str, q, s) == ParseFrom(str, q, After(s, e, q, j))
    ensures SlashMayFollow(str[j - 1], q.allowUpper, After(s, e, q, j).features.hardened)
  {
    hide Step, PrintElement, ElementOk;
    ElementRead(str, s, e, q);
    ParseStep(str, s, After(s, e, q, j), q);
  }

  /** From the end of an element, the rest of the printed path is read to the end of the string. */
  lemma {:induction false} RestRead(str: string, s: State, es: seq<Element>, q: Request)
    requires q.childNum < HARDENED && Writable(es, q, s.mayWildcard, s.mayGroup) && Tail(str, s.i, PrintMore(es))
    requires 0 < s.i && SlashMayFollow(str[s.i - 1], q.allowUpper, s.features.hardened)
    ensures ParseFrom(str, q, s) == Some(AfterAll(s, es, q).(i := |str|))
    decreases |es|, 1
  {
    hide Step;
    if es != [] {
      SlashTo(str, s, es, q);
      ElementsRead(str, s.(i := s.i + 1), es, q);
      AfterAllAt(s, es, q, s.i + 1);
    }
  }

  /** From the start of an element. */
  lemma {:induction false} ElementsRead(str: string, s: State, es: seq<Element>, q: Request)
    requires es != [] && q.childNum < HARDENED && Writable(es, q, s.mayWildcard, s.mayGroup)
    requires Tail(str, s.i, PrintElements(es)) && MayStart(str, s.i, es[0])
    ensures ParseFrom(str, q, s) == Some(AfterAll(s, es, q).(i := |str|))
    decreases |es|, 0
  {
    hide Step, ParseFrom, AfterAll, PrintElement, PrintElements, PrintMore, ElementOk;
    FirstIsElement(str, s.i, es, q);
    var j := s.i + |PrintElement(es[0])|;
    ElementTo(str, s, es[0], j, q);
    RestRead(str, After(s, es[0], q, j), es[1..], q);
    AfterFirst(s, es, q, j, |str|);
  }

  lemma AfterFirst(s: State, es: seq<Element>, q: Request, j: nat, i: nat)
    requires es != []
    ensures AfterAll(After(s, es[0], q, j), es[1..], q).(i := i) == AfterAll(s, es, q).(i := i)
  {
    AfterAllAt(After(s, es[0], q, s.i), es[1..], q, j);
    assert After(s, es[0], q, j) == After(s, es[0], q, s.i).(i := j);
  }

  // ---------------------------------------------------------------- what a printed path parses to

  function ChildNumbers(es: seq<Element>, q: Request): (r: seq<uint32>)
    ensures |r| == |es| && forall i :: 0 <= i < |es| ==> r[i] == ChildNumber(es[i], q)
  {
    seq(|es|, i requires 0 <= i < |es| => ChildNumber(es[i], q))
  }

  predicate AnyElementMarked(es: seq<Element>) {
    es != [] && (Marked(es[0]) || AnyElementMarked(es[1..]))
  }

  predicate HasWildcard(es: seq<Element>) {
    es != [] && (es[0].Wildcard? || HasWildcard(es[1..]))
  }

  predicate HasGroup(es: seq<Element>) {
    es != [] && (es[0].Group? || HasGroup(es[1..]))
  }

  /** The position of the wildcard, 0 without one. */
  function WildcardIndex(es: seq<Element>): nat {
    if !HasWildcard(es) || es[0].Wildcard? then 0 else 1 + WildcardIndex(es[1..])
  }

  /** The number of alternatives in the group, 0 without one. */
  function GroupSize(es: seq<Element>): nat {
    if !HasGroup(es) then 0 else if es[0].Group? then |es[0].items| else GroupSize(es[1..])
  }

  function FeaturesOf(bare: bool, es: seq<Element>): Features {
    Features(bare, AnyElementMarked(es), HasWildcard(es), HasGroup(es), WildcardIndex(es), GroupSize(es))
  }

  lemma {:induction false} AtMostOne(es: seq<Element>, q: Request, mayWildcard: bool, mayGroup: bool)
    requires Writable(es, q, mayWildcard, mayGroup)
    ensures (!mayWildcard ==> !HasWildcard(es)) && (!mayGroup ==> !HasGroup(es) && GroupSize(es) == 0)
  {
    if es != [] { AtMostOne(es[1..], q, mayWildcard && !es[0].Wildcard?, mayGroup && !es[0].Group?); }
  }

  lemma ChildNumbersCons(es: seq<Element>, q: Request)
    requires es != []
    ensures ChildNumbers(es, q) == [ChildNumber(es[0], q)] + ChildNumbers(es[1..], q)
  {
    hide ChildNumber;
  }

  lemma {:induction false} AfterAllPath(s: State, es: seq<Element>, q: Request)
    ensures AfterAll(s, es, q).path == s.path + ChildNumbers(es, q)
    decreases |es|
  {
    hide ChildNumber, ChildNumbers, Marked;
    if es != [] {
      var t := After(s, es[0], q, s.i);
      AfterAllPath(t, es[1..], q);
      ChildNumbersCons(es, q);
      assert t.path == s.path + [ChildNumber(es[0], q)];
    }
  }

  /** Elements read from the start have the features of the path. */
  lemma FeaturesRead(s: State, es: seq<Element>, q: Request)
    requires Writable(es, q, s.mayWildcard, s.mayGroup) && s.path == []
    requires s.features == Features(s.features.bare, false, false, false, 0, 0)
    ensures AfterAll(s, es, q).features == FeaturesOf(s.features.bare, es)
    ensures FeaturesOf(s.features.bare, es).wildcard == HasWildcard(es)
    ensures FeaturesOf(s.features.bare, es).multipath == HasGroup(es)
  {
    hide AfterAll, Writable, AnyElementMarked;
    AfterAllFeatures(s, es, q);
  }

  lemma {:induction false} AfterAllFeatures(s: State, es: seq<Element>, q: Request)
    requires Writable(es, q, s.mayWildcard, s.mayGroup)
    ensures var f, g := s.features, AfterAll(s, es, q).features;
            && g.bare == f.bare && g.hardened == (f.hardened || AnyElementMarked(es))
            && g.wildcard == (f.wildcard || HasWildcard(es)) && g.multipath == (f.multipath || HasGroup(es))
            && g.wildcardPos == (if HasWildcard(es) then |s.path| + WildcardIndex(es) else f.wildcardPos)
            && g.numMulti == (if HasGroup(es) then GroupSize(es) else f.numMulti)
    decreases |es|
  {
    if es != [] {
      AfterAllFeatures(After(s, es[0], q, s.i), es[1..], q);
      AtMostOne(es[1..], q, s.mayWildcard && !es[0].Wildcard?, s.mayGroup && !es[0].Group?);
    }
  }

  /** Nothing, or, if the path need not be bare, a slash or an m with or without one. */
  predicate PrefixOk(prefix: string, flags: PathFlags) {
    prefix == "" ||
    (!flags.bare && (prefix in {"/", "m", "m/"} || (flags.allowUpper && prefix in {"M", "M/"})))
  }

  /** After an m without a slash a path must not start with a wildcard. */
  predicate PrefixFits(prefix: string, es: seq<Element>) {
    es != [] && prefix in {"m", "M"} ==> !es[0].Wildcard?
  }

  lemma TailOfConcat(a: string, t: string)
    ensures Tail(a + t, |a|, t)
  {
    forall k | 0 <= k < |t| ensures (a + t)[|a| + k] == t[k] {}
  }

  /** The parser after the prefix. */
  function StateAfter(prefix: string, flags: PathFlags): State {
    State(|prefix|, [], Features(prefix == "", false, false, false, 0, 0), flags.wildcard, flags.multipath)
  }

  lemma StartAfter(str: string, prefix: string, flags: PathFlags)
    requires PrefixOk(prefix, flags) && prefix <= str && |prefix| < |str|
    requires str[|prefix|] != '/' && str[|prefix|] != 'm' && str[|prefix|] != 'M'
    ensures Start(str, flags) == Some(StateAfter(prefix, flags))
  {
    if prefix != "" {
      assert str[0] == prefix[0];
      if |prefix| == 2 { assert str[1] == prefix[1]; }
    }
  }

  /** The parser starts right after the prefix. */
  lemma StartRead(prefix: string, es: seq<Element>, q: Request, flags: PathFlags)
    requires PrefixOk(prefix, flags) && PrefixFits(prefix, es) && es != [] && ElementOk(es[0], q)
    ensures var str := PrintPath(prefix, es);
            && str != [] && Tail(str, |prefix|, PrintElements(es)) && MayStart(str, |prefix|, es[0])
            && Start(str, flags) == Some(StateAfter(prefix, flags))
  {
    hide Start, ElementOk, PrintElement, PrintElements, PrintMore, Tail;
    var str := PrintPath(prefix, es);
    TailOfConcat(prefix, PrintElements(es));
    FirstIsElement(str, |prefix|, es, q);
    StartAfter(str, prefix, flags);
  }

  /**
   Any path of 1 to 255 elements, written with any decimal digits and marks, with at most one wildcard and one
   group, parses to its child numbers, the wildcard replaced by the given child number and the group by its
   chosen alternative; and the reported features are those of the path. It is accepted exactly when a
   given child number has a wildcard to replace, and a given alternative a group to choose from.
   */
  lemma ParsePrinted(prefix: string, es: seq<Element>, childNum: uint32, multiIndex: uint32, flags: PathFlags)
    requires !flags.undefined && PrefixOk(prefix, flags) && PrefixFits(prefix, es)
    requires 1 <= |es| <= 255 && childNum < 0x8000_0000
    requires (childNum != 0 ==> flags.wildcard) && (multiIndex != 0 ==> flags.multipath)
    requires Writable(es, Request(childNum, multiIndex, flags.allowUpper), flags.wildcard, flags.multipath)
    ensures var r := Parse(PrintPath(prefix, es), childNum, multiIndex, flags);
            if (childNum == 0 || HasWildcard(es)) && (multiIndex == 0 || HasGroup(es)) then
              && r.Some? && r.value.path == ChildNumbers(es, Request(childNum, multiIndex, flags.allowUpper))
              && r.value.features == FeaturesOf(prefix == "", es)
            else r.None?
  {
    hide Step, ParseFrom, Start, AfterAll, PrintPath, ElementOk, Tail, HasWildcard, HasGroup, AnyElementMarked;
    hide ChildNumbers, FeaturesOf;
    var q := Request(childNum, multiIndex, flags.allowUpper);
    var str := PrintPath(prefix, es);
    StartRead(prefix, es, q, flags);
    var s := Start(str, flags).value;
    ElementsRead(str, s, es, q);
    AfterAllPath(s, es, q);
    FeaturesRead(s, es, q);
  }
}
