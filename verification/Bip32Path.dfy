/**
 The grammar of BIP 32 path strings as src/bip32.c accepts it: numbers with hardened
 marks, at most one wildcard, at most one group of alternatives.
 */
module Bip32Path {
  import opened Common
  import Radix

  const HARDENED: nat := 0x8000_0000
  const PATH_MAX_LEN: nat := 255

  datatype PathFlags = PathFlags(wildcard: bool, bare: bool, allowUpper: bool, multipath: bool, undefined: bool)

  datatype Features = Features(bare: bool, hardened: bool, wildcard: bool, multipath: bool,
                               wildcardPos: nat, numMulti: nat)

  /** What the caller asks for besides the string. */
  datatype Request = Request(childNum: nat, multiIndex: nat, allowUpper: bool)

  /** The parser between two elements. */
  datatype State = State(i: nat, path: seq<uint32>, features: Features, mayWildcard: bool, mayGroup: bool)

  /** A scan over the alternatives of a group: position, whether any was marked, and how many were seen. */
  datatype Scan = Scan(i: nat, hardened: bool, count: nat)

  predicate IsDigit(c: char) {
    '0' <= c <= '9'
  }

  function DigitValue(c: char): nat
    requires IsDigit(c)
  {
    (c - '0') as int
  }

  predicate IsMark(c: char, allowUpper: bool) {
    c == '\'' || c == 'h' || (allowUpper && c == 'H')
  }

  function SkipDigits(str: string, i: nat): (j: nat)
    requires i <= |str|
    ensures i <= j <= |str|
    decreases |str| - i
  {
    if i < |str| && IsDigit(str[i]) then SkipDigits(str, i + 1) else i
  }

  /** Reads a number on top of v; fails once it would reach 2^31. */
  function ReadNumber(str: string, i: nat, v: nat): (r: Option<(nat, nat)>)
    requires i <= |str| && v < HARDENED
    ensures r.Some? ==> r.value.0 < HARDENED && i <= r.value.1 <= |str|
    decreases |str| - i
  {
    if i < |str| && IsDigit(str[i]) then
      var w := v * 10 + DigitValue(str[i]);
      if w >= HARDENED then None else ReadNumber(str, i + 1, w)
    else Some((v, i))
  }

  function SkipMark(str: string, i: nat, allowUpper: bool): (j: nat)
    requires i <= |str|
    ensures i <= j <= |str|
  {
    if i < |str| && IsMark(str[i], allowUpper) then i + 1 else i
  }

  /** Skips the alternatives before the wanted one. */
  function SkipBefore(str: string, s: Scan, todo: nat, allowUpper: bool): (r: Option<Scan>)
    requires s.i <= |str|
    ensures r.Some? ==> s.i <= r.value.i <= |str|
    decreases todo
  {
    if todo == 0 || s.i == |str| then Some(s)
    else
      var j := SkipDigits(str, s.i);
      var k := SkipMark(str, j, allowUpper);
      if j == s.i || k == |str| || str[k] != ';' then None
      else SkipBefore(str, Scan(k + 1, s.hardened || k > j, s.count + 1), todo - 1, allowUpper)
  }

  /** Skips the alternatives after the wanted one, up to the closing bracket or the end. */
  function SkipAfter(str: string, s: Scan, allowUpper: bool): (r: Option<Scan>)
    requires s.i <= |str|
    ensures r.Some? ==> s.i <= r.value.i <= |str| && (r.value.i < |str| ==> str[r.value.i] == '>')
    decreases |str| - s.i
  {
    if s.i == |str| || str[s.i] == '>' then Some(s)
    else
      var t := if str[s.i] == ';' then Scan(s.i + 1, s.hardened, s.count + 1) else s;
      var j := SkipDigits(str, t.i);
      if j == t.i then None
      else
        var k := SkipMark(str, j, allowUpper);
        SkipAfter(str, Scan(k, t.hardened || k > j, t.count), allowUpper)
  }

  function WithMark(v: nat, marked: bool): uint32
    requires v < HARDENED
  {
    if marked then v + HARDENED else v
  }

  /** A plain number, marked or not. */
  function NumberStep(str: string, q: Request, s: State): (r: Option<State>)
    requires s.i < |str| && IsDigit(str[s.i])
    ensures r.Some? ==> s.i < r.value.i <= |str|
  {
    var (v, j) :- ReadNumber(str, s.i, 0);
    assert ReadNumber(str, s.i, 0) == ReadNumber(str, s.i + 1, DigitValue(str[s.i]));
    var k := SkipMark(str, j, q.allowUpper);
    Some(s.(i := k, path := s.path + [WithMark(v, k > j)],
            features := s.features.(hardened := s.features.hardened || k > j)))
  }

  /** A slash may only follow an element, and must not be the last character or be doubled. */
  function SlashStep(str: string, q: Request, s: State): (r: Option<State>)
    requires s.i < |str|
    ensures r.Some? ==> s.i < r.value.i <= |str|
  {
    var marked := s.i > 0 && !IsDigit(str[s.i - 1]) && IsMark(str[s.i - 1], q.allowUpper);
    if s.i > 0 && !IsDigit(str[s.i - 1]) && !marked && str[s.i - 1] != '*' && str[s.i - 1] != '>' then None
    else if s.i + 1 == |str| || str[s.i + 1] == '/' then None
    else Some(s.(i := s.i + 1, features := s.features.(hardened := s.features.hardened || marked)))
  }

  function WildcardStep(str: string, q: Request, s: State): (r: Option<State>)
    requires s.i < |str| && q.childNum < HARDENED
    ensures r.Some? ==> s.i < r.value.i <= |str|
  {
    if !s.mayWildcard || (s.i > 0 && str[s.i - 1] != '/') then None
    else
      var j := s.i + 1;
      var k := SkipMark(str, j, q.allowUpper);
      if k < |str| && str[k] != '/' then None
      else Some(s.(i := k, path := s.path + [WithMark(q.childNum, k > j)], mayWildcard := false,
                   features := s.features.(wildcard := true, wildcardPos := |s.path|,
                                           hardened := s.features.hardened || k > j)))
  }

  /** The wanted alternative at b, and the rest of its group. */
  function ChosenStep(str: string, q: Request, s: State, b: Scan): (r: Option<State>)
    requires s.i < b.i <= |str|
    ensures r.Some? ==> s.i < r.value.i <= |str|
  {
    var (v, j) :- ReadNumber(str, b.i, 0);
    var k := SkipMark(str, j, q.allowUpper);
    var a :- SkipAfter(str, Scan(k, b.hardened || k > j, b.count + 1), q.allowUpper);
    if a.i == |str| || a.count < 2 || a.count >= 255 then None
    else Some(s.(i := a.i + 1, path := s.path + [WithMark(v, k > j)], mayGroup := false,
                 features := s.features.(multipath := true, numMulti := a.count, hardened := a.hardened)))
  }

  /** A group of alternatives: the chosen one is read, the others are skipped and counted. */
  function GroupStep(str: string, q: Request, s: State): (r: Option<State>)
    requires s.i < |str|
    ensures r.Some? ==> s.i < r.value.i <= |str|
  {
    var start := s.i + 1;
    if start < |str| && !IsDigit(str[start]) then None
    else
      var b :- SkipBefore(str, Scan(start, s.features.hardened, 0), q.multiIndex, q.allowUpper);
      if b.count < q.multiIndex && b.i == start then None
      else ChosenStep(str, q, s, b)
  }

  function Step(str: string, q: Request, s: State): (r: Option<State>)
    requires s.i < |str| && q.childNum < HARDENED
    ensures r.Some? ==> s.i < r.value.i <= |str|
  {
    if str[s.i] == '<' && s.mayGroup then GroupStep(str, q, s)
    else if IsDigit(str[s.i]) then NumberStep(str, q, s)
    else if str[s.i] == '/' then SlashStep(str, q, s)
    else if str[s.i] == '*' then WildcardStep(str, q, s)
    else None
  }

  function ParseFrom(str: string, q: Request, s: State): (r: Option<State>)
    requires s.i <= |str| && q.childNum < HARDENED
    decreases |str| - s.i
  {
    if s.i == |str| then Some(s)
    else
      var t :- Step(str, q, s);
      ParseFrom(str, q, t)
  }

  predicate InvalidRequest(str: string, childNum: uint32, multiIndex: uint32, flags: PathFlags) {
    || str == [] || childNum >= HARDENED || flags.undefined
    || (!flags.wildcard && childNum != 0) || (!flags.multipath && multiIndex != 0)
  }

  /** The optional leading m and slash. */
  function PrefixLength(str: string, allowUpper: bool): (n: nat)
    ensures n <= |str|
  {
    var n := if 0 < |str| && (str[0] == 'm' || (allowUpper && str[0] == 'M')) then 1 else 0;
    if n < |str| && str[n] == '/' then n + 1 else n
  }

  function Start(str: string, flags: PathFlags): (r: Option<State>)
    requires str != []
    ensures r.Some? ==> r.value.i <= |str|
  {
    if flags.bare && str[0] == '/' then None
    else
      var n := if flags.bare then 0 else PrefixLength(str, flags.allowUpper);
      Some(State(n, [], Features(n == 0, false, false, false, 0, 0), flags.wildcard, flags.multipath))
  }

  predicate Accepts(s: State, childNum: nat, multiIndex: nat) {
    && 0 < |s.path| <= PATH_MAX_LEN
    && (childNum == 0 || s.features.wildcard)
    && (multiIndex == 0 || s.features.multipath)
  }

  /** The verdict on a path string, and what it means. */
  function Parse(str: string, childNum: uint32, multiIndex: uint32, flags: PathFlags): Option<State> {
    if InvalidRequest(str, childNum, multiIndex, flags) then None
    else
      var start :- Start(str, flags);
      var s :- ParseFrom(str, Request(childNum, multiIndex, flags.allowUpper), start);
      if Accepts(s, childNum, multiIndex) then Some(s) else None
  }

  // ---------------------------------------------------------------- packed features

  function Flag(b: bool): nat {
    if b then 1 else 0
  }

  /** Path length in bits 0-7, group size in 8-15, wildcard position in 16-23, then four flags. */
  function Pack(f: Features, len: nat): nat {
    len + f.numMulti * 0x100 + f.wildcardPos * 0x1_0000
    + Flag(f.bare) * 0x100_0000 + Flag(f.hardened) * 0x200_0000
    + Flag(f.wildcard) * 0x400_0000 + Flag(f.multipath) * 0x800_0000
  }

  /** The masks and shifts of the public header recover every field. */
  lemma PackRoundTrip(f: Features, len: nat)
    requires len < 256 && f.numMulti < 256 && f.wildcardPos < 256
    ensures var p := Pack(f, len);
            && p < TWO_32
            && p % 0x100 == len && p / 0x100 % 0x100 == f.numMulti && p / 0x1_0000 % 0x100 == f.wildcardPos
            && p / 0x100_0000 % 2 == Flag(f.bare) && p / 0x200_0000 % 2 == Flag(f.hardened)
            && p / 0x400_0000 % 2 == Flag(f.wildcard) && p / 0x800_0000 % 2 == Flag(f.multipath)
  {
    PackedFields(len, f.numMulti, f.wildcardPos, Flag(f.bare), Flag(f.hardened), Flag(f.wildcard), Flag(f.multipath));
  }

  lemma PackedFields(len: nat, n: nat, pos: nat, b: nat, h: nat, w: nat, m: nat)
    requires len < 256 && n < 256 && pos < 256 && b < 2 && h < 2 && w < 2 && m < 2
    ensures var p := len + n * 0x100 + pos * 0x1_0000
                     + b * 0x100_0000 + h * 0x200_0000 + w * 0x400_0000 + m * 0x800_0000;
            && p % 0x100 == len && p / 0x100 % 0x100 == n && p / 0x1_0000 % 0x100 == pos
            && p / 0x100_0000 % 2 == b && p / 0x200_0000 % 2 == h && p / 0x400_0000 % 2 == w && p / 0x800_0000 % 2 == m
  {
    var r := len + n * 0x100;
    var t := r + pos * 0x1_0000;
    var flags := b + 2 * h + 4 * w + 8 * m;
    Radix.DivMod(n + 0x100 * (pos + 0x100 * flags), len, 0x100);
    Radix.DivMod(pos + 0x100 * flags, n, 0x100);
    Radix.DivMod(pos + 0x100 * flags, r, 0x1_0000);
    Radix.DivMod(flags, pos, 0x100);
    Bit(t, 0x100_0000, b, h + 2 * w + 4 * m);
    Bit(t + b * 0x100_0000, 0x200_0000, h, w + 2 * m);
    Bit(t + b * 0x100_0000 + h * 0x200_0000, 0x400_0000, w, m);
    Bit(t + b * 0x100_0000 + h * 0x200_0000 + w * 0x400_0000, 0x800_0000, m, 0);
  }

  lemma Bit(low: nat, place: nat, bit: nat, high: nat)
    requires low < place && bit < 2
    ensures (low + bit * place + high * (2 * place)) / place % 2 == bit
  {
    var q := bit + 2 * high;
    assert low + bit * place + high * (2 * place) == q * place + low;
    Radix.DivMod(q, low, place);
  }

  /** Every accepted path has features that fit their fields. */
  ghost predicate FeaturesFit(s: State) {
    s.features.numMulti < 255 && s.features.wildcardPos <= |s.path|
  }

  lemma {:induction false} ParseFromFits(str: string, q: Request, s: State)
    requires s.i <= |str| && q.childNum < HARDENED && FeaturesFit(s)
    ensures var r := ParseFrom(str, q, s); r.Some? ==> FeaturesFit(r.value) && |s.path| <= |r.value.path|
    decreases |str| - s.i
  {
    if s.i < |str| && Step(str, q, s).Some? {
      ParseFromFits(str, q, Step(str, q, s).value);
    }
  }
}
