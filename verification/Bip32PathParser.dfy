/**
 path_from_str_n of src/bip32.c and its callers: the scanning loops, proved to give the verdict of `Bip32Path.Parse`.
 */
module Bip32PathParser {
  import opened Common
  import opened Bip32Path

  method SkipDigitsLoop(str: string, from: nat) returns (i: nat)
    requires from <= |str|
    ensures i == SkipDigits(str, from)
  {
    i := from;
    while i < |str| && '0' <= str[i] <= '9'
      invariant i <= |str| && SkipDigits(str, i) == SkipDigits(str, from)
    {
      i := i + 1;
    }
  }

  /** Accumulates a number; ok is false once it reaches 2^31. */
  method ReadNumberLoop(str: string, from: nat) returns (ok: bool, v: uint64, i: nat)
    requires from <= |str|
    ensures ReadNumber(str, from, 0) == if ok then Some((v, i)) else None
    ensures ok ==> v < HARDENED && from <= i <= |str|
  {
    ok, v, i := true, 0, from;
    while i < |str| && '0' <= str[i] <= '9'
      invariant from <= i <= |str| && v < HARDENED
      invariant ReadNumber(str, i, v) == ReadNumber(str, from, 0)
    {
      v := v * 10 + DigitValue(str[i]);
      if v >= HARDENED {
        return false, v, i;
      }
      i := i + 1;
    }
  }

  method SkipMarkAt(str: string, from: nat, allowUpper: bool, hardened: bool) returns (i: nat, hardened': bool)
    requires from <= |str|
    ensures i == SkipMark(str, from, allowUpper) && hardened' == (hardened || i > from)
  {
    i, hardened' := from, hardened;
    if i < |str| && IsMark(str[i], allowUpper) {
      i, hardened' := i + 1, true;
    }
  }

  /** The loop over alternatives before the wanted one. */
  method SkipBeforeLoop(str: string, from: nat, hardened: bool, multiIndex: nat, allowUpper: bool)
    returns (ok: bool, s: Scan)
    requires from <= |str|
    ensures SkipBefore(str, Scan(from, hardened, 0), multiIndex, allowUpper) == if ok then Some(s) else None
    ensures ok ==> from <= s.i <= |str|
  {
    var multi := 0;
    ok, s := true, Scan(from, hardened, 0);
    while s.i < |str| && multi < multiIndex
      invariant from <= s.i <= |str| && multi <= multiIndex
      invariant SkipBefore(str, s, multiIndex - multi, allowUpper)
             == SkipBefore(str, Scan(from, hardened, 0), multiIndex, allowUpper)
    {
      var i := SkipDigitsLoop(str, s.i);
      if i == s.i {
        return false, s;
      }
      var k, h := SkipMarkAt(str, i, allowUpper, s.hardened);
      if k == |str| || str[k] != ';' {
        return false, s;
      }
      s := Scan(k + 1, h, s.count + 1);
      multi := multi + 1;
    }
  }

  /** The loop over alternatives after the wanted one. */
  method SkipAfterLoop(str: string, from: Scan, allowUpper: bool) returns (ok: bool, s: Scan)
    requires from.i <= |str|
    ensures SkipAfter(str, from, allowUpper) == if ok then Some(s) else None
    ensures ok ==> from.i <= s.i <= |str|
  {
    ok, s := true, from;
    while s.i < |str| && str[s.i] != '>'
      invariant from.i <= s.i <= |str|
      invariant SkipAfter(str, s, allowUpper) == SkipAfter(str, from, allowUpper)
      decreases |str| - s.i
    {
      var i, count := s.i, s.count;
      if str[i] == ';' {
        i, count := i + 1, count + 1;
      }
      var j := SkipDigitsLoop(str, i);
      if j == i {
        return false, s;
      }
      var k, h := SkipMarkAt(str, j, allowUpper, s.hardened);
      s := Scan(k, h, count);
    }
  }

  /** The wanted alternative, then the rest of the group. */
  method ReadChosen(str: string, q: Request, s: State, b: Scan) returns (r: Option<State>)
    requires s.i < b.i <= |str|
    ensures r == ChosenStep(str, q, s, b)
  {
    hide Bip32Path.ReadNumber, Bip32Path.SkipAfter, Bip32Path.SkipMark;
    var ok, v, i := ReadNumberLoop(str, b.i);
    if !ok {
      return None; // derivation index too large
    }
    var k, hardened := SkipMarkAt(str, i, q.allowUpper, b.hardened);
    var value, a := WithMark(v, k > i), b;
    ok, a := SkipAfterLoop(str, Scan(k, hardened, b.count + 1), q.allowUpper);
    if !ok || a.i == |str| || str[a.i] != '>' || a.count < 2 || a.count >= 255 {
      return None;
    }
    return Some(s.(i := a.i + 1, path := s.path + [value], mayGroup := false,
                   features := s.features.(multipath := true, numMulti := a.count, hardened := a.hardened)));
  }

  /** A group: skip to the wanted alternative, read it, skip the rest. */
  method ReadGroup(str: string, q: Request, s: State) returns (r: Option<State>)
    requires s.i < |str|
    ensures r == GroupStep(str, q, s)
  {
    var start := s.i + 1;
    if start < |str| && (str[start] < '0' || str[start] > '9') {
      return None; // missing initial child
    }
    var ok, b := SkipBeforeLoop(str, start, s.features.hardened, q.multiIndex, q.allowUpper);
    if !ok || (b.count < q.multiIndex && b.i == start) {
      return None;
    }
    r := ReadChosen(str, q, s, b);
  }

  method ReadSlash(str: string, q: Request, s: State) returns (r: Option<State>)
    requires s.i < |str|
    ensures r == SlashStep(str, q, s)
  {
    var i := s.i;
    var marked := i > 0 && !IsDigit(str[i - 1]) && IsMark(str[i - 1], q.allowUpper);
    if i > 0 && (str[i - 1] < '0' || str[i - 1] > '9') && !marked && str[i - 1] != '*' && str[i - 1] != '>' {
      return None; // only valid after an element
    }
    i := i + 1;
    if i == |str| || str[i] == '/' {
      return None; // trailing slash
    }
    return Some(s.(i := i, features := s.features.(hardened := s.features.hardened || marked)));
  }

  method ReadWildcard(str: string, q: Request, s: State) returns (r: Option<State>)
    requires s.i < |str| && q.childNum < HARDENED
    ensures r == WildcardStep(str, q, s)
  {
    var i := s.i;
    if !s.mayWildcard || (i > 0 && str[i - 1] != '/') {
      return None;
    }
    i := i + 1;
    var k, hardened := SkipMarkAt(str, i, q.allowUpper, s.features.hardened);
    if k != |str| && str[k] != '/' {
      return None; // followed by something other than a slash
    }
    return Some(s.(i := k, path := s.path + [WithMark(q.childNum, k > i)], mayWildcard := false,
                   features := s.features.(wildcard := true, wildcardPos := |s.path|, hardened := hardened)));
  }

  /** One round of the main loop: reads the element or separator at s.i. */
  method ReadElement(str: string, q: Request, s: State) returns (r: Option<State>)
    requires s.i < |str| && q.childNum < HARDENED
    ensures r == Step(str, q, s)
  {
    if str[s.i] == '<' && s.mayGroup {
      r := ReadGroup(str, q, s);
      return;
    }
    var ok, v, i := ReadNumberLoop(str, s.i);
    if !ok {
      return None; // derivation index too large
    }
    if i == s.i {
      NoNumber(str, i);
      if str[i] == '/' {
        r := ReadSlash(str, q, s);
        return;
      }
      if str[i] != '*' {
        return None; // unknown character
      }
      r := ReadWildcard(str, q, s);
      return;
    }
    var k, hardened := SkipMarkAt(str, i, q.allowUpper, s.features.hardened);
    return Some(s.(i := k, path := s.path + [WithMark(v, k > i)],
                   features := s.features.(hardened := hardened)));
  }

  /** Nothing is read exactly where there is no digit. */
  lemma NoNumber(str: string, i: nat)
    requires i < |str|
    ensures ReadNumber(str, i, 0) == Some((0, i)) <==> !IsDigit(str[i])
  {
  }

  /**
   path_from_str_n: the verdict, the packed features and the reported length never depend on
   the room in childPath, which receives as much of the path as it holds.
   */
  method PathFromStrN(str: string, childNum: uint32, multiIndex: uint32, flags: PathFlags, childPath: array<uint32>)
    returns (ret: Status, features: uint32, written: nat)
    modifies childPath
    ensures var parsed := if childPath.Length == 0 then None else Parse(str, childNum, multiIndex, flags);
            if parsed.None? then ret == Einval && features == 0 && written == 0
            else
              && ret == Ok && written == |parsed.value.path|
              && features == Pack(parsed.value.features, written)
              && (forall k :: 0 <= k < Min(written, childPath.Length) ==> childPath[k] == parsed.value.path[k])
              && (forall k :: written <= k < childPath.Length ==> childPath[k] == old(childPath[k]))
  {
    hide Step, Pack, PrefixLength;
    if InvalidRequest(str, childNum, multiIndex, flags) || childPath.Length == 0 {
      return Einval, 0, 0;
    }
    if flags.bare && str[0] == '/' {
      return Einval, 0, 0;
    }
    var n := if flags.bare then 0 else PrefixLength(str, flags.allowUpper);
    var q := Request(childNum, multiIndex, flags.allowUpper);
    var s := State(n, [], Features(n == 0, false, false, false, 0, 0), flags.wildcard, flags.multipath);
    ghost var start := s;
    ParseFromFits(str, q, start);
    while s.i < |str|
      invariant s.i <= |str| && ParseFrom(str, q, s) == ParseFrom(str, q, start)
      invariant forall k :: 0 <= k < Min(|s.path|, childPath.Length) ==> childPath[k] == s.path[k]
      invariant forall k :: |s.path| <= k < childPath.Length ==> childPath[k] == old(childPath[k])
      decreases |str| - s.i
    {
      var t := ReadElement(str, q, s);
      if t.None? {
        return Einval, 0, 0;
      }
      StepAppends(str, q, s);
      if |s.path| < |t.value.path| && |s.path| < childPath.Length {
        childPath[|s.path|] := t.value.path[|s.path|];
      }
      s := t.value;
    }
    if !Accepts(s, childNum, multiIndex) {
      return Einval, 0, 0;
    }
    PackRoundTrip(s.features, |s.path|);
    return Ok, Pack(s.features, |s.path|), |s.path|;
  }

  lemma StepAppends(str: string, q: Request, s: State)
    requires s.i < |str| && q.childNum < HARDENED
    ensures var r := Step(str, q, s);
            r.Some? ==> s.path <= r.value.path && |r.value.path| <= |s.path| + 1
  {
  }

  /** bip32_path_from_str_n_len: a one-slot parse answers the length a full parse would report. */
  method PathFromStrNLen(str: string, childNum: uint32, multiIndex: uint32, flags: PathFlags)
    returns (ret: Status, written: nat)
    ensures var parsed := Parse(str, childNum, multiIndex, flags);
            if parsed.None? then ret == Einval && written == 0
            else ret == Ok && written == |parsed.value.path|
  {
    var childPath := new uint32[1];
    var features;
    ret, features, written := PathFromStrN(str, childNum, multiIndex, flags, childPath);
  }

  /** bip32_path_str_n_get_features: wildcards, groups and upper-case letters allowed, child 0 and alternative 0. */
  method PathStrNGetFeatures(str: string) returns (ret: Status, features: uint32)
    ensures var parsed := Parse(str, 0, 0, PathFlags(true, false, true, true, false));
            if parsed.None? then ret == Einval && features == 0
            else ret == Ok && features == Pack(parsed.value.features, |parsed.value.path|)
  {
    var dummy := new uint32[1];
    var written;
    ret, features, written := PathFromStrN(str, 0, 0, PathFlags(true, false, true, true, false), dummy);
  }
}
