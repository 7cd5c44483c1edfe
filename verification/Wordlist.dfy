/** Lists of words parsed from a string: src/wordlist.c. */
module Wordlists {
  import opened Common
  import opened Radix

  /** A C string: no character of it is NUL. */
  type CString = s: string | forall i :: 0 <= i < |s| ==> s[i] != '\0'

  function FirstSpace(s: string): (k: nat)
    ensures k <= |s| && (k < |s| ==> s[k] == ' ') && forall i :: 0 <= i < k ==> s[i] != ' '
  {
    if s == [] || s[0] == ' ' then 0 else 1 + FirstSpace(s[1..])
  }

  /** The words between single spaces; two spaces in a row enclose an empty word. */
  function Split(s: string): (ws: seq<string>)
    ensures ws != [] && |ws| <= |s| + 1
  {
    var k := FirstSpace(s);
    if k == |s| then [s] else [s[..k]] + Split(s[k + 1..])
  }

  function Join(ws: seq<string>): string
    requires ws != []
  {
    if |ws| == 1 then ws[0] else ws[0] + " " + Join(ws[1..])
  }

  predicate NoSpace(w: string) {
    forall i :: 0 <= i < |w| ==> w[i] != ' '
  }

  lemma SplitHead(s: string)
    ensures var k := FirstSpace(s);
            Split(s)[0] == s[..k] && if k == |s| then |Split(s)| == 1 else Split(s)[1..] == Split(s[k + 1..])
  {
  }

  lemma {:induction false} JoinSplit(s: string)
    ensures Join(Split(s)) == s
    decreases |s|
  {
    hide Split, FirstSpace;
    SplitHead(s);
    var k := FirstSpace(s);
    if k < |s| {
      JoinSplit(s[k + 1..]);
      assert s == s[..k] + " " + s[k + 1..];
    }
  }

  lemma {:induction false} FirstSpaceAfter(w: string, rest: string)
    requires NoSpace(w)
    ensures FirstSpace(w) == |w| && FirstSpace(w + " " + rest) == |w|
  {
    if w == [] {
      assert w + " " + rest == " " + rest;
    } else {
      FirstSpaceAfter(w[1..], rest);
      assert (w + " " + rest)[1..] == w[1..] + " " + rest;
    }
  }

  lemma {:induction false} SplitJoin(ws: seq<string>)
    requires ws != [] && forall i :: 0 <= i < |ws| ==> NoSpace(ws[i])
    ensures Split(Join(ws)) == ws
  {
    if |ws| == 1 {
      FirstSpaceAfter(ws[0], "");
    } else {
      var s, rest := Join(ws), Join(ws[1..]);
      FirstSpaceAfter(ws[0], rest);
      assert s[..|ws[0]|] == ws[0] && s[|ws[0]| + 1..] == rest;
      SplitJoin(ws[1..]);
    }
  }

  /** The words of a string have no spaces, and no NUL if the string has none. */
  lemma {:induction false} SplitClean(s: CString)
    ensures forall i :: 0 <= i < |Split(s)| ==>
              NoSpace(Split(s)[i]) && forall j :: 0 <= j < |Split(s)[i]| ==> Split(s)[i][j] != '\0'
    decreases |s|
  {
    var k := FirstSpace(s);
    if k < |s| {
      SplitClean(s[k + 1..]);
      assert forall i :: 0 < i < |Split(s)| ==> Split(s)[i] == Split(s[k + 1..])[i - 1];
    }
  }

  /** strcmp: the order of the first characters that differ, a prefix coming first. */
  function StrCmp(a: string, b: string): int {
    if a == [] then (if b == [] then 0 else -1)
    else if b == [] then 1
    else if a[0] != b[0] then (if a[0] < b[0] then -1 else 1)
    else StrCmp(a[1..], b[1..])
  }

  lemma {:induction false} StrCmpEqual(a: string, b: string)
    ensures StrCmp(a, b) == 0 <==> a == b
    ensures StrCmp(a, b) == -StrCmp(b, a)
  {
    if a != [] && b != [] && a[0] == b[0] {
      StrCmpEqual(a[1..], b[1..]);
      assert a == [a[0]] + a[1..] && b == [b[0]] + b[1..];
    }
  }

  lemma {:induction false} StrCmpTransitive(a: string, b: string, c: string)
    requires StrCmp(a, b) <= 0 && StrCmp(b, c) <= 0
    ensures StrCmp(a, c) <= 0
    ensures StrCmp(a, c) == 0 ==> StrCmp(a, b) == 0 && StrCmp(b, c) == 0
  {
    if a != [] && b != [] && c != [] && a[0] == b[0] == c[0] {
      StrCmpTransitive(a[1..], b[1..], c[1..]);
    }
  }

  /** Both start with the same k characters; the first ends there, or goes on with a smaller one. */
  predicate LessAt(a: string, b: string, k: nat) {
    k <= |a| && k < |b| && a[..k] == b[..k] && (k == |a| || a[k] < b[k])
  }

  /** A word is less exactly if it ends first, or has the smaller character, behind what both start with. */
  lemma {:induction false} StrCmpMeans(a: string, b: string)
    ensures StrCmp(a, b) < 0 <==> exists k: nat :: LessAt(a, b, k)
  {
    if a != [] && b != [] && a[0] == b[0] {
      StrCmpMeans(a[1..], b[1..]);
      if k: nat :| LessAt(a[1..], b[1..], k) {
        assert a[..k + 1] == [a[0]] + a[1..][..k] && b[..k + 1] == [b[0]] + b[1..][..k];
        assert LessAt(a, b, k + 1);
      }
      if k: nat :| LessAt(a, b, k) {
        assert k > 0;
        assert a[1..][..k - 1] == a[..k][1..] && b[1..][..k - 1] == b[..k][1..];
        assert LessAt(a[1..], b[1..], k - 1);
      }
    } else if b != [] {
      FirstDecides(a, b);
    }
  }

  lemma FirstDecides(a: string, b: string)
    requires b != [] && (a == [] || a[0] != b[0])
    ensures LessAt(a, b, 0) <==> a == [] || a[0] < b[0]
    ensures forall k: nat :: k > 0 ==> !LessAt(a, b, k)
  {
    assert a[..0] == b[..0];
    forall k: nat | 0 < k <= |a| && k < |b|
      ensures a[..k] != b[..k]
    {
      assert a[..k][0] != b[..k][0];
    }
  }

  /** Words are joined by single spaces. */
  lemma {:induction false} JoinSpaces(ws: seq<string>, w: string)
    ensures Join([w]) == w && (ws != [] ==> Join(ws + [w]) == Join(ws) + " " + w)
  {
    if ws != [] {
      assert (ws + [w])[0] == ws[0] && (ws + [w])[1..] == ws[1..] + [w];
      if |ws| > 1 {
        JoinSpaces(ws[1..], w);
        assert ws[0] + " " + (Join(ws[1..]) + " " + w) == ws[0] + " " + Join(ws[1..]) + " " + w;
      } else {
        assert ws[1..] + [w] == [w];
      }
    }
  }

  predicate Sorted(ws: seq<string>) {
    forall i :: 0 < i < |ws| ==> StrCmp(ws[i - 1], ws[i]) <= 0
  }

  lemma {:induction false} SortedOrder(ws: seq<string>, i: nat, j: nat)
    requires Sorted(ws) && i <= j < |ws|
    ensures StrCmp(ws[i], ws[j]) <= 0
    decreases j
  {
    if i == j {
      StrCmpEqual(ws[i], ws[j]);
    } else {
      SortedOrder(ws, i, j - 1);
      StrCmpTransitive(ws[i], ws[j - 1], ws[j]);
    }
  }

  /** Neither before a word that is less than the one sought nor after one that is greater is there a match. */
  lemma SortedExcludes(ws: seq<string>, word: string, m: nat, k: nat)
    requires Sorted(ws) && m < |ws| && k < |ws|
    requires (StrCmp(word, ws[m]) > 0 && k <= m) || (StrCmp(word, ws[m]) < 0 && m <= k)
    ensures ws[k] != word
  {
    StrCmpEqual(word, ws[m]);
    if k <= m { SortedOrder(ws, k, m); } else { SortedOrder(ws, m, k); }
  }

  /** Floor of the binary logarithm. */
  ghost predicate IsLog2(n: nat, bits: nat) {
    Pow(2, bits) <= n < 2 * Pow(2, bits)
  }

  /** bits halvings of n lead to 2 m or 2 m + 1, the last one still to come. */
  ghost predicate Halved(n: nat, bits: nat, m: nat) {
    2 * m * Pow(2, bits) <= n < (2 * m + 2) * Pow(2, bits) && Pow(2, bits) <= n
  }

  lemma HalveStart(n: nat)
    requires n > 0
    ensures Halved(n, 0, n / 2)
  {
    assert Pow(2, 0) == 1;
  }

  lemma HalveStep(n: nat, bits: nat, m: nat)
    requires m > 0 && Halved(n, bits, m)
    ensures Halved(n, bits + 1, m / 2)
  {
    assert Pow(2, bits + 1) == 2 * Pow(2, bits);
    Halve(m, Pow(2, bits));
  }

  lemma HalveEnd(n: nat, bits: nat)
    requires Halved(n, bits, 0)
    ensures IsLog2(n, bits)
  {
  }

  /** get_bits */
  method GetBits(n: nat) returns (bits: nat)
    ensures if n == 0 then bits == 0 else IsLog2(n, bits)
  {
    hide Halved, IsLog2;
    bits := 0;
    var m: nat := n / 2;
    if n > 0 { HalveStart(n); }
    while m > 0
      invariant if n == 0 then m == bits == 0 else Halved(n, bits, m)
      decreases m
    {
      HalveStep(n, bits, m);
      bits := bits + 1;
      m := m / 2;
    }
    if n > 0 { HalveEnd(n, bits); }
  }

  /** One more halving of m, the weight p doubling. */
  lemma Halve(m: nat, p: nat)
    requires m > 0
    ensures 2 * (m / 2) * (2 * p) <= 2 * m * p
    ensures (2 * m + 2) * p <= (2 * (m / 2) + 2) * (2 * p)
    ensures 2 * p <= 2 * m * p
  {
    var h := m / 2;
    assert 2 * h <= m <= 2 * h + 1;
    Product(2 * h, m, 2 * p, 2 * p);
    Product(m + 1, 2 * h + 2, 2 * p, 2 * p);
    Product(1, m, 2 * p, 2 * p);
    assert 2 * m * p == m * (2 * p);
    assert (2 * m + 2) * p == (m + 1) * (2 * p);
    assert 2 * h * (2 * p) == (2 * h) * (2 * p);
  }

  /** wordlist_count */
  method WordlistCount(words: CString) returns (len: nat)
    ensures len == |Split(words)|
  {
    hide Split, FirstSpace;
    len := 1;
    var i := 0;
    ghost var total := |Split(words)|;
    assert words[0..] == words;
    SplitHead(words[|words|..]);
    while i < |words|
      invariant 0 <= i <= |words|
      invariant len + |Split(words[i..])| == total + 1
    {
      CountStep(words[i..]);
      assert words[i..][1..] == words[i + 1..];
      if words[i] == ' ' {
        len := len + 1;
      }
      i := i + 1;
    }
  }

  lemma CountStep(s: string)
    requires s != []
    ensures |Split(s)| == |Split(s[1..])| + if s[0] == ' ' then 1 else 0
  {
    hide Split;
    SplitHead(s);
    SplitHead(s[1..]);
    var k := FirstSpace(s);
    if s[0] != ' ' && k < |s| {
      assert s[1..][k..] == s[k + 1..];
      assert |Split(s)[1..]| == |Split(s[1..])[1..]|;
    }
  }

  /** A NUL-terminated text stands at a place. */
  ghost predicate HasText(str: seq<char>, at: nat, w: string) {
    at + |w| < |str| && (forall k :: 0 <= k < |w| ==> str[at + k] == w[k]) && str[at + |w|] == '\0'
  }

  ghost predicate HasString(str: array<char>, at: nat, w: string)
    reads str
  {
    HasText(str[..], at, w)
  }

  lemma Terminated(str: array<char>, at: nat, w: CString, k: nat)
    requires HasString(str, at, w) && k <= |w|
    ensures str[at + k] == '\0' <==> k == |w|
  {
    if k < |w| { assert str[at + k] == w[k]; }
  }

  /** struct words */
  class Words {
    /** The string, its separators overwritten with NUL. */
    const str: array<char>
    /** Where each word starts. */
    const indices: array<nat>
    const len: nat
    const bits: nat
    const sorted: bool
    /** The words. */
    ghost const list: seq<CString>

    ghost predicate Valid()
      reads this, str, indices
    {
      && len == indices.Length == |list| && len > 0
      && IsLog2(len, bits)
      && (sorted ==> Sorted(list))
      && forall i :: 0 <= i < len ==> HasString(str, indices[i], list[i])
    }

    constructor (str: array<char>, indices: array<nat>, bits: nat, sorted: bool, ghost list: seq<CString>)
      requires indices.Length == |list| > 0 && IsLog2(|list|, bits) && (sorted ==> Sorted(list))
      requires forall i :: 0 <= i < |list| ==> HasString(str, indices[i], list[i])
      ensures Valid() && this.list == list && this.str == str && this.indices == indices && this.bits == bits
              && this.sorted == sorted
    {
      this.str, this.indices, this.len, this.bits, this.sorted, this.list :=
          str, indices, indices.Length, bits, sorted, list;
    }

    /** The word at a pointer of the index, up to its NUL. */
    method Word(i: nat) returns (w: string)
      requires Valid() && i < len
      ensures w == list[i]
    {
      w := [];
      while str[indices[i] + |w|] != '\0'
        invariant |w| <= |list[i]| && w == list[i][..|w|]
        decreases |list[i]| - |w|
      {
        w := w + [str[indices[i] + |w|]];
      }
      Terminated(str, indices[i], list[i], |w|);
    }

    /** The check of wordlist_init for neighbours out of order. */
    method IsSorted() returns (sorted: bool)
      requires Valid()
      ensures sorted <==> Sorted(list)
    {
      sorted := true;
      var i := 1;
      while i < len && sorted
        invariant 1 <= i <= len
        invariant sorted <==> forall k :: 0 < k < i ==> StrCmp(list[k - 1], list[k]) <= 0
      {
        var a := Word(i - 1);
        var b := Word(i);
        if StrCmp(a, b) > 0 {
          sorted := false;
        }
        i := i + 1;
      }
    }

    /** wordlist_lookup_word: 0 if there is no such word, otherwise the place of one plus 1. */
    method LookupWord(word: string) returns (r: nat)
      requires Valid()
      ensures r == 0 ==> word !in list
      ensures r > 0 ==> r - 1 < len && list[r - 1] == word
    {
      if sorted {
        r := BinarySearch(word);
      } else {
        r := LinearSearch(word);
      }
    }

    method LinearSearch(word: string) returns (r: nat)
      requires Valid()
      ensures r == 0 ==> word !in list
      ensures r > 0 ==> r - 1 < len && list[r - 1] == word
    {
      r := 0;
      var i := 0;
      while i < len && r == 0
        invariant 0 <= i <= len
        invariant r == 0 ==> forall k :: 0 <= k < i ==> list[k] != word
        invariant r > 0 ==> r - 1 < len && list[r - 1] == word
      {
        var w := Word(i);
        StrCmpEqual(word, w);
        if StrCmp(word, w) == 0 {
          r := i + 1;
        }
        i := i + 1;
      }
    }

    /** bsearch over the words. */
    method BinarySearch(word: string) returns (r: nat)
      requires Valid() && sorted
      ensures r == 0 ==> word !in list
      ensures r > 0 ==> r - 1 < len && list[r - 1] == word
    {
      var lo, hi := 0, len;
      while lo < hi
        invariant 0 <= lo <= hi <= len
        invariant forall k :: 0 <= k < len && !(lo <= k < hi) ==> list[k] != word
      {
        var m := (lo + hi) / 2;
        var w := Word(m);
        StrCmpEqual(word, w);
        var c := StrCmp(word, w);
        if c == 0 {
          return m + 1;
        }
        forall k | 0 <= k < len && ((c > 0 && k <= m) || (c < 0 && m <= k))
          ensures list[k] != word
        {
          SortedExcludes(list, word, m, k);
        }
        if c > 0 {
          lo := m + 1;
        } else {
          hi := m;
        }
      }
      r := 0;
    }

    /** wordlist_lookup_index */
    method LookupIndex(idx: nat) returns (w: Option<string>)
      requires Valid()
      ensures w == if idx < len then Some(list[idx]) else None
    {
      if idx >= len {
        return None;
      }
      var word := Word(idx);
      w := Some(word);
    }
  }

  /** The word after the first len is the one up to the next space, and the others are those after it. */
  lemma NextWord(s: string, len: nat, start: nat, p: nat)
    requires len < |Split(s)| && start <= |s| && Split(s)[len..] == Split(s[start..])
    requires p == start + FirstSpace(s[start..])
    ensures Split(s)[len] == s[start..p]
    ensures if p == |s| then len + 1 == |Split(s)| else Split(s)[len + 1..] == Split(s[p + 1..])
  {
    hide Split, FirstSpace;
    SplitHead(s[start..]);
    assert Split(s)[len] == Split(s)[len..][0];
    assert Split(s)[len + 1..] == Split(s)[len..][1..];
    assert p < |s| ==> s[start..][p - start + 1..] == s[p + 1..];
  }

  /** Where the word at p ends: at a space or the NUL. */
  method WordEnd(str: array<char>, start: nat, ghost words: CString) returns (p: nat)
    requires start <= |words| && str.Length == |words| + 1
    requires forall k :: start <= k < str.Length ==> str[k] == if k < |words| then words[k] else '\0'
    ensures p == start + FirstSpace(words[start..])
  {
    p := start;
    while str[p] != '\0' && str[p] != ' '
      invariant start <= p <= start + FirstSpace(words[start..])
      decreases |words| - p
    {
      p := p + 1;
    }
    assert p < |words| ==> words[start..][p - start] == words[p];
  }

  /** After len words: those stand, and from p on the string is untouched. */
  ghost predicate Tokenised(str: seq<char>, indices: seq<nat>, words: CString, len: nat, p: nat) {
    && |str| == |words| + 1 && len <= |indices| == |Split(words)| && p <= |words| + 1
    && (len < |indices| ==> p <= |words| && Split(words)[len..] == Split(words[p..]))
    && (forall k :: p <= k < |str| ==> str[k] == if k < |words| then words[k] else '\0')
    && forall i :: 0 <= i < len ==>
      indices[i] + |Split(words)[i]| < p && HasText(str, indices[i], Split(words)[i])
  }

  /** Writing a NUL further on leaves a text standing. */
  lemma TextStays(str: seq<char>, at: nat, w: string, p: nat)
    requires HasText(str, at, w) && at + |w| < p < |str|
    ensures HasText(str[p := '\0'], at, w)
  {
  }

  /** The text up to a NUL that was written behind it. */
  lemma TextEnds(str: seq<char>, words: CString, start: nat, p: nat)
    requires start <= p <= |words| && |str| == |words| + 1
    requires forall k :: start <= k < |str| ==> str[k] == if k < |words| then words[k] else '\0'
    ensures HasText(str[p := '\0'], start, words[start..p])
  {
  }

  lemma TokenStep(str: seq<char>, indices: seq<nat>, words: CString, len: nat, start: nat, p: nat)
    requires Tokenised(str, indices, words, len, start) && len < |indices|
    requires p == start + FirstSpace(words[start..])
    ensures Tokenised(str[p := '\0'], indices[len := start], words, len + 1, p + 1)
  {
    hide Split, FirstSpace, HasText;
    NextWord(words, len, start, p);
    TextEnds(str, words, start, p);
    forall i | 0 <= i < len
      ensures HasText(str[p := '\0'], indices[i], Split(words)[i])
    {
      TextStays(str, indices[i], Split(words)[i], p);
    }
  }

  /** The tokeniser of wordlist_init: each separator becomes a NUL, each word start is noted. */
  method Tokenise(str: array<char>, indices: array<nat>, words: CString)
    requires str.Length == |words| + 1 && indices.Length == |Split(words)|
    requires HasString(str, 0, words)
    modifies str, indices
    ensures forall i :: 0 <= i < indices.Length ==> HasString(str, indices[i], Split(words)[i])
  {
    hide Split, FirstSpace;
    var p := 0;
    assert words[0..] == words && Split(words)[0..] == Split(words);
    for len := 0 to indices.Length
      invariant Tokenised(str[..], indices[..], words, len, p)
    {
      ghost var was, at, start := str[..], indices[..], p;
      indices[len] := p;
      p := WordEnd(str, p, words);
      str[p] := '\0';
      TokenStep(was, at, words, len, start, p);
      assert str[..] == was[p := '\0'] && indices[..] == at[len := start];
      p := p + 1;
    }
    assert forall i :: 0 <= i < indices.Length ==> indices[..][i] == indices[i];
  }

  /** wordlist_init */
  method WordlistInit(words: CString) returns (w: Words)
    ensures fresh(w) && fresh(w.str) && fresh(w.indices) && w.Valid() && w.list == Split(words)
    ensures w.sorted <==> Sorted(w.list)
  {
    SplitClean(words);
    ghost var list: seq<CString> := Split(words);
    var len := WordlistCount(words);
    var str := new char[|words| + 1](k requires 0 <= k <= |words| => if k < |words| then words[k] else '\0');
    var bits := GetBits(len);
    var indices := new nat[len];
    Tokenise(str, indices, words);
    var all := new Words(str, indices, bits, false, list);
    var sorted := all.IsSorted();
    w := new Words(str, indices, bits, sorted, list);
  }
}
