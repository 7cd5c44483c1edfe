/** Sentences as packed word numbers: src/mnemonic.c. */
module Mnemonics {
  import opened Common
  import opened Radix
  import opened Bits
  import opened Wordlists

  /** The words with these numbers. */
  function Pick(list: seq<string>, idx: seq<nat>): (ws: seq<string>)
    requires forall i :: 0 <= i < |idx| ==> idx[i] < |list|
    ensures |ws| == |idx|
  {
    seq(|idx|, i requires 0 <= i < |idx| => list[idx[i]])
  }

  /** idx has a number for each word. */
  ghost predicate Indexes(list: seq<string>, ws: seq<string>, idx: seq<nat>) {
    |idx| == |ws| && forall i :: 0 <= i < |idx| ==> idx[i] < |list| && list[idx[i]] == ws[i]
  }

  /** How many bytes n numbers of so many bits take. */
  function PackedLength(n: nat, bits: nat): nat {
    (n * bits + 7) / 8
  }

  lemma NextPlace(n: nat, bits: nat)
    ensures (n + 1) * bits == n * bits + bits
  {
  }

  lemma NoBits(b: seq<bool>)
    requires b == []
    ensures FromBits(b) == 0
  {
  }

  lemma ReadBit(b: seq<bool>, start: nat, pos: nat)
    requires start <= pos < |b|
    ensures FromBits(b[start..pos + 1]) == 2 * FromBits(b[start..pos]) + if b[pos] then 1 else 0
  {
    assert b[start..pos + 1][..pos - start] == b[start..pos];
  }

  /** extract_index: the n'th number of so many bits. */
  method ExtractIndex(bits: nat, bytes: seq<bv8>, n: nat) returns (value: nat)
    requires (n + 1) * bits <= 8 * |bytes|
    ensures n * bits <= (n + 1) * bits && value == FromBits(BitsOf(bytes)[n * bits..(n + 1) * bits])
  {
    hide BitsOf, Bit, FromBits;
    NextPlace(n, bits);
    ghost var start := n * bits;
    var pos := n * bits;
    var end := pos + bits;
    ghost var b := BitsOf(bytes);
    value := 0;
    NoBits(b[start..pos]);
    while pos < end
      invariant start <= pos <= end
      invariant value == FromBits(b[start..pos])
    {
      ReadBit(b, start, pos);
      value := 2 * value + if Bit(bytes[pos / 8], pos % 8) then 1 else 0;
      pos := pos + 1;
    }
  }

  /** One step of store_index. */
  method StoreBit(bytesOut: array<bv8>, pos: nat, on: bool)
    requires pos < 8 * bytesOut.Length
    modifies bytesOut
    ensures BitsOf(bytesOut[..]) == old(if on then BitsOf(bytesOut[..])[pos := true] else BitsOf(bytesOut[..]))
  {
    hide BitsOf, Mask;
    ghost var b := bytesOut[..];
    if on {
      SetBitAt(b, pos);
      bytesOut[pos / 8] := bytesOut[pos / 8] | Mask(pos % 8);
      assert bytesOut[..] == b[pos / 8 := b[pos / 8] | Mask(pos % 8)];
    }
  }

  /** The bits of t up to i replace those of was from start. */
  ghost predicate Stored(s: seq<bool>, was: seq<bool>, start: nat, t: seq<bool>, i: nat) {
    i <= |t| && start + |t| <= |was| && s == was[..start] + t[..i] + was[start + i..]
  }

  /** One more bit, set if it is to be true, was false. */
  lemma NextBit(s: seq<bool>, was: seq<bool>, start: nat, t: seq<bool>, i: nat)
    requires Stored(s, was, start, t, i) && i < |t| && !was[start + i]
    ensures |s| == |was| && Stored(if t[i] then s[start + i := true] else s, was, start, t, i + 1)
  {
  }

  lemma StoredNone(was: seq<bool>, start: nat, t: seq<bool>)
    requires start + |t| <= |was|
    ensures Stored(was, was, start, t, 0)
  {
  }

  lemma StoredAll(s: seq<bool>, was: seq<bool>, start: nat, t: seq<bool>)
    requires Stored(s, was, start, t, |t|)
    ensures s == was[..start] + t + was[start + |t|..]
  {
    assert t[..|t|] == t;
  }

  /** The loop of store_index. */
  method StoreBits(bits: nat, bytesOut: array<bv8>, start: nat, value: nat)
    requires start + bits <= 8 * bytesOut.Length
    requires forall k :: start <= k < start + bits ==> !BitsOf(bytesOut[..])[k]
    modifies bytesOut
    ensures var was := old(BitsOf(bytesOut[..]));
            BitsOf(bytesOut[..]) == was[..start] + ToBits(value, bits) + was[start + bits..]
  {
    hide BitsOf, ToBits, BitSet, Stored;
    ghost var was, t := BitsOf(bytesOut[..]), ToBits(value, bits);
    StoredNone(was, start, t);
    var pos := start;
    for i := 0 to bits
      invariant pos == start + i
      invariant Stored(BitsOf(bytesOut[..]), was, start, t, i)
    {
      BitOfNumber(value, bits, i);
      NextBit(BitsOf(bytesOut[..]), was, start, t, i);
      StoreBit(bytesOut, pos, BitSet(value, bits - i - 1));
      pos := pos + 1;
    }
    StoredAll(BitsOf(bytesOut[..]), was, start, t);
  }

  /** store_index: the n'th place of so many bits, which must be zero, gets the value. */
  method StoreIndex(bits: nat, bytesOut: array<bv8>, n: nat, value: nat)
    requires (n + 1) * bits <= 8 * bytesOut.Length
    requires forall k :: n * bits <= k < (n + 1) * bits ==> !BitsOf(bytesOut[..])[k]
    modifies bytesOut
    ensures n * bits <= (n + 1) * bits
    ensures var was := old(BitsOf(bytesOut[..]));
            BitsOf(bytesOut[..]) == was[..n * bits] + ToBits(value, bits) + was[(n + 1) * bits..]
  {
    hide BitsOf, ToBits;
    NextPlace(n, bits);
    StoreBits(bits, bytesOut, n * bits, value);
  }

  /** The words, each with a space after it. */
  function Terminated(ws: seq<string>): string {
    if ws == [] then [] else ws[0] + " " + Terminated(ws[1..])
  }

  lemma {:induction false} TerminatedSnoc(ws: seq<string>, w: string)
    ensures Terminated(ws + [w]) == Terminated(ws) + w + " "
  {
    if ws == [] {
      assert ws + [w] == [w] && [w][1..] == [];
      assert Terminated([]) == [];
    } else {
      assert (ws + [w])[1..] == ws[1..] + [w];
      TerminatedSnoc(ws[1..], w);
    }
  }

  lemma {:induction false} JoinTerminated(ws: seq<string>)
    requires ws != []
    ensures Terminated(ws) == Join(ws) + " "
  {
    if |ws| == 1 {
      assert Terminated(ws[1..]) == [];
    } else {
      JoinTerminated(ws[1..]);
    }
  }

  /** The numbers in the bytes are numbers of words. */
  lemma GroupsAreWords(bytes: seq<bv8>, bits: nat, len: nat)
    requires bits > 0 && IsLog2(len, bits)
    ensures |Group(BitsOf(bytes), bits)| == 8 * |bytes| / bits
    ensures forall i :: 0 <= i < |Group(BitsOf(bytes), bits)| ==> Group(BitsOf(bytes), bits)[i] < len
  {
    var s := BitsOf(bytes);
    GroupLength(s, bits);
    forall i | 0 <= i < |Group(s, bits)|
      ensures Group(s, bits)[i] < len
    {
      GroupFits(s, bits, i);
    }
  }

  lemma GroupFits(s: seq<bool>, bits: nat, i: nat)
    requires bits > 0 && i < |s| / bits
    ensures (i + 1) * bits <= |s| && i < |Group(s, bits)| && Group(s, bits)[i] < Pow(2, bits)
    ensures i * bits <= (i + 1) * bits && Group(s, bits)[i] == FromBits(s[i * bits..(i + 1) * bits])
  {
    var q, r := |s| / bits, |s| % bits;
    assert |s| == q * bits + r;
    Product(i + 1, q, bits, bits);
    GroupAt(s, bits, i);
    assert (i + 1) * bits == i * bits + bits;
    ToFromBits(s[i * bits..(i + 1) * bits]);
  }

  /** The word of the i'th number. */
  method NthWord(w: Words, bytes: seq<bv8>, i: nat) returns (word: string)
    requires w.Valid() && w.bits > 0 && i < 8 * |bytes| / w.bits
    ensures var idx := Group(BitsOf(bytes), w.bits);
            i < |idx| && idx[i] < |w.list| && word == w.list[idx[i]]
  {
    hide BitsOf, Group, FromBits, Pow;
    GroupFits(BitsOf(bytes), w.bits, i);
    GroupsAreWords(bytes, w.bits, w.len);
    var k := ExtractIndex(w.bits, bytes, i);
    word := w.Word(k);
  }

  lemma TerminatedStep(ws: seq<string>, i: nat)
    requires i < |ws|
    ensures Terminated(ws[..i + 1]) == Terminated(ws[..i]) + ws[i] + " "
    ensures |Terminated(ws[..i + 1])| <= |Terminated(ws)|
  {
    assert ws[..i + 1] == ws[..i] + [ws[i]];
    TerminatedSnoc(ws[..i], ws[i]);
    TerminatedPrefix(ws, i + 1);
  }

  /** The first loop of mnemonic_from_bytes. */
  method SentenceLength(w: Words, bytes: seq<bv8>, total: nat, ghost ws: seq<string>) returns (strLen: nat)
    requires w.Valid() && w.bits > 0 && total == 8 * |bytes| / w.bits == |ws|
    requires var idx := Group(BitsOf(bytes), w.bits);
             |idx| == |ws| && forall i :: 0 <= i < |idx| && idx[i] < |w.list| ==> ws[i] == w.list[idx[i]]
    ensures strLen == |Terminated(ws)|
  {
    hide BitsOf, Group, Terminated;
    strLen := 0;
    NoneTerminated(ws);
    for i := 0 to total
      invariant strLen == |Terminated(ws[..i])|
    {
      var word := NthWord(w, bytes, i);
      TerminatedStep(ws, i);
      strLen := strLen + |word| + 1;
    }
    assert ws[..total] == ws;
  }

  /** The second loop of mnemonic_from_bytes. */
  method FillSentence(w: Words, bytes: seq<bv8>, total: nat, ghost ws: seq<string>, str: array<char>)
    requires w.Valid() && w.bits > 0 && total == 8 * |bytes| / w.bits == |ws|
    requires var idx := Group(BitsOf(bytes), w.bits);
             |idx| == |ws| && forall i :: 0 <= i < |idx| && idx[i] < |w.list| ==> ws[i] == w.list[idx[i]]
    requires str.Length == |Terminated(ws)| && str != w.str
    modifies str
    ensures str[..] == Terminated(ws)
  {
    hide BitsOf, Group, Terminated;
    NoneTerminated(ws);
    var out := 0;
    for i := 0 to total
      invariant w.Valid()
      invariant out == |Terminated(ws[..i])| <= str.Length
      invariant str[..out] == Terminated(ws[..i])
    {
      var word := NthWord(w, bytes, i);
      TerminatedStep(ws, i);
      CopyWord(str, out, word);
      out := out + |word| + 1;
    }
    assert ws[..total] == ws;
    assert str[..out] == str[..];
  }

  /** mnemonic_from_bytes: no sentence without a word. */
  method MnemonicFromBytes(w: Words, bytes: seq<bv8>) returns (sentence: Option<string>)
    requires w.Valid() && w.bits > 0
    ensures var idx := Group(BitsOf(bytes), w.bits);
            && (forall i :: 0 <= i < |idx| ==> idx[i] < |w.list|)
            && sentence == if idx == [] then None else Some(Join(Pick(w.list, idx)))
  {
    hide BitsOf, Group, FromBits, Join, Terminated, IsLog2;
    var total := 8 * |bytes| / w.bits;
    GroupsAreWords(bytes, w.bits, w.len);
    ghost var ws: seq<string> := Pick(w.list, Group(BitsOf(bytes), w.bits));
    var strLen := SentenceLength(w, bytes, total, ws);
    if ws != [] { JoinTerminated(ws); }
    NoneTerminated(ws);
    if strLen == 0 {
      return None;
    }
    var str := new char[strLen];
    FillSentence(w, bytes, total, ws, str);
    assert str[..][..strLen - 1] == Join(ws);
    str[strLen - 1] := '\0';
    sentence := Some(str[..strLen - 1]);
  }

  lemma NoneTerminated(ws: seq<string>)
    ensures ws[..0] == [] && Terminated(ws[..0]) == []
  {
  }

  lemma {:induction false} TerminatedPrefix(ws: seq<string>, n: nat)
    requires n <= |ws|
    ensures |Terminated(ws[..n])| <= |Terminated(ws)|
    decreases |ws| - n
  {
    if n == |ws| {
      assert ws[..n] == ws;
    } else {
      assert ws[..n + 1] == ws[..n] + [ws[n]];
      TerminatedSnoc(ws[..n], ws[n]);
      TerminatedPrefix(ws, n + 1);
    }
  }

  /** A word and a separator are copied behind what is there. */
  method CopyWord(str: array<char>, out: nat, word: string)
    requires out + |word| + 1 <= str.Length
    modifies str
    ensures str[..out + |word| + 1] == old(str[..out]) + word + " "
  {
    forall k | 0 <= k < |word| {
      str[out + k] := word[k];
    }
    str[out + |word|] := ' ';
  }

  predicate AllIn(ws: seq<string>, list: seq<string>) {
    forall i :: 0 <= i < |ws| ==> ws[i] in list
  }

  /** The buffer holds the numbers, and zeros behind them. */
  ghost predicate Packed(b: seq<bv8>, idx: seq<nat>, bits: nat) {
    && |Spread(idx, bits)| == |idx| * bits <= 8 * |b| && BitsOf(b)[..|idx| * bits] == Spread(idx, bits)
    && forall k :: |idx| * bits <= k < 8 * |b| ==> !BitsOf(b)[k]
  }

  lemma PackedNone(b: seq<bv8>, bits: nat)
    requires forall k :: 0 <= k < |b| ==> b[k] == 0
    ensures Packed(b, [], bits)
  {
    hide Bit;
    forall k | 0 <= k < 8
      ensures !Bit(0, k)
    {
      NoBit(k);
    }
  }

  lemma NoBit(k: nat)
    requires k < 8
    ensures !Bit(0, k)
  {
  }

  lemma PackedNext(b: seq<bv8>, idx: seq<nat>, bits: nat, v: nat, c: seq<bv8>)
    requires Packed(b, idx, bits) && |b| == |c| && |idx| * bits + bits <= 8 * |b|
    requires var n := |idx| * bits; BitsOf(c) == BitsOf(b)[..n] + ToBits(v, bits) + BitsOf(b)[n + bits..]
    ensures Packed(c, idx + [v], bits)
  {
    hide BitsOf, ToBits;
    SpreadSnoc(idx, v, bits);
    NextPlace(|idx|, bits);
  }

  /** The place of the next number lies in the buffer and is still zero. */
  lemma NextFits(b: seq<bv8>, idx: seq<nat>, bits: nat, n: nat)
    requires Packed(b, idx, bits) && |idx| < n && n * bits <= 8 * |b|
    ensures (|idx| + 1) * bits == |idx| * bits + bits <= 8 * |b|
    ensures forall k :: |idx| * bits <= k < (|idx| + 1) * bits ==> !BitsOf(b)[k]
  {
    Product(|idx| + 1, n, bits, bits);
    NextPlace(|idx|, bits);
  }

  /** The output is not the storage of the list. */
  ghost predicate Apart(b: array<bv8>, w: Words) {
    b as object !in {w.str as object, w.indices as object}
  }

  /** One word of the loop of mnemonic_to_bytes. */
  method StoreWord(w: Words, m: Words, i: nat, bytesOut: array<bv8>, ghost idx: seq<nat>) returns (found: nat)
    requires w.Valid() && m.Valid() && Apart(bytesOut, w) && Apart(bytesOut, m)
    requires i == |idx| < m.len && m.len * w.bits <= 8 * bytesOut.Length
    requires Packed(bytesOut[..], idx, w.bits)
    modifies bytesOut
    ensures w.Valid() && m.Valid()
    ensures if found == 0 then m.list[i] !in w.list
            else
              && found - 1 < |w.list| && w.list[found - 1] == m.list[i]
              && Packed(bytesOut[..], idx + [found - 1], w.bits)
  {
    hide BitsOf, Spread, Packed, IsLog2, ToBits;
    var word := m.Word(i);
    found := w.LookupWord(word);
    if found > 0 {
      NextFits(bytesOut[..], idx, w.bits, m.len);
      ghost var b := bytesOut[..];
      StoreIndex(w.bits, bytesOut, i, found - 1);
      PackedNext(b, idx, w.bits, found - 1, bytesOut[..]);
    }
  }

  /** The loop of mnemonic_to_bytes over a cleared buffer. */
  method StoreWords(w: Words, m: Words, bytesOut: array<bv8>) returns (ok: bool, ghost idx: seq<nat>)
    requires w.Valid() && m.Valid() && Apart(bytesOut, w) && Apart(bytesOut, m)
    requires m.len * w.bits <= 8 * bytesOut.Length
    requires forall k :: 0 <= k < bytesOut.Length ==> bytesOut[k] == 0
    modifies bytesOut
    ensures w.Valid() && ok == AllIn(m.list, w.list)
    ensures ok ==> Indexes(w.list, m.list, idx) && Packed(bytesOut[..], idx, w.bits)
  {
    hide Packed;
    idx := [];
    PackedNone(bytesOut[..], w.bits);
    var i := 0;
    while i < m.len
      invariant 0 <= i <= m.len && |idx| == i && w.Valid() && m.Valid()
      invariant forall k :: 0 <= k < i ==> idx[k] < |w.list| && w.list[idx[k]] == m.list[k]
      invariant Packed(bytesOut[..], idx, w.bits)
    {
      var found := StoreWord(w, m, i, bytesOut, idx);
      if found == 0 {
        return false, idx;
      }
      idx := idx + [found - 1];
      i := i + 1;
    }
    ok := true;
  }

  /**
   mnemonic_to_bytes. The buffer is left alone if it is too small, cleared if a word is unknown, and otherwise holds
   the numbers of the words.
   */
  method MnemonicToBytes(w: Words, mnemonic: CString, bytesOut: array<bv8>)
      returns (ret: Status, written: nat, ghost idx: seq<nat>)
    requires w.Valid() && Apart(bytesOut, w)
    modifies bytesOut
    ensures w.Valid()
    ensures var ws := Split(mnemonic);
            var need := PackedLength(|ws|, w.bits);
            if bytesOut.Length == 0 then ret == Einval && written == 0
            else if need > bytesOut.Length then ret == Ok && written == need && bytesOut[..] == old(bytesOut[..])
            else if !AllIn(ws, w.list) then
              ret == Einval && written == 0 && forall k :: 0 <= k < bytesOut.Length ==> bytesOut[k] == 0
            else ret == Ok && written == need && Indexes(w.list, ws, idx) && Packed(bytesOut[..], idx, w.bits)
  {
    hide Split, BitsOf, Spread, IsLog2, Packed;
    idx := [];
    if bytesOut.Length == 0 {
      return Einval, 0, idx;
    }
    var m := WordlistInit(mnemonic);
    var need := (m.len * w.bits + 7) / 8;
    if need > bytesOut.Length {
      return Ok, need, idx;
    }
    forall k | 0 <= k < bytesOut.Length {
      bytesOut[k] := 0;
    }
    var ok: bool;
    ok, idx := StoreWords(w, m, bytesOut);
    if !ok {
      forall k | 0 <= k < bytesOut.Length {
        bytesOut[k] := 0;
      }
      return Einval, 0, idx;
    }
    return Ok, need, idx;
  }
}
