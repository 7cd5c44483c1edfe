/** The sentence of BIP 39 in terms of single bits and words (section "Generating the mnemonic"). */
module Bip39Words {
  import opened Common
  import opened Radix
  import opened Bits
  import opened Wordlists
  import opened Mnemonics
  import opened Bip39

  /** Bit k of a byte from the left. */
  predicate LeftBit(b: bv8, k: nat)
    requires k < 8
  {
    b & ((0x80 as bv8) >> k) != 0
  }

  lemma BitAt(b: bv8, k: nat)
    requires k < 8
    ensures Bit(b, k) <==> LeftBit(b, k)
  {
    match k
    case 0 => case 1 => case 2 => case 3 => case 4 => case 5 => case 6 => case _ =>
  }

  /** Bit k of the entropy followed by its hash. */
  predicate StreamBit(sha256: Hash, e: seq<bv8>, k: nat)
    requires k < 8 * |e| + 256
  {
    if k < 8 * |e| then LeftBit(e[k / 8], k % 8)
    else LeftBit(sha256(e)[(k - 8 * |e|) / 8], (k - 8 * |e|) % 8)
  }

  lemma StreamAt(sha256: Hash, e: seq<bv8>, k: nat)
    requires Supported(|e|) && k < |Stream(sha256, e)|
    ensures k < 8 * |e| + 256 && Stream(sha256, e)[k] == StreamBit(sha256, e, k)
  {
    hide Bit, LeftBit;
    if k < 8 * |e| {
      BitAt(e[k / 8], k % 8);
    } else {
      BitAt(sha256(e)[(k - 8 * |e|) / 8], (k - 8 * |e|) % 8);
    }
  }

  /** Bit j of an 11-bit number, from the left, is the one j places behind k. */
  predicate SameBit(sha256: Hash, e: seq<bv8>, k: nat, v: nat, j: nat)
    requires j < 11 && k + 11 <= 8 * |e| + 256
  {
    BitSet(v, 10 - j) == StreamBit(sha256, e, k + j)
  }

  /** v is the number of the 11 bits from place k on, the most significant first. */
  ghost predicate Numbers(sha256: Hash, e: seq<bv8>, k: nat, v: nat)
    requires k + 11 <= 8 * |e| + 256
  {
    v < 2048 && forall j :: 0 <= j < 11 ==> SameBit(sha256, e, k, v, j)
  }

  lemma GroupNumbers(sha256: Hash, e: seq<bv8>, i: nat)
    requires Supported(|e|) && i < 3 * |e| / 4
    ensures 11 * i + 11 <= 8 * |e| + 256 && i < |Group(Stream(sha256, e), 11)|
    ensures Numbers(sha256, e, 11 * i, Group(Stream(sha256, e), 11)[i])
  {
    hide BitsOf, Group, StreamBit, FromBits, ToBits, Stream, BitSet;
    StreamGroups(sha256, e);
    var s := Stream(sha256, e);
    assert (i + 1) * 11 == 11 * i + 11 && i * 11 == 11 * i;
    GroupAt(s, 11, i);
    var t := s[11 * i..11 * i + 11];
    ToFromBits(t);
    forall j | 0 <= j < 11
      ensures SameBit(sha256, e, 11 * i, FromBits(t), j)
    {
      BitOfNumber(FromBits(t), 11, j);
      StreamAt(sha256, e, 11 * i + j);
      assert t[j] == s[11 * i + j];
    }
  }

  /** The lengths of entropy that are accepted. */
  lemma SupportedLengths(n: nat)
    ensures Supported(n) <==> n in {16, 20, 24, 28, 32, 36, 40}
  {
  }

  /**
   The words of a sentence: three for each 32 bits of entropy, each the word of the list that its 11 bits of the
   entropy and the first bits of its SHA-256 number.
   */
  lemma SentenceWords(sha256: Hash, list: seq<string>, e: seq<bv8>) returns (idx: seq<nat>, ws: seq<string>)
    requires |e| in {16, 20, 24, 28, 32, 36, 40} && |list| >= 2048
    ensures |idx| == |ws| == 3 * |e| / 4 && Generate(sha256, list, e) == Join(ws)
    ensures forall i :: 0 <= i < |ws| ==> Numbers(sha256, e, 11 * i, idx[i]) && ws[i] == list[idx[i]]
  {
    hide BitsOf, Group, Numbers, Join, Stream;
    StreamGroups(sha256, e);
    idx := Group(Stream(sha256, e), 11);
    ws := Pick(list, idx);
    forall i | 0 <= i < |ws|
      ensures Numbers(sha256, e, 11 * i, idx[i])
    {
      GroupNumbers(sha256, e, i);
    }
  }

  /** No other number has those bits. */
  lemma NumberUnique(sha256: Hash, e: seq<bv8>, k: nat, v: nat, w: nat)
    requires k + 11 <= 8 * |e| + 256 && Numbers(sha256, e, k, v) && Numbers(sha256, e, k, w)
    ensures v == w
  {
    hide StreamBit, BitSet, Pow, ToBits, FromBits;
    PowWordBits();
    forall j | 0 <= j < 11
      ensures ToBits(v, 11)[j] == ToBits(w, 11)[j]
    {
      BitOfNumber(v, 11, j);
      BitOfNumber(w, 11, j);
      assert SameBit(sha256, e, k, v, j) && SameBit(sha256, e, k, w, j);
    }
    FromToBits(v, 11);
    FromToBits(w, 11);
    assert ToBits(v, 11) == ToBits(w, 11);
  }

  /** How long the entropy of so many words is: 32 bits for each three, and what else is not refused for its length. */
  lemma WordsLength(n: nat)
    requires n > 0
    ensures var len := PlainLength(PackedLength(n, 11));
            && (Supported(len) <==> n % 3 == 0 && 12 <= n <= 30)
            && (n % 3 == 0 && 12 <= n <= 30 ==> len == n / 3 * 4)
            && (len <= 42 <==> n <= 32) && (PackedLength(n, 11) <= 42 <==> n <= 30)
  {
    hide Supported;
    var p := PackedLength(n, 11);
    assert 8 * p <= 11 * n + 7 < 8 * p + 8;
    WordsSupported(n, p);
  }

  lemma WordsSupported(n: nat, p: nat)
    requires n > 0 && p >= 2 && 8 * p <= 11 * n + 7 < 8 * p + 8
    ensures var len := if p > 33 then p - 2 else p - 1;
            (Supported(len) <==> n % 3 == 0 && 12 <= n <= 30) && (n % 3 == 0 && 12 <= n <= 30 ==> len == n / 3 * 4)
  {
    var len := if p > 33 then p - 2 else p - 1;
    if n % 3 == 0 {
      var k := n / 3;
      assert n == 3 * k;
      assert 4 <= k <= 10 ==> len == 4 * k;
    }
    if Supported(len) {
      var m := len / 4;
      assert len == 4 * m && 4 <= m <= 10;
      assert n == 3 * m;
    }
  }

  /**
   What is answered without a look at the checksum: more than 32 words are refused, 31 and 32 words too if there is
   room for the bytes they suggest, fewer words if one is unknown; and where there is no room the length is told.
   */
  lemma AnswersByLength(sha256: Hash, n: nat, idx: Option<seq<nat>>, len: nat)
    requires n > 0 && (idx.Some? ==> |idx.value| == n)
    ensures var r, plain := ToEntropy(sha256, n, idx, len), PlainLength(PackedLength(n, 11));
            && (n > 32 ==> r == INVALID)
            && (31 <= n <= 32 ==> r == if n + 10 > len then Answer(Ok, n + 10, None) else INVALID)
            && (n <= 30 && idx.None? ==> r == INVALID)
            && (n <= 30 && idx.Some? && plain > len ==> r == Answer(Ok, plain, None))
            && (n <= 30 && idx.Some? && plain <= len ==> r.ret == Ok ==> r.entropy.Some?)
  {
    hide Entropy;
  }
}
