/** Mnemonic sentences with a checksum: src/bip39.c. */
module Bip39 {
  import opened Common
  import opened Radix
  import opened Bits
  import opened Wordlists
  import opened Mnemonics

  const ENTROPY_MAX_LEN: nat := 42
  const ENTROPY_LEN_256: nat := 32
  const WORD_BITS: nat := 11

  /** A SHA-256 digest. */
  type Digest = d: seq<bv8> | |d| == 32 witness Repeat(0, 32)
  type Hash = seq<bv8> -> Digest

  /** len_to_mask: the mask of the checksum bits, 0 for a length that is not supported. */
  function LenToMask(len: nat): bv16 {
    match len
    case 16 => 0xf0
    case 20 => 0xf8
    case 24 => 0xfc
    case 28 => 0xfe
    case 32 => 0xff
    case 36 => 0x80ff
    case 40 => 0xc0ff
    case _ => 0
  }

  /** The entropy lengths of BIP 39, and two longer ones. */
  predicate Supported(len: nat) {
    16 <= len <= 40 && len % 4 == 0
  }

  function Low(x: bv16): bv8 {
    (x & 0xff) as bv8
  }

  function High(x: bv16): bv8 {
    ((x >> 8) & 0xff) as bv8
  }

  function And8(x: bv8, mask: bv8): bv8 {
    x & mask
  }

  function And16(x: bv16, mask: bv16): bv16 {
    x & mask
  }

  function Both(low: bv8, high: bv8): bv16 {
    (low as bv16) | ((high as bv16) << 8)
  }

  /** bip39_checksum */
  function Checksum(sha256: Hash, bytes: seq<bv8>, mask: bv16): bv16 {
    var sha := sha256(bytes);
    And16(Both(sha[0], sha[1]), mask)
  }

  /** checksum_ok: the checksum stored after the data is the one computed. */
  predicate ChecksumOk(sha256: Hash, bytes: seq<bv8>, idx: nat, mask: bv16)
    requires idx + 1 < |bytes|
  {
    var stored := if mask > 0xff then Both(bytes[idx], bytes[idx + 1]) else Both(bytes[idx], 0);
    And16(stored, mask) == Checksum(sha256, bytes[..idx], mask)
  }

  /**
   The entropy followed by the first bits of its hash, one for each 32 bits (section "Generating the mnemonic" of BIP
   39).
   */
  function Stream(sha256: Hash, entropy: seq<bv8>): seq<bool>
    requires Supported(|entropy|)
  {
    BitsOf(entropy) + BitsOf(sha256(entropy))[..|entropy| / 4]
  }

  /** The sentence of BIP 39: each 11 bits number a word. */
  function Generate(sha256: Hash, list: seq<string>, entropy: seq<bv8>): string
    requires Supported(|entropy|) && |list| >= 2048
  {
    StreamGroups(sha256, entropy);
    Join(Pick(list, Group(Stream(sha256, entropy), WORD_BITS)))
  }

  /** A list to use: 2048 different words without spaces. */
  ghost predicate ListOk(list: seq<string>) {
    && |list| == 2048
    && (forall i :: 0 <= i < |list| ==> NoSpace(list[i]))
    && forall i, j :: 0 <= i < j < |list| ==> list[i] != list[j]
  }

  lemma PowWordBits()
    ensures Pow(2, WORD_BITS) == 2048
  {
    assert Pow(2, 3) == 8;
    assert Pow(2, 7) == 16 * Pow(2, 3);
    assert Pow(2, 11) == 16 * Pow(2, 7);
  }

  lemma StreamGroups(sha256: Hash, entropy: seq<bv8>)
    requires Supported(|entropy|)
    ensures var s := Stream(sha256, entropy);
            && |Group(s, WORD_BITS)| == 3 * |entropy| / 4 > 0 && |s| == WORD_BITS * |Group(s, WORD_BITS)|
            && Spread(Group(s, WORD_BITS), WORD_BITS) == s
            && forall i :: 0 <= i < |Group(s, WORD_BITS)| ==> Group(s, WORD_BITS)[i] < 2048
  {
    hide BitsOf, Pow;
    PowWordBits();
    SpreadGroup(Stream(sha256, entropy), WORD_BITS, 3 * |entropy| / 4);
  }

  lemma MaskBytes(x: bv16, mask: bv16)
    ensures Low(And16(x, mask)) == And8(Low(x), Low(mask)) && High(And16(x, mask)) == And8(High(x), High(mask))
  {
  }

  lemma SplitBoth(low: bv8, high: bv8)
    ensures Low(Both(low, high)) == low && High(Both(low, high)) == high
  {
  }

  lemma SameBoth(x: bv16, y: bv16)
    ensures x == y <==> Low(x) == Low(y) && High(x) == High(y)
  {
  }

  /** The leftmost n bits of a byte. */
  function Top(n: nat): bv8
    requires n <= 8
  {
    match n
    case 0 => 0
    case 1 => 0x80
    case 2 => 0xc0
    case 3 => 0xe0
    case 4 => 0xf0
    case 5 => 0xf8
    case 6 => 0xfc
    case 7 => 0xfe
    case 8 => 0xff
  }

  lemma TopBit(a: bv8, n: nat, k: nat)
    requires n <= 8 && k < 8
    ensures Bit(And8(a, Top(n)), k) == (k < n && Bit(a, k))
  {
  }

  /** Two bytes agree on their leftmost n bits. */
  predicate Agree(a: bv8, b: bv8, n: nat)
    requires n <= 8
  {
    forall k :: 0 <= k < n ==> Bit(a, k) == Bit(b, k)
  }

  /** Masked bytes are equal if their leftmost bits are. */
  lemma TopBits(a: bv8, b: bv8, n: nat)
    requires n <= 8
    ensures (And8(a, Top(n)) == And8(b, Top(n))) == Agree(a, b, n)
  {
    hide Bit, Top, And8;
    var x, y := And8(a, Top(n)), And8(b, Top(n));
    forall k | 0 <= k < 8
      ensures Bit(x, k) == (k < n && Bit(a, k)) && Bit(y, k) == (k < n && Bit(b, k))
    {
      TopBit(a, n, k);
      TopBit(b, n, k);
    }
    if Agree(a, b, n) {
      SameBits(x, y);
    } else {
      var k :| 0 <= k < n && Bit(a, k) != Bit(b, k);
      assert Bit(x, k) != Bit(y, k);
    }
  }

  /** The mask of a length has one bit for each 4 bytes, those of the second byte above those of the first. */
  lemma MaskIsTop(len: nat)
    requires Supported(len)
    ensures LenToMask(len) != 0 && Low(LenToMask(len)) == Top(Min(8, len / 4))
    ensures High(LenToMask(len)) == if len > 32 then Top(len / 4 - 8) else 0
    ensures LenToMask(len) > 0xff <==> len > 32
  {
  }

  lemma MaskZero(len: nat)
    ensures LenToMask(len) == 0 <==> !Supported(len)
  {
  }

  /** Two byte pairs agree on their first n bits. */
  predicate AgreeTwo(a: seq<bv8>, b: seq<bv8>, n: nat)
    requires |a| == |b| == 2 && n <= 16
  {
    Agree(a[0], b[0], Min(8, n)) && Agree(a[1], b[1], if n > 8 then n - 8 else 0)
  }

  lemma MaskPair(a0: bv8, a1: bv8, b0: bv8, b1: bv8, mask: bv16)
    ensures (And16(Both(a0, a1), mask) == And16(Both(b0, b1), mask))
              == (And8(a0, Low(mask)) == And8(b0, Low(mask)) && And8(a1, High(mask)) == And8(b1, High(mask)))
  {
    hide Both, Low, High, And8, And16;
    MaskBytes(Both(a0, a1), mask);
    MaskBytes(Both(b0, b1), mask);
    SplitBoth(a0, a1);
    SplitBoth(b0, b1);
    SameBoth(And16(Both(a0, a1), mask), And16(Both(b0, b1), mask));
  }

  /** Two checksums under the mask are the same exactly if their first bits are, one for each 4 bytes. */
  lemma ChecksumBits(a0: bv8, a1: bv8, b0: bv8, b1: bv8, len: nat)
    requires Supported(len)
    ensures var mask := LenToMask(len);
            (And16(Both(a0, a1), mask) == And16(Both(b0, b1), mask)) == AgreeTwo([a0, a1], [b0, b1], len / 4)
  {
    hide Both, LenToMask, Low, High, Top, Bit, Agree, And8, And16;
    MaskIsTop(len);
    MaskPair(a0, a1, b0, b1, LenToMask(len));
    TopBits(a0, b0, Min(8, len / 4));
    if len > 32 {
      TopBits(a1, b1, len / 4 - 8);
    } else {
      NoMask(a1, b1);
    }
  }

  lemma NoMask(a: bv8, b: bv8)
    ensures And8(a, 0) == And8(b, 0) && Agree(a, b, 0)
  {
  }

  lemma BitAt(b: seq<bv8>, at: nat, k: nat)
    requires at < |b| && k < 8
    ensures BitsOf(b)[8 * at + k] == Bit(b[at], k)
  {
    assert (8 * at + k) / 8 == at && (8 * at + k) % 8 == k;
  }

  /** Bits of two byte strings agree where their byte pairs do. */
  lemma AgreeBits(a: seq<bv8>, i: nat, b: seq<bv8>, j: nat, n: nat)
    requires i + 2 <= |a| && j + 2 <= |b| && n <= 16
    ensures (BitsOf(a)[8 * i..8 * i + n] == BitsOf(b)[8 * j..8 * j + n]) == AgreeTwo(a[i..i + 2], b[j..j + 2], n)
  {
    hide Bit, BitsOf, AgreeTwo;
    var s, t, x, y := BitsOf(a)[8 * i..8 * i + n], BitsOf(b)[8 * j..8 * j + n], a[i..i + 2], b[j..j + 2];
    forall k | 0 <= k < n
      ensures s[k] == Bit(x[k / 8], k % 8) && t[k] == Bit(y[k / 8], k % 8)
    {
      BitAt(a, i + k / 8, k % 8);
      BitAt(b, j + k / 8, k % 8);
    }
    PairBits(x, y, s, t);
  }

  lemma PairBits(x: seq<bv8>, y: seq<bv8>, s: seq<bool>, t: seq<bool>)
    requires |x| == |y| == 2 && |s| == |t| <= 16
    requires forall k :: 0 <= k < |s| ==> s[k] == Bit(x[k / 8], k % 8) && t[k] == Bit(y[k / 8], k % 8)
    ensures (s == t) == AgreeTwo(x, y, |s|)
  {
    hide Bit;
    if s == t {
      var x0, y0, x1, y1, m := x[0], y[0], x[1], y[1], if |s| > 8 then |s| - 8 else 0;
      forall k | 0 <= k < Min(8, |s|)
        ensures Bit(x0, k) == Bit(y0, k)
      {
        assert s[k] == t[k];
      }
      forall k | 0 <= k < m
        ensures Bit(x1, k) == Bit(y1, k)
      {
        assert s[8 + k] == t[8 + k];
      }
    }
  }

  lemma PairAt(b: seq<bv8>, at: nat)
    requires at + 2 <= |b|
    ensures b[at..at + 2] == [b[at], b[at + 1]]
  {
  }

  /** The check compares the bits behind the entropy with the first bits of its hash. */
  lemma ChecksumOkBits(sha256: Hash, bytes: seq<bv8>, len: nat)
    requires Supported(len) && len + 1 < |bytes|
    ensures ChecksumOk(sha256, bytes, len, LenToMask(len))
              == (BitsOf(bytes)[8 * len..8 * len + len / 4] == BitsOf(sha256(bytes[..len]))[..len / 4])
  {
    hide Both, LenToMask, AgreeTwo, BitsOf, And16;
    var sha := sha256(bytes[..len]);
    MaskIsTop(len);
    if len <= 32 { OneByte(bytes[len], bytes[len + 1], LenToMask(len)); }
    ChecksumBits(bytes[len], bytes[len + 1], sha[0], sha[1], len);
    PairAt(bytes, len);
    PairAt(sha, 0);
    AgreeBits(bytes, len, sha, 0, len / 4);
  }

  lemma OneByte(low: bv8, high: bv8, mask: bv16)
    requires !(mask > 0xff)
    ensures And16(Both(low, 0), mask) == And16(Both(low, high), mask)
  {
  }

  /** What bip39_mnemonic_from_bytes turns into words: the entropy and the checksum, which takes one byte or two. */
  function WithChecksum(sha256: Hash, bytes: seq<bv8>): seq<bv8> {
    var mask := LenToMask(|bytes|);
    var sum := Checksum(sha256, bytes, mask);
    bytes + if mask > 0xff then [Low(sum), High(sum)] else [Low(sum)]
  }

  /** The checksum bytes start with the first bits of the hash. */
  lemma ChecksumBytes(sha256: Hash, bytes: seq<bv8>) returns (t: seq<bv8>)
    requires Supported(|bytes|)
    ensures WithChecksum(sha256, bytes) == bytes + t && |t| == if |bytes| > 32 then 2 else 1
    ensures BitsOf(t)[..|bytes| / 4] == BitsOf(sha256(bytes))[..|bytes| / 4]
  {
    hide Both, LenToMask, Low, High, Top, Bit, BitsOf, AgreeTwo, And16;
    var len, n, sha := |bytes|, |bytes| / 4, sha256(bytes);
    var mask, sum := LenToMask(len), Checksum(sha256, bytes, LenToMask(len));
    var pair := [Low(sum), High(sum)];
    MaskIsTop(len);
    JoinLowHigh(sum);
    MaskTwice(Both(sha[0], sha[1]), mask);
    ChecksumBits(pair[0], pair[1], sha[0], sha[1], len);
    assert pair[0..2] == pair && sha[0..2] == [sha[0], sha[1]];
    AgreeBits(pair, 0, sha, 0, n);
    t := pair[..if mask > 0xff then 2 else 1];
    BitsOfPrefix(pair, |t|);
  }

  /** The words of the entropy with its checksum are those of BIP 39; the bits left over are not enough for another. */
  lemma WithChecksumStream(sha256: Hash, bytes: seq<bv8>)
    requires Supported(|bytes|)
    ensures Group(BitsOf(WithChecksum(sha256, bytes)), WORD_BITS) == Group(Stream(sha256, bytes), WORD_BITS)
  {
    hide WithChecksum, BitsOf, Group, Pow, Spread, Stream;
    var t := ChecksumBytes(sha256, bytes);
    var stream, tail := Stream(sha256, bytes), BitsOf(t)[|bytes| / 4..];
    StreamThen(sha256, bytes, t);
    StreamGroups(sha256, bytes);
    PowWordBits();
    GroupSpread(Group(stream, WORD_BITS), tail, WORD_BITS);
  }

  /** Checksum bytes that start with the hash bits continue the stream. */
  lemma StreamThen(sha256: Hash, bytes: seq<bv8>, t: seq<bv8>)
    requires Supported(|bytes|) && |bytes| / 4 <= 8 * |t|
    requires BitsOf(t)[..|bytes| / 4] == BitsOf(sha256(bytes))[..|bytes| / 4]
    ensures BitsOf(bytes + t) == Stream(sha256, bytes) + BitsOf(t)[|bytes| / 4..]
  {
    hide BitsOf;
    BitsOfConcat(bytes, t);
  }

  lemma JoinLowHigh(x: bv16)
    ensures Both(Low(x), High(x)) == x
  {
  }

  lemma MaskTwice(x: bv16, mask: bv16)
    ensures And16(And16(x, mask), mask) == And16(x, mask)
  {
  }

  /** The entropy length that so many packed bytes suggest: without the checksum byte, or bytes. */
  function PlainLength(packed: nat): nat
    requires packed >= 2
  {
    if packed - 1 > ENTROPY_LEN_256 then packed - 2 else packed - 1
  }

  /** The entropy in the word numbers of a sentence, if its checksum is right. */
  function Entropy(sha256: Hash, idx: seq<nat>): Option<seq<bv8>>
    requires idx != []
  {
    var s, len := Spread(idx, WORD_BITS), PlainLength(PackedLength(|idx|, WORD_BITS));
    if !Supported(len) || |s| < 8 * len then None
    else
      var e := Pack(s[..8 * len]);
      if s == Stream(sha256, e) then Some(e) else None
  }

  lemma EntropyLength(sha256: Hash, idx: seq<nat>)
    requires idx != [] && Entropy(sha256, idx).Some?
    ensures var len := PlainLength(PackedLength(|idx|, WORD_BITS));
            Supported(len) && |Entropy(sha256, idx).value| == len
  {
  }

  /**
   Only 12, 15, 18, 21, 24, 27 and 30 words have a supported length, and exactly as many bits as entropy and
   checksum.
   */
  lemma SupportedCounts(n: nat)
    requires n > 0
    ensures var len := PlainLength(PackedLength(n, WORD_BITS));
            Supported(len) ==> n == 3 * len / 4 && n * WORD_BITS == 8 * len + len / 4 && n <= 30
  {
  }

  /** The bits that were stored, read back as entropy and checksum. */
  lemma PackedEntropy(sha256: Hash, b: seq<bv8>, idx: seq<nat>)
    requires |b| == ENTROPY_MAX_LEN && idx != [] && Packed(b, idx, WORD_BITS)
    ensures var len := PlainLength(PackedLength(|idx|, WORD_BITS));
            Supported(len) ==>
              Entropy(sha256, idx) == if ChecksumOk(sha256, b, len, LenToMask(len)) then Some(b[..len]) else None
  {
    hide BitsOf, ChecksumOk, Pack, LenToMask, Spread, PlainLength, Stream;
    var len := PlainLength(PackedLength(|idx|, WORD_BITS));
    SupportedCounts(|idx|);
    if Supported(len) {
      var s := Spread(idx, WORD_BITS);
      assert s == BitsOf(b)[..8 * len + len / 4];
      ChecksumOkBits(sha256, b, len);
      StoredStream(sha256, b, len);
    }
  }

  lemma StoredStream(sha256: Hash, b: seq<bv8>, len: nat)
    requires Supported(len) && len + 2 <= |b|
    ensures var s := BitsOf(b)[..8 * len + len / 4];
            && Pack(s[..8 * len]) == b[..len]
            && (s == Stream(sha256, b[..len])
                <==> BitsOf(b)[8 * len..8 * len + len / 4] == BitsOf(sha256(b[..len]))[..len / 4])
  {
    hide BitsOf, Pack;
    var s := BitsOf(b)[..8 * len + len / 4];
    BitsOfPrefix(b, len);
    assert s[..8 * len] == BitsOf(b)[..8 * len];
    BitsOfPack(s[..8 * len]);
    BitsOfInjective(Pack(s[..8 * len]), b[..len]);
    assert s[8 * len..] == BitsOf(b)[8 * len..8 * len + len / 4];
    StreamParts(s, len, BitsOf(b[..len]), BitsOf(sha256(b[..len]))[..len / 4]);
  }

  lemma StreamParts(s: seq<bool>, len: nat, a: seq<bool>, c: seq<bool>)
    requires 8 * len <= |s| && |a| == 8 * len && s[..8 * len] == a
    ensures s == a + c <==> s[8 * len..] == c
  {
    assert (a + c)[8 * len..] == c;
    assert s == s[..8 * len] + s[8 * len..];
  }

  /** A sentence that is accepted is the one its entropy generates. */
  lemma AcceptedIsGenerated(sha256: Hash, list: seq<string>, m: string, idx: seq<nat>)
    requires |list| == 2048 && Indexes(list, Split(m), idx) && Entropy(sha256, idx).Some?
    ensures var e := Entropy(sha256, idx).value;
            Supported(|e|) && |e| == PlainLength(PackedLength(|Split(m)|, WORD_BITS)) && Generate(sha256, list, e) == m
  {
    hide BitsOf, Pack, Group, Pow, Spread;
    var e := Entropy(sha256, idx).value;
    StreamGroups(sha256, e);
    PowWordBits();
    GroupSpread(idx, [], WORD_BITS);
    assert Spread(idx, WORD_BITS) + [] == Spread(idx, WORD_BITS);
    assert Pick(list, idx) == Split(m);
    JoinSplit(m);
  }

  /** In a list without repetitions a word has one number. */
  lemma OneNumber(list: seq<string>, ws: seq<string>, a: seq<nat>, b: seq<nat>)
    requires ListOk(list) && Indexes(list, ws, a) && Indexes(list, ws, b)
    ensures a == b
  {
    forall i | 0 <= i < |a|
      ensures a[i] == b[i]
    {
      assert list[a[i]] == ws[i] == list[b[i]];
    }
  }

  /** The words of a generated sentence are those picked. */
  lemma GeneratedWords(sha256: Hash, list: seq<string>, e: seq<bv8>)
    requires ListOk(list) && Supported(|e|)
    ensures var ws := Split(Generate(sha256, list, e));
            Indexes(list, ws, Group(Stream(sha256, e), WORD_BITS)) && AllIn(ws, list)
  {
    hide BitsOf, Group, Pow, Stream, Split, Join;
    StreamGroups(sha256, e);
    SplitJoin(Pick(list, Group(Stream(sha256, e), WORD_BITS)));
  }

  /** Every generated sentence is accepted, and gives back its entropy. */
  lemma GeneratedIsAccepted(sha256: Hash, list: seq<string>, e: seq<bv8>, idx: seq<nat>)
    requires ListOk(list) && Supported(|e|) && Indexes(list, Split(Generate(sha256, list, e)), idx)
    ensures idx != [] && PlainLength(PackedLength(|idx|, WORD_BITS)) == |e| && Entropy(sha256, idx) == Some(e)
  {
    hide BitsOf, Pack, Group, Pow, Spread, Generate, Split;
    GeneratedWords(sha256, list, e);
    OneNumber(list, Split(Generate(sha256, list, e)), Group(Stream(sha256, e), WORD_BITS), idx);
    StreamGroups(sha256, e);
    var s := Stream(sha256, e);
    assert s[..8 * |e|] == BitsOf(e);
    BitsOfPack(s[..8 * |e|]);
    BitsOfInjective(Pack(s[..8 * |e|]), e);
  }

  lemma ChecksumAppended(sha256: Hash, bytes: seq<bv8>, t: seq<bv8>)
    requires |bytes| + 2 <= |t| && forall k :: 0 <= k < |bytes| ==> t[k] == bytes[k]
    requires var mask := LenToMask(|bytes|);
             var sum := Checksum(sha256, bytes, mask);
             t[|bytes|] == Low(sum) && (mask > 0xff ==> t[|bytes| + 1] == High(sum))
    ensures t[..|bytes| + if LenToMask(|bytes|) > 0xff then 2 else 1] == WithChecksum(sha256, bytes)
  {
    hide Low, High, LenToMask, Checksum;
  }

  /** bip39_mnemonic_from_bytes */
  method MnemonicFromEntropy(sha256: Hash, w: Words, bytes: seq<bv8>) returns (ret: Status, output: Option<string>)
    requires w.Valid()
    ensures if w.bits == WORD_BITS && Supported(|bytes|) then
              ret == Ok && |w.list| >= 2048 && output == Some(Generate(sha256, w.list, bytes))
            else ret == Einval && output == None
  {
    hide Both, And16, Low, High, BitsOf, Group, LenToMask, Join, Pow, Pick, Checksum, WithChecksum;
    PowWordBits();
    MaskZero(|bytes|);
    if |bytes| == 0 {
      return Einval, None;
    }
    var mask := LenToMask(|bytes|);
    if w.bits != WORD_BITS || mask == 0 {
      return Einval, None;
    }
    MaskIsTop(|bytes|);
    var tmp, len := AppendChecksum(sha256, bytes, mask);
    WithChecksumStream(sha256, bytes);
    StreamGroups(sha256, bytes);
    output := MnemonicFromBytes(w, tmp[..len + 1]);
    ret := Ok;
  }

  /** The buffer of the entropy and its checksum; len is the place of the last byte. */
  method AppendChecksum(sha256: Hash, bytes: seq<bv8>, mask: bv16) returns (tmp: array<bv8>, len: nat)
    requires Supported(|bytes|) && mask == LenToMask(|bytes|)
    ensures len < tmp.Length && tmp[..len + 1] == WithChecksum(sha256, bytes)
  {
    hide Both, And16, Low, High, LenToMask, Checksum, WithChecksum;
    tmp := new bv8[ENTROPY_MAX_LEN];
    len := |bytes|;
    forall k | 0 <= k < len {
      tmp[k] := bytes[k];
    }
    var checksum := Checksum(sha256, bytes, mask);
    tmp[len] := Low(checksum);
    if mask > 0xff {
      len := len + 1;
      tmp[len] := High(checksum);
    }
    ChecksumAppended(sha256, bytes, tmp[..]);
    assert tmp[..][..len + 1] == tmp[..len + 1];
  }

  /** What bip39_mnemonic_to_bytes answers: a code, a length, and the entropy if it was checked and copied. */
  datatype Answer = Answer(ret: Status, written: nat, entropy: Option<seq<bv8>>)

  const INVALID := Answer(Einval, 0, None)

  /**
   The answer for a sentence of n words, whose numbers are idx if it has only words of the list. A buffer that is too
   small is told the length it would need, and then neither the checksum nor, for more than 30 words, the words count.
   */
  function ToEntropy(sha256: Hash, n: nat, idx: Option<seq<nat>>, len: nat): Answer
    requires n > 0 && (idx.Some? ==> |idx.value| == n)
  {
    var packed := PackedLength(n, WORD_BITS);
    var plain := PlainLength(packed);
    if packed <= ENTROPY_MAX_LEN && idx.None? then INVALID
    else if plain > ENTROPY_MAX_LEN then INVALID
    else if plain > len then Answer(Ok, plain, None)
    else if packed > ENTROPY_MAX_LEN then INVALID
    else
      var e := Entropy(sha256, idx.value);
      if e.Some? then Answer(Ok, plain, e) else INVALID
  }

  /** bip39_mnemonic_to_bytes; idx are the numbers of the words. */
  method MnemonicToEntropy(sha256: Hash, w: Words, mnemonic: CString, bytesOut: array<bv8>, len: nat)
      returns (ret: Status, written: nat, ghost idx: seq<nat>)
    requires w.Valid() && Apart(bytesOut, w) && len <= bytesOut.Length
    modifies bytesOut
    ensures w.bits != WORD_BITS ==> ret == Einval && written == 0 && bytesOut[..] == old(bytesOut[..])
    ensures w.bits == WORD_BITS ==>
      var ws := Split(mnemonic);
      var known := AllIn(ws, w.list) && PackedLength(|ws|, WORD_BITS) <= ENTROPY_MAX_LEN;
      && (known ==> Indexes(w.list, ws, idx))
      && var r := ToEntropy(sha256, |ws|, if known then Some(idx) else None, len);
         && ret == r.ret && written == r.written
         && bytesOut[..] == if r.entropy.Some? then r.entropy.value + old(bytesOut[written..]) else old(bytesOut[..])
  {
    hide LenToMask, BitsOf, Split, Packed, IsLog2, Entropy, ChecksumOk;
    if w.bits != WORD_BITS {
      return Einval, 0, [];
    }
    var tmp := new bv8[ENTROPY_MAX_LEN];
    var tmpLen: nat;
    ret, tmpLen, idx := MnemonicToBytes(w, mnemonic, tmp);
    if ret != Ok {
      return ret, 0, idx;
    }
    tmpLen := tmpLen - 1;
    if tmpLen > ENTROPY_LEN_256 {
      tmpLen := tmpLen - 1;
    }
    if tmpLen > ENTROPY_MAX_LEN {
      return Einval, 0, idx;
    }
    if tmpLen <= len {
      var mask := LenToMask(tmpLen);
      MaskZero(tmpLen);
      if idx != [] && Entropy(sha256, idx).Some? { EntropyLength(sha256, idx); }
      if mask == 0 {
        return Einval, 0, idx;
      }
      PackedEntropy(sha256, tmp[..], idx);
      if !ChecksumOk(sha256, tmp[..], tmpLen, mask) {
        return Einval, 0, idx;
      }
      forall k | 0 <= k < tmpLen {
        bytesOut[k] := tmp[k];
      }
      assert bytesOut[..] == tmp[..][..tmpLen] + old(bytesOut[tmpLen..]);
    }
    written := tmpLen;
  }

  /** bip39_mnemonic_validate: with a proper list, the valid sentences are exactly those that BIP 39 generates. */
  method MnemonicValidate(sha256: Hash, w: Words, mnemonic: CString) returns (ret: Status)
    requires w.Valid()
    ensures w.bits != WORD_BITS ==> ret == Einval
    ensures w.bits == WORD_BITS && ListOk(w.list) ==>
              (ret == Ok <==> exists e :: Supported(|e|) && mnemonic == Generate(sha256, w.list, e))
  {
    hide BitsOf, Split, Generate, Entropy, IsLog2, Spread, PlainLength;
    var buf := new bv8[ENTROPY_MAX_LEN];
    var len;
    ghost var idx;
    ret, len, idx := MnemonicToEntropy(sha256, w, mnemonic, buf, ENTROPY_MAX_LEN);
    if w.bits == WORD_BITS && ListOk(w.list) {
      ghost var ws := Split(mnemonic);
      ghost var known := AllIn(ws, w.list) && PackedLength(|ws|, WORD_BITS) <= ENTROPY_MAX_LEN;
      AcceptsExactly(sha256, w.list, mnemonic, if known then Some(idx) else None, ENTROPY_MAX_LEN);
    }
  }

  /** What is known of the numbers of a sentence's words. */
  ghost predicate Numbered(list: seq<string>, m: string, idx: Option<seq<nat>>) {
    var ws := Split(m);
    if AllIn(ws, list) && PackedLength(|ws|, WORD_BITS) <= ENTROPY_MAX_LEN then
      idx.Some? && Indexes(list, ws, idx.value)
    else idx.None?
  }

  /**
   With a buffer for any entropy, a sentence is accepted exactly if it is a generated one, and the answer is its
   entropy. So entropy survives to words and back, and an accepted sentence is generated again from its entropy.
   */
  lemma AcceptsExactly(sha256: Hash, list: seq<string>, m: string, idx: Option<seq<nat>>, len: nat)
    requires ListOk(list) && Numbered(list, m, idx) && len >= ENTROPY_MAX_LEN
    ensures var r := ToEntropy(sha256, |Split(m)|, idx, len);
            && (r.ret == Ok ==> r.entropy.Some?)
            && (r.entropy.Some? ==> Supported(|r.entropy.value|) && m == Generate(sha256, list, r.entropy.value))
            && forall e :: Supported(|e|) && m == Generate(sha256, list, e) ==> r == Answer(Ok, |e|, Some(e))
  {
    hide BitsOf, Split, Generate, Entropy, Spread;
    var r := ToEntropy(sha256, |Split(m)|, idx, len);
    if r.entropy.Some? {
      AcceptedIsGenerated(sha256, list, m, idx.value);
    }
    forall e | Supported(|e|) && m == Generate(sha256, list, e)
      ensures r == Answer(Ok, |e|, Some(e))
    {
      RoundTrip(sha256, list, e, idx, len);
    }
  }

  /** The generated sentence of any supported entropy: the entropy itself if there is room, otherwise its length. */
  lemma RoundTrip(sha256: Hash, list: seq<string>, e: seq<bv8>, idx: Option<seq<nat>>, len: nat)
    requires ListOk(list) && Supported(|e|) && Numbered(list, Generate(sha256, list, e), idx)
    ensures ToEntropy(sha256, |Split(Generate(sha256, list, e))|, idx, len)
              == Answer(Ok, |e|, if |e| <= len then Some(e) else None)
  {
    hide BitsOf, Split, Generate, Entropy, Spread, Group;
    GeneratedWords(sha256, list, e);
    StreamGroups(sha256, e);
    GeneratedIsAccepted(sha256, list, e, idx.value);
  }

  /** Success means a checked sentence exactly when the buffer has room for the entropy that so many words suggest. */
  lemma CheckedIffRoom(sha256: Hash, n: nat, idx: Option<seq<nat>>, len: nat)
    requires n > 0 && (idx.Some? ==> |idx.value| == n)
    ensures var r := ToEntropy(sha256, n, idx, len);
            r.ret == Ok ==> (r.entropy.Some? <==> PlainLength(PackedLength(n, WORD_BITS)) <= len)
  {
  }

  lemma LastBits(q: seq<nat>)
    ensures Spread(q + [0], WORD_BITS) != Spread(q + [1], WORD_BITS)
    ensures |Spread(q + [0], WORD_BITS)| == |Spread(q + [1], WORD_BITS)| == |Spread(q, WORD_BITS)| + WORD_BITS
    ensures forall k :: 0 <= k < |Spread(q, WORD_BITS)| + 10 ==>
              Spread(q + [0], WORD_BITS)[k] == Spread(q + [1], WORD_BITS)[k]
  {
    SpreadSnoc(q, 0, WORD_BITS);
    SpreadSnoc(q, 1, WORD_BITS);
    assert ToBits(0, 11)[10] != ToBits(1, 11)[10];
    assert ToBits(0, 11)[..10] == ToBits(0, 10) == ToBits(1, 11)[..10];
    hide ToBits, Spread;
    var s := Spread(q, WORD_BITS);
    assert (s + ToBits(0, 11))[|s| + 10] != (s + ToBits(1, 11))[|s| + 10];
    forall k | 0 <= k < |s| + 10
      ensures (s + ToBits(0, 11))[k] == (s + ToBits(1, 11))[k]
    {
      if k >= |s| { assert ToBits(0, 11)[..10][k - |s|] == ToBits(1, 11)[..10][k - |s|]; }
    }
  }

  /** Whatever the hash, of two sentences that differ only in the checksum one is wrong. */
  lemma OneIsWrong(sha256: Hash, q: seq<nat>)
    requires |q| == 11
    ensures Entropy(sha256, q + [0]) == None || Entropy(sha256, q + [1]) == None
  {
    hide Spread, Pack, Stream;
    var a, b := Spread(q + [0], WORD_BITS), Spread(q + [1], WORD_BITS);
    LastBits(q);
    SpreadLength(q, WORD_BITS);
    assert a[..128] == b[..128];
  }

  /**
   So, for every hash and list, a sentence of 12 words that is refused with room for its entropy and answered Ok
   without.
   */
  lemma WrongChecksumAnswered(sha256: Hash, list: seq<string>, len: nat) returns (m: string, idx: seq<nat>)
    requires ListOk(list) && len < 16
    ensures Numbered(list, m, Some(idx)) && |Split(m)| == 12
    ensures ToEntropy(sha256, 12, Some(idx), 16) == INVALID
    ensures ToEntropy(sha256, 12, Some(idx), len) == Answer(Ok, 16, None)
  {
    hide Entropy, Split, Join;
    var q := Repeat<nat>(0, 11);
    OneIsWrong(sha256, q);
    idx := if Entropy(sha256, q + [0]) == None then q + [0] else q + [1];
    assert forall i :: 0 <= i < |idx| ==> idx[i] < 2048;
    m := Join(Pick(list, idx));
    SplitJoin(Pick(list, idx));
  }
}
