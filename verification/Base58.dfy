/** Base58 as a function: leading zero bytes become '1's, the rest is a number written in base 58. */
module Base58 {
  import opened Common
  import opened Radix

  const CHECKSUM_LEN: nat := 4

  /** The table base58_to_byte: 0 for a character outside the alphabet, otherwise its digit plus one. */
  function Base58ToByte(c: char): (r: byte)
    ensures r <= 58
  {
    if '1' <= c <= '9' then (c - '1') as int + 0x01
    else if 'A' <= c <= 'H' then (c - 'A') as int + 0x0A
    else if 'J' <= c <= 'N' then (c - 'J') as int + 0x12
    else if 'P' <= c <= 'Z' then (c - 'P') as int + 0x17
    else if 'a' <= c <= 'k' then (c - 'a') as int + 0x22
    else if 'm' <= c <= 'z' then (c - 'm') as int + 0x2D
    else 0
  }

  /** The table byte_to_base58. */
  function ByteToBase58(d: nat): char
    requires d < 58
  {
    if d < 9 then '1' + d as char
    else if d < 17 then 'A' + (d - 9) as char
    else if d < 22 then 'J' + (d - 17) as char
    else if d < 33 then 'P' + (d - 22) as char
    else if d < 44 then 'a' + (d - 33) as char
    else 'm' + (d - 44) as char
  }

  predicate ValidChar(c: char) {
    Base58ToByte(c) != 0
  }

  predicate ValidString(s: string) {
    forall i :: 0 <= i < |s| ==> ValidChar(s[i])
  }

  function CharValues(s: string): (r: seq<nat>)
    requires ValidString(s)
    ensures |r| == |s| && AllBelow(r, 58)
  {
    seq(|s|, i requires 0 <= i < |s| => Base58ToByte(s[i]) - 1)
  }

  function Chars(d: seq<nat>): (s: string)
    requires AllBelow(d, 58)
    ensures |s| == |d|
  {
    seq(|d|, i requires 0 <= i < |d| => ByteToBase58(d[i]))
  }

  /** How many elements at the front equal x. */
  function Leading<T(==)>(s: seq<T>, x: T): (k: nat)
    ensures k <= |s| && (forall i :: 0 <= i < k ==> s[i] == x) && (k < |s| ==> s[k] != x)
  {
    if s == [] || s[0] != x then 0 else 1 + Leading(s[1..], x)
  }

  function Encode(bytes: seq<byte>): string {
    Repeat('1', Leading<nat>(bytes, 0)) + Chars(Digits(Value(bytes, 256), 58))
  }

  function Decode(s: string): Option<seq<byte>> {
    if s == [] || !ValidString(s) then None
    else Some(Repeat(0, Leading(s, '1')) + Digits(Value(CharValues(s), 58), 256))
  }

  // ---------------------------------------------------------------- the alphabet and the number are bijective

  lemma AlphabetRoundTrip(d: nat)
    requires d < 58
    ensures Base58ToByte(ByteToBase58(d)) == d + 1
    ensures ByteToBase58(d) == '1' <==> d == 0
  {
  }

  lemma CharRoundTrip(c: char)
    requires ValidChar(c)
    ensures ByteToBase58(Base58ToByte(c) - 1) == c
    ensures c == '1' <==> Base58ToByte(c) == 1
  {
  }

  lemma LeadingUnique<T>(s: seq<T>, x: T, k: nat)
    requires k <= |s| && (forall i :: 0 <= i < k ==> s[i] == x) && (k < |s| ==> s[k] != x)
    ensures Leading(s, x) == k
  {
    var l := Leading(s, x);
    assert l < |s| ==> s[l] != x;
  }

  /** A byte or digit string splits into its leading zeros and the digits of its value. */
  lemma SplitAtZeros(s: seq<nat>, base: nat)
    requires base > 1 && AllBelow(s, base)
    ensures s == Repeat(0, Leading<nat>(s, 0)) + Digits(Value(s, base), base)
  {
    var k := Leading<nat>(s, 0);
    var z, d := Repeat(0, k), s[k..];
    assert s == z + d;
    LeadingZeros(k, d, base);
    DigitsOfValue(d, base);
  }

  lemma ValuesOfChars(z: nat, d: seq<nat>)
    requires AllBelow(d, 58)
    ensures var s := Repeat('1', z) + Chars(d);
            ValidString(s) && CharValues(s) == Repeat(0, z) + d
  {
    var s := Repeat('1', z) + Chars(d);
    forall i | 0 <= i < |s| ensures ValidChar(s[i]) && Base58ToByte(s[i]) - 1 == (Repeat(0, z) + d)[i] {
      if i >= z { AlphabetRoundTrip(d[i - z]); }
    }
  }

  lemma DecodeOfDigits(z: nat, d: seq<nat>)
    requires AllBelow(d, 58) && (d != [] ==> d[0] != 0) && z + |d| > 0
    ensures Decode(Repeat('1', z) + Chars(d)) == Some(Repeat(0, z) + Digits(Value(d, 58), 256))
  {
    var s := Repeat('1', z) + Chars(d);
    ValuesOfChars(z, d);
    if d != [] { AlphabetRoundTrip(d[0]); }
    LeadingUnique(s, '1', z);
    LeadingZeros(z, d, 58);
  }

  /** Decoding undoes encoding for every non-empty byte string, leading zeros included. */
  lemma DecodeEncode(bytes: seq<byte>)
    requires bytes != []
    ensures Decode(Encode(bytes)) == Some(bytes)
  {
    var z, v := Leading<nat>(bytes, 0), Value(bytes, 256);
    SplitAtZeros(bytes, 256);
    DecodeOfDigits(z, Digits(v, 58));
    ValueOfDigits(v, 58);
  }

  /** Encoding undoes decoding for every string that decodes. */
  lemma EncodeDecode(s: string)
    requires Decode(s).Some?
    ensures Encode(Decode(s).value) == s
  {
    hide Value, Digits, Base58ToByte, ByteToBase58;
    var k, c := Leading(s, '1'), CharValues(s);
    var v := Value(c, 58);
    var bytes: seq<byte> := Decode(s).value;
    forall i | 0 <= i < |s| ensures c[i] == 0 <==> s[i] == '1' { CharRoundTrip(s[i]); }
    LeadingUnique<nat>(c, 0, k);
    SplitAtZeros(c, 58);
    LeadingUnique<nat>(bytes, 0, k);
    LeadingZeros(k, Digits(v, 256), 256);
    ValueOfDigits(v, 256);
    forall i | 0 <= i < |s| ensures Encode(bytes)[i] == s[i] && |Encode(bytes)| == |s| {
      CharRoundTrip(s[i]);
      if i >= k { assert c[i] == Digits(v, 58)[i - k]; }
    }
  }

  // ---------------------------------------------------------------- with a checksum

  type Digest = s: seq<byte> | |s| == 32 witness Repeat(0, 32)

  function Checksum(sha256d: seq<byte> -> Digest, bytes: seq<byte>): (c: seq<byte>)
    ensures |c| == CHECKSUM_LEN
  {
    sha256d(bytes)[..CHECKSUM_LEN]
  }

  /** A payload followed by its checksum. */
  predicate Checked(sha256d: seq<byte> -> Digest, d: seq<byte>) {
    |d| > CHECKSUM_LEN && d[|d| - CHECKSUM_LEN..] == Checksum(sha256d, d[..|d| - CHECKSUM_LEN])
  }

  function EncodeCheck(sha256d: seq<byte> -> Digest, bytes: seq<byte>): string {
    Encode(bytes + Checksum(sha256d, bytes))
  }

  function DecodeCheck(sha256d: seq<byte> -> Digest, s: string): Option<seq<byte>> {
    match Decode(s)
    case Some(d) => if Checked(sha256d, d) then Some(d[..|d| - CHECKSUM_LEN]) else None
    case None => None
  }

  /** With the checksum too, a non-empty payload and its string determine each other. */
  lemma CheckRoundTrip(sha256d: seq<byte> -> Digest, bytes: seq<byte>, s: string)
    requires bytes != []
    ensures DecodeCheck(sha256d, s) == Some(bytes) <==> s == EncodeCheck(sha256d, bytes)
  {
    var all := bytes + Checksum(sha256d, bytes);
    DecodeEncode(all);
    if Decode(s).Some? {
      EncodeDecode(s);
      var d := Decode(s).value;
      assert |d| > CHECKSUM_LEN ==> d == d[..|d| - CHECKSUM_LEN] + d[|d| - CHECKSUM_LEN..];
    }
  }

  // ---------------------------------------------------------------- buffer sizes

  function DigitBytes(k: nat): nat {
    k * 138 / 100 + 1
  }

  function WordCount(n: nat): nat {
    ((n * 6 + 7) / 8 + 3) / 4
  }

  /** floor(138k/100) + 1 base-58 digits hold any k bytes, because 256^8 < 58^11. */
  lemma {:induction false} DigitBytesSuffice(k: nat)
    ensures Pow(256, k) < Pow(58, DigitBytes(k))
  {
    hide Pow, DigitBytes;
    if k < 8 {
      FewBytes(k);
    } else {
      DigitBytesSuffice(k - 8);
      PowAdd(256, k - 8, 8);
      PowAdd(58, DigitBytes(k - 8), 11);
      SmallPowers();
      MoreDigits(k - 8);
      PowMonotone(58, DigitBytes(k - 8) + 11, DigitBytes(k));
      StrictProduct(Pow(256, k - 8), Pow(256, 8), Pow(58, DigitBytes(k - 8)), Pow(58, 11));
    }
  }

  lemma FewBytes(k: nat)
    requires k < 8
    ensures Pow(256, k) < Pow(58, DigitBytes(k))
  {
    hide Pow;
    SmallPowers();
    PowNothing(256);
  }

  lemma PowNothing(base: nat)
    ensures Pow(base, 0) == 1
  {
  }

  /** Eight more bytes get at least eleven more digits. */
  lemma MoreDigits(k: nat)
    ensures DigitBytes(k) + 11 <= DigitBytes(k + 8)
  {
  }

  lemma StrictProduct(a: nat, b: nat, c: nat, d: nat)
    requires a < c && b <= d && 0 < d
    ensures a * b < c * d
  {
    assert a * b <= a * d;
    assert a * d < c * d;
  }

  lemma SmallPowers()
    ensures Pow(256, 1) == 0x100 && Pow(256, 2) == 0x1_0000 && Pow(256, 3) == 0x100_0000
    ensures Pow(256, 4) == 0x1_0000_0000 && Pow(256, 5) == 0x100_0000_0000 && Pow(256, 6) == 0x1_0000_0000_0000
    ensures Pow(256, 7) == 0x100_0000_0000_0000 && Pow(256, 8) == 0x1_0000_0000_0000_0000
    ensures Pow(58, 1) == 58 && Pow(58, 2) == 3364 && Pow(58, 3) == 195112 && Pow(58, 5) == 656356768
    ensures Pow(58, 6) == 38068692544 && Pow(58, 7) == 2207984167552 && Pow(58, 9) == 7427658739644928
    ensures Pow(58, 10) == 430804206899405824 && Pow(58, 11) == 24986644000165537792
  {
    assert Pow(256, 0) == 1 && Pow(58, 0) == 1;
    assert Pow(58, 4) == 11316496;
    assert Pow(58, 8) == 128063081718016;
  }

  /** Six bits per character, rounded up to words, hold any n characters. */
  lemma WordCountSuffices(n: nat)
    ensures Pow(58, n) <= Pow(TWO_32, WordCount(n))
  {
    var w := WordCount(n);
    assert n * 6 <= w * 32;
    PowBase(58, 64, n);
    TwoPowers();
    PowPow(2, 6, n);
    PowPow(2, 32, w);
    PowMonotone(2, 6 * n, 32 * w);
  }

  lemma TwoPowers()
    ensures Pow(2, 6) == 64 && Pow(2, 32) == TWO_32
  {
    assert Pow(2, 0) == 1 && Pow(2, 2) == 4 && Pow(2, 4) == 16 && Pow(2, 6) == 64 && Pow(2, 8) == 256;
    PowAdd(2, 8, 8);
    PowAdd(2, 16, 16);
  }

  lemma {:induction false} PowPow(base: nat, e: nat, n: nat)
    ensures Pow(Pow(base, e), n) == Pow(base, e * n)
  {
    if n > 0 {
      PowPow(base, e, n - 1);
      PowAdd(base, e, e * (n - 1));
      assert e + e * (n - 1) == e * n;
    } else {
      assert e * n == 0;
    }
  }
}
