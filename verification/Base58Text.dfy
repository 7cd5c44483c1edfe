/** Base58 strings character by character: the alphabet, the number they spell, and the checksum of their bytes. */
module Base58Text {
  import opened Common
  import opened Radix
  import opened Base58

  /** The digits in order; 0, I, O and l are not among them. */
  const ALPHABET: string := "123456789" + "ABCDEFGHJKLMNPQRSTUVWXYZ" + "abcdefghijkmnopqrstuvwxyz"

  lemma AlphabetDigits(d: nat)
    requires d < 58
    ensures |ALPHABET| == 58 && ByteToBase58(d) == ALPHABET[d]
  {
    match d
    case 0 => case 1 => case 2 => case 3 => case 4 => case 5 => case 6 => case 7 => case 8 => case 9 =>
    case 10 => case 11 => case 12 => case 13 => case 14 => case 15 => case 16 => case 17 => case 18 => case 19 =>
    case 20 => case 21 => case 22 => case 23 => case 24 => case 25 => case 26 => case 27 => case 28 => case 29 =>
    case 30 => case 31 => case 32 => case 33 => case 34 => case 35 => case 36 => case 37 => case 38 => case 39 =>
    case 40 => case 41 => case 42 => case 43 => case 44 => case 45 => case 46 => case 47 => case 48 => case 49 =>
    case 50 => case 51 => case 52 => case 53 => case 54 => case 55 => case 56 => case _ =>
  }

  lemma FirstDigit()
    ensures ALPHABET[0] == '1'
  {
  }

  /** A character that is accepted is in the alphabet. */
  lemma AcceptedIsDigit(c: char) returns (d: nat)
    requires ValidChar(c)
    ensures d < 58 && c == ALPHABET[d] && Base58ToByte(c) == d + 1
  {
    d := Base58ToByte(c) - 1;
    CharRoundTrip(c);
    AlphabetDigits(d);
  }

  lemma DigitIsAccepted(d: nat)
    requires d < 58
    ensures ValidChar(ALPHABET[d]) && Base58ToByte(ALPHABET[d]) == d + 1
  {
    hide Base58ToByte, ByteToBase58;
    AlphabetDigits(d);
    AlphabetRoundTrip(d);
  }

  /**
   The text spells the bytes: its characters are the digits of the alphabet, the number they stand for is that of the
   bytes, and it has as many leading zeros as the bytes.
   */
  ghost predicate Spells(s: string, d: seq<nat>, bytes: seq<byte>) {
    && |s| == |d| && AllBelow(d, 58) && (forall i :: 0 <= i < |s| ==> s[i] == ALPHABET[d[i]])
    && Value(d, 58) == Value(bytes, 256)
    && exists z: nat :: ZerosFirst(d, z) && ZerosFirst(bytes, z)
  }

  /** Exactly z elements in front are zero. */
  predicate ZerosFirst(s: seq<nat>, z: nat) {
    && z <= |s| && (forall i :: 0 <= i < z ==> s[i] == 0) && (z < |s| ==> s[z] != 0)
  }

  /** Digits with so many zeros in front are determined by their number. */
  lemma ZerosAndNumber(s: seq<nat>, z: nat, base: nat)
    requires base > 1 && AllBelow(s, base) && ZerosFirst(s, z)
    ensures s == Repeat(0, z) + Digits(Value(s, base), base)
  {
    hide Value, Digits;
    LeadingUnique<nat>(s, 0, z);
    SplitAtZeros(s, base);
  }

  /** Bytes become the text that spells them. */
  lemma EncodeSpells(bytes: seq<byte>) returns (d: seq<nat>)
    ensures Spells(Encode(bytes), d, bytes)
  {
    hide Value, Digits, ByteToBase58, Leading;
    var z, v := Leading<nat>(bytes, 0), Value(bytes, 256);
    d := Repeat(0, z) + Digits(v, 58);
    ValueOfDigits(v, 58);
    LeadingZeros(z, Digits(v, 58), 58);
    forall i | 0 <= i < |d|
      ensures Encode(bytes)[i] == ALPHABET[d[i]]
    {
      AlphabetDigits(d[i]);
      FirstDigit();
      assert i < z ==> Encode(bytes)[i] == '1';
    }
    assert ZerosFirst(bytes, z) && ZerosFirst(d, z);
  }

  /** And only such a text has the bytes as its decoding. */
  lemma DecodeSpells(s: string, d: seq<nat>, bytes: seq<byte>)
    requires s != [] && Spells(s, d, bytes)
    ensures Decode(s) == Some(bytes)
  {
    hide Value, Digits, ByteToBase58, Base58ToByte, Leading;
    var z: nat :| ZerosFirst(d, z) && ZerosFirst(bytes, z);
    forall i | 0 <= i < |s|
      ensures ValidChar(s[i]) && Base58ToByte(s[i]) - 1 == d[i] && (s[i] == '1' <==> d[i] == 0)
    {
      DigitIsAccepted(d[i]);
      DigitIsAccepted(0);
    }
    assert CharValues(s) == d;
    LeadingUnique(s, '1', z);
    ZerosAndNumber(bytes, z, 256);
  }

  /** A text is decoded exactly if it has characters and all of them are in the alphabet. */
  lemma DecodesIfAlphabet(s: string)
    ensures Decode(s).Some? <==> s != [] && forall i :: 0 <= i < |s| ==> s[i] in ALPHABET
  {
    hide Value, Digits, Base58ToByte, ByteToBase58, Leading;
    forall i | 0 <= i < |s|
      ensures ValidChar(s[i]) <==> s[i] in ALPHABET
    {
      if ValidChar(s[i]) { var d := AcceptedIsDigit(s[i]); }
      if s[i] in ALPHABET {
        var d: nat :| d < |ALPHABET| && ALPHABET[d] == s[i];
        DigitIsAccepted(d);
      }
    }
  }

  /** With the checksum flag what is encoded is the bytes and the first four of their double SHA-256. */
  lemma EncodeCheckSpells(sha256d: seq<byte> -> Digest, bytes: seq<byte>) returns (d: seq<nat>)
    ensures Spells(EncodeCheck(sha256d, bytes), d, bytes + sha256d(bytes)[..4])
  {
    hide Encode;
    d := EncodeSpells(bytes + sha256d(bytes)[..4]);
  }

  /** And what is decoded is more than four bytes that end with those four of the bytes before them. */
  lemma DecodeCheckMeans(sha256d: seq<byte> -> Digest, s: string, bytes: seq<byte>)
    ensures DecodeCheck(sha256d, s) == Some(bytes)
       <==> bytes != [] && Decode(s) == Some(bytes + sha256d(bytes)[..4])
  {
    hide Decode;
    var all := bytes + sha256d(bytes)[..4];
    if Decode(s).Some? {
      var d := Decode(s).value;
      if |d| > 4 { assert d == d[..|d| - 4] + d[|d| - 4..]; }
      if d == all { assert d[..|d| - 4] == bytes && d[|d| - 4..] == sha256d(bytes)[..4]; }
    }
  }
}
