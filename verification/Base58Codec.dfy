/** The loops of src/base_58.c over bignum buffers, proved to compute `Base58.Decode` and `Base58.Encode`. */
module Base58Codec {
  import opened Common
  import opened Radix
  import opened Base58

  // ---------------------------------------------------------------- decoding

  /** The carry is at most 57, so keeping only its low byte loses nothing. */
  function CarryMask(mult: uint64): (c: byte)
    requires mult <= 0xffff_ffff * 58 + 57
    ensures c == mult / TWO_32 <= 57
  {
    (mult / TWO_32) % 256
  }

  /** One word of the multiplication by 58. */
  method MulWord(bn: array<uint32>, p: nat, ghost was: seq<nat>, digit: byte, carry: byte) returns (carry': byte)
    requires p < bn.Length == |was| && bn[p] == was[p] && carry <= 57
    requires Partial(TWO_32, 58, digit, was, bn[p + 1..], carry)
    modifies bn
    ensures forall j :: 0 <= j < bn.Length && j != p ==> bn[j] == old(bn[j])
    ensures carry' <= 57 && Partial(TWO_32, 58, digit, was, bn[p..], carry')
  {
    ghost var suffix: seq<nat> := bn[p + 1..];
    PartialStep(TWO_32, 58, digit, was, suffix, carry);
    var mult: uint64 := bn[p] * 58 + carry;
    bn[p] := mult % TWO_32;
    assert bn[p..] == [mult % TWO_32] + suffix;
    carry' := CarryMask(mult);
  }

  /** One word of the loop; a carry out of the top word becomes a new top word, which ends the loop. */
  method MulWordGrow(bn: array<uint32>, p: nat, topWord: nat, ghost was: seq<nat>, digit: byte, carry: byte)
    returns (carry': byte, top: nat)
    requires topWord <= p < bn.Length == |was| && bn[p] == was[p] && carry <= 57
    requires Partial(TWO_32, 58, digit, was, bn[p + 1..], carry)
    requires p == topWord ==> 58 * Value(was[p..], TWO_32) + digit < Pow(TWO_32, bn.Length)
    modifies bn
    ensures carry' <= 57 && 0 <= top
    ensures if p == topWord && carry' != 0 then
              top == topWord - 1 && Value(bn[top..], TWO_32) == 58 * Value(was[p..], TWO_32) + digit
            else
              && top == topWord && Partial(TWO_32, 58, digit, was, bn[p..], carry')
              && forall j :: 0 <= j < p ==> bn[j] == old(bn[j])
  {
    top := topWord;
    carry' := MulWord(bn, p, was, digit, carry);
    if carry' != 0 && p == top {
      ghost var words: seq<nat> := bn[p..];
      PartialGrow(TWO_32, 58, digit, was, words, carry', bn.Length);
      top := top - 1;
      bn[top] := carry';
      assert bn[top..] == [carry'] + words;
    }
  }

  /** Multiplies the words from topWord on by 58 and adds a digit; the number may grow by one word. */
  method MulAddWord(bn: array<uint32>, topWord: nat, ghost v: nat, digit: byte) returns (top: nat)
    requires topWord < bn.Length && digit < 58 && v == Value(bn[topWord..], TWO_32)
    requires 58 * v + digit < Pow(TWO_32, bn.Length)
    modifies bn
    ensures top <= topWord
    ensures Value(bn[top..], TWO_32) == 58 * v + digit
  {
    ghost var was: seq<nat> := bn[..];
    assert was[topWord..] == bn[topWord..] && bn[bn.Length..] == [];
    PartialStart(TWO_32, 58, digit, was);
    var carry: byte, q: nat;
    top, carry, q := topWord, digit, bn.Length;
    while q > top
      invariant top == topWord && top <= q <= bn.Length
      invariant carry <= 57 && (q == top ==> carry == 0)
      invariant forall j :: top <= j < q ==> bn[j] == was[j]
      invariant Partial(TWO_32, 58, digit, was, bn[q..], carry)
    {
      var p := q - 1;
      carry, top := MulWordGrow(bn, p, top, was, digit, carry);
      if top < topWord {
        return;
      }
      q := p;
    }
    PartialDone(TWO_32, 58, digit, was, bn[top..]);
  }

  /** Reading one more character. */
  lemma NextChar(s: string, i: nat)
    requires i < |s| && ValidString(s[..i]) && ValidChar(s[i])
    ensures ValidString(s[..i + 1])
    ensures var v, d := Value(CharValues(s[..i]), 58), Base58ToByte(s[i]) - 1;
            Value(CharValues(s[..i + 1]), 58) == 58 * v + d < Pow(TWO_32, WordCount(|s|))
  {
    hide Value, Pow, WordCount, Base58ToByte;
    var values, d := CharValues(s[..i]), Base58ToByte(s[i]) - 1;
    assert CharValues(s[..i + 1]) == values + [d];
    AppendDigit(values, d, 58);
    ValueBound(values + [d], 58);
    PowMonotone(58, i + 1, |s|);
    WordCountSuffices(|s|);
  }

  /** Accumulates the characters into the words; fails on the first invalid one. */
  method AccumulateDigits(base58: string, bn: array<uint32>) returns (ok: bool, top: nat)
    requires base58 != [] && bn.Length == WordCount(|base58|)
    modifies bn
    ensures ok == ValidString(base58) && top < bn.Length
    ensures ok ==> Value(bn[top..], TWO_32) == Value(CharValues(base58), 58)
  {
    top := bn.Length - 1;
    bn[top] := 0;
    assert bn[top..] == [0] && [0][..0] == [];
    var i := 0;
    while i < |base58|
      invariant 0 <= i <= |base58| && top < bn.Length && ValidString(base58[..i])
      invariant Value(bn[top..], TWO_32) == Value(CharValues(base58[..i]), 58)
    {
      var digit: byte := Base58ToByte(base58[i]);
      if digit == 0 {
        assert !ValidChar(base58[i]);
        return false, top;
      }
      NextChar(base58, i);
      top := MulAddWord(bn, top, Value(CharValues(base58[..i]), 58), digit - 1);
      i := i + 1;
    }
    assert base58[..i] == base58;
    ok := true;
  }

  lemma NoValue(s: seq<nat>, base: nat)
    requires s == []
    ensures Value(s, base) == 0
  {
  }

  lemma AppendWord(q: seq<nat>, w: uint32, b0: byte, b1: byte, b2: byte, b3: byte)
    requires w == ((b0 * 256 + b1) * 256 + b2) * 256 + b3
    ensures Value(q + [b0, b1, b2, b3], 256) == Value(q, 256) * TWO_32 + w
  {
    AppendDigit(q, b0, 256);
    AppendDigit(q + [b0], b1, 256);
    AppendDigit(q + [b0, b1], b2, 256);
    AppendDigit(q + [b0, b1, b2], b3, 256);
    assert q + [b0] + [b1] == q + [b0, b1] && q + [b0, b1] + [b2] == q + [b0, b1, b2];
    assert q + [b0, b1, b2] + [b3] == q + [b0, b1, b2, b3];
    Horner(Value(q, 256), b0, b1, b2, b3);
  }

  lemma Horner(v: nat, b0: byte, b1: byte, b2: byte, b3: byte)
    ensures (((v * 256 + b0) * 256 + b1) * 256 + b2) * 256 + b3
         == v * TWO_32 + ((b0 * 256 + b1) * 256 + b2) * 256 + b3
  {
  }

  method BigEndian(w: uint32) returns (b0: byte, b1: byte, b2: byte, b3: byte)
    ensures w == ((b0 * 256 + b1) * 256 + b2) * 256 + b3
  {
    var q := w / 256;
    var r := q / 256;
    b0, b1, b2, b3 := r / 256, r % 256, q % 256, w % 256;
  }

  /** The words from top on, each in big-endian byte order. */
  method BigEndianBytes(bn: array<uint32>, top: nat) returns (be: array<byte>)
    requires top <= bn.Length
    ensures fresh(be) && be.Length == 4 * (bn.Length - top)
    ensures Value(be[..], 256) == Value(bn[top..], TWO_32)
  {
    hide Value, Digits;
    be := new byte[4 * (bn.Length - top)];
    NoValue(be[..0], 256);
    NoValue(bn[top..top], TWO_32);
    var p := top;
    while p < bn.Length
      invariant top <= p <= bn.Length
      invariant Value(be[..4 * (p - top)], 256) == Value(bn[top..p], TWO_32)
    {
      var k, w := 4 * (p - top), bn[p];
      ghost var q: seq<nat>, words: seq<nat> := be[..k], bn[top..p];
      var b0: byte, b1: byte, b2: byte, b3: byte := BigEndian(w);
      be[k], be[k + 1], be[k + 2], be[k + 3] := b0, b1, b2, b3;
      AppendWord(q, w, b0, b1, b2, b3);
      AppendDigit(words, w, TWO_32);
      assert be[..k + 4] == q + [b0, b1, b2, b3];
      assert bn[top..p + 1] == words + [w];
      p := p + 1;
    }
    assert be[..4 * (p - top)] == be[..];
    assert bn[top..p] == bn[top..];
  }

  /** Skips leading zero bytes; there is a non-zero byte to stop at. */
  method SkipZeros(be: array<byte>) returns (cp: nat)
    requires Value(be[..], 256) > 0
    ensures cp <= be.Length && be[cp..] == Digits(Value(be[..], 256), 256)
  {
    ghost var s: seq<nat> := be[..];
    ghost var z := FirstDigit(s, 256);
    assert be[z..] == s[z..] && forall i :: 0 <= i <= z ==> be[i] == s[i];
    cp := 0;
    while be[cp] == 0
      invariant cp <= z
      decreases z - cp
    {
      cp := cp + 1;
    }
  }

  method CountOnes(base58: string) returns (ones: nat)
    ensures ones == Leading(base58, '1')
  {
    ones := 0;
    while ones < |base58| && base58[ones] == '1'
      invariant ones <= |base58| && forall i :: 0 <= i < ones ==> base58[i] == '1'
    {
      ones := ones + 1;
    }
    LeadingUnique(base58, '1', ones);
  }

  /** Writes k zeros and then a byte string into the front of the output. */
  method WriteOut(out: array<byte>, k: nat, bytes: array<byte>, from: nat)
    requires from <= bytes.Length && k + bytes.Length - from <= out.Length && out != bytes
    modifies out
    ensures out[..k + bytes.Length - from] == Repeat(0, k) + bytes[from..]
    ensures forall i :: k + bytes.Length - from <= i < out.Length ==> out[i] == old(out[i])
  {
    forall i | 0 <= i < k { out[i] := 0; }
    forall i | 0 <= i < bytes.Length - from { out[k + i] := bytes[from + i]; }
  }

  /** The bytes of a string without leading '1's: be[cp..]. */
  method DecodeNumber(base58: string) returns (ok: bool, be: array<byte>, cp: nat)
    requires base58 != [] && (ValidChar(base58[0]) ==> base58[0] != '1')
    ensures ok == ValidString(base58) && fresh(be) && cp <= be.Length
    ensures ok ==> be[cp..] == Digits(Value(CharValues(base58), 58), 256)
  {
    cp := 0;
    var bn := new uint32[WordCount(|base58|)];
    var top;
    ok, top := AccumulateDigits(base58, bn);
    if ok {
      be := BigEndianBytes(bn, top);
      CharRoundTrip(base58[0]);
      DigitsOfValue(CharValues(base58), 58);
      cp := SkipZeros(be);
    } else {
      be := new byte[0];
    }
  }

  /** The decoded bytes, as leading zeros and the tail of a byte buffer. */
  method DecodeParts(base58: string) returns (ok: bool, ones: nat, be: array<byte>, cp: nat)
    ensures ok == Decode(base58).Some? && fresh(be) && cp <= be.Length
    ensures ok ==> Decode(base58).value == Repeat(0, ones) + be[cp..]
  {
    ok, ones, be, cp := false, 0, new byte[0], 0;
    if base58 == [] {
      return;
    }
    ones := CountOnes(base58);
    DecodeSplits(base58, ones);
    ok := true;
    if ones < |base58| {
      ok, be, cp := DecodeNumber(base58[ones..]);
    }
  }

  /**
   base58_decode: len is the room in bytesOut (a null bytesOut only measures). On success the
   decoded length is returned, and the bytes are written when they fit.
   */
  method Base58Decode(base58: string, bytesOut: array?<byte>, len: nat) returns (ret: Status, len': nat)
    requires bytesOut != null ==> len <= bytesOut.Length
    modifies if bytesOut == null then {} else {bytesOut}
    ensures ret == if Decode(base58).None? then Einval else Ok
    ensures len' == if ret == Ok then |Decode(base58).value| else len
    ensures bytesOut != null && ret == Ok && len' <= len ==> bytesOut[..len'] == Decode(base58).value
    ensures bytesOut != null ==>
              forall i :: (if ret == Ok && len' <= len then len' else 0) <= i < bytesOut.Length ==>
                bytesOut[i] == old(bytesOut[i])
  {
    var ok, ones, be, cp := DecodeParts(base58);
    if !ok {
      return Einval, len;
    }
    len' := ones + be.Length - cp;
    if bytesOut != null && len' <= len {
      WriteOut(bytesOut, ones, be, cp);
    }
    return Ok, len';
  }

  /** What decoding means once the leading '1's are split off. */
  lemma DecodeSplits(s: string, ones: nat)
    requires s != [] && ones == Leading(s, '1')
    ensures ValidString(s) <==> ValidString(s[ones..])
    ensures ValidString(s) ==> Decode(s) == Some(Repeat(0, ones) + Digits(Value(CharValues(s[ones..]), 58), 256))
  {
    var rest := s[ones..];
    forall i | 0 <= i < |s| ensures i < ones ==> ValidChar(s[i]) {}
    forall i | ones <= i < |s| ensures s[i] == rest[i - ones] {}
    if ValidString(rest) {
      forall i | 0 <= i < |s| ensures ValidChar(s[i]) { if i >= ones { assert s[i] == rest[i - ones]; } }
      DecodeValid(s, ones);
    } else {
      var i :| 0 <= i < |rest| && !ValidChar(rest[i]);
      assert s[ones + i] == rest[i];
    }
  }

  lemma DecodeValid(s: string, ones: nat)
    requires s != [] && ones == Leading(s, '1') && ValidString(s) && ValidString(s[ones..])
    ensures Decode(s) == Some(Repeat(0, ones) + Digits(Value(CharValues(s[ones..]), 58), 256))
  {
    assert CharValues(s) == Repeat(0, ones) + CharValues(s[ones..]);
    LeadingZeros(ones, CharValues(s[ones..]), 58);
  }

  // ---------------------------------------------------------------- encoding

  /** One base-58 digit of the multiplication by 256. */
  method MulDigit(bn: array<byte>, p: nat, ghost was: seq<nat>, b: byte, carry: nat) returns (carry': nat)
    requires p < bn.Length == |was| && bn[p] == was[p] < 58 && carry <= 255
    requires Partial(58, 256, b, was, bn[p + 1..], carry) && AllBelow(bn[p + 1..], 58)
    modifies bn
    ensures forall j :: 0 <= j < bn.Length && j != p ==> bn[j] == old(bn[j])
    ensures carry' <= 255 && Partial(58, 256, b, was, bn[p..], carry') && AllBelow(bn[p..], 58)
  {
    ghost var suffix: seq<nat> := bn[p + 1..];
    PartialStep(58, 256, b, was, suffix, carry);
    var sum: uint32 := bn[p] * 256 + carry;
    bn[p] := sum % 58;
    assert bn[p..] == [sum % 58] + suffix;
    carry' := sum / 58;
  }

  /** One digit of the loop: rewrites the digit at p, and opens a zero digit above it when a carry leaves the top. */
  method MulDigitGrow(bn: array<byte>, p: nat, topByte: nat, ghost was: seq<nat>, b: byte, carry: nat)
    returns (carry': nat, top: nat)
    requires topByte <= p < bn.Length == |was| && bn[p] == was[p] < 58 && carry <= 255
    requires Partial(58, 256, b, was, bn[p + 1..], carry) && AllBelow(bn[p + 1..], 58)
    requires p == topByte ==> 256 * Value(was[p..], 58) + b < Pow(58, bn.Length)
    modifies bn
    ensures carry' <= 255 && Partial(58, 256, b, was, bn[p..], carry') && AllBelow(bn[p..], 58)
    ensures if p == topByte && carry' != 0 then top == topByte - 1 && bn[top] == 0 else top == topByte
    ensures 0 <= top && forall j :: 0 <= j < p && (j != top || top == topByte) ==> bn[j] == old(bn[j])
  {
    top := topByte;
    carry' := MulDigit(bn, p, was, b, carry);
    if carry' != 0 && p == top {
      PartialGrow(58, 256, b, was, bn[p..], carry', bn.Length);
      ghost var digits := bn[p..];
      top := top - 1;
      bn[top] := 0;
      assert bn[p..] == digits;
    }
  }

  /** Multiplies the digits from topByte on by 256 and adds a byte, growing the number as far as needed. */
  method MulAddByte(bn: array<byte>, topByte: nat, ghost v: nat, b: byte) returns (top: nat)
    requires topByte < bn.Length && AllBelow(bn[topByte..], 58) && v == Value(bn[topByte..], 58)
    requires 256 * v + b < Pow(58, bn.Length)
    modifies bn
    ensures top <= topByte && AllBelow(bn[top..], 58)
    ensures Value(bn[top..], 58) == 256 * v + b
  {
    hide Value, Pow, Partial;
    ghost var tail: seq<nat> := bn[topByte..];
    ghost var was: seq<nat> := Repeat(0, topByte) + tail;
    PartialStart(58, 256, b, was);
    assert bn[bn.Length..] == [];
    var carry: nat, q: nat;
    top, carry, q := topByte, b, bn.Length;
    while q > top
      invariant 0 <= top <= topByte && top <= q <= bn.Length
      invariant carry <= 255 && (q == top ==> carry == 0)
      invariant forall j :: top <= j < q ==> bn[j] == was[j]
      invariant Partial(58, 256, b, was, bn[q..], carry) && AllBelow(bn[q..], 58)
      decreases q
    {
      PaddedValue(topByte, top, tail, was, 58);
      var p := q - 1;
      carry, top := MulDigitGrow(bn, p, top, was, b, carry);
      q := p;
    }
    PaddedValue(topByte, top, tail, was, 58);
    PartialDone(58, 256, b, was, bn[top..]);
  }

  lemma PaddedValue(topByte: nat, top: nat, tail: seq<nat>, was: seq<nat>, base: nat)
    requires top <= topByte && was == Repeat(0, topByte) + tail
    ensures Value(was[top..], base) == Value(tail, base)
  {
    assert was[top..] == Repeat(0, topByte - top) + tail;
    LeadingZeros(topByte - top, tail, base);
  }

  /** Reading one more byte. */
  lemma NextByte(s: seq<byte>, i: nat)
    requires i < |s|
    ensures Value(s[..i + 1], 256) == 256 * Value(s[..i], 256) + s[i] < Pow(58, DigitBytes(|s|))
  {
    var next: seq<nat> := s[..i + 1];
    assert next[..i] == s[..i];
    ValueBound(next, 256);
    PowMonotone(256, i + 1, |s|);
    DigitBytesSuffice(|s|);
  }

  /** Accumulates the bytes into base-58 digits; the buffer never underruns. */
  method AccumulateBytes(bytes: seq<byte>, bn: array<byte>) returns (top: nat)
    requires bn.Length == DigitBytes(|bytes|)
    modifies bn
    ensures top < bn.Length && AllBelow(bn[top..], 58)
    ensures Value(bn[top..], 58) == Value(bytes, 256)
  {
    top := bn.Length - 1;
    bn[top] := 0;
    assert bn[top..] == [0] && [0][..0] == [];
    var i := 0;
    while i < |bytes|
      invariant 0 <= i <= |bytes| && top < bn.Length && AllBelow(bn[top..], 58)
      invariant Value(bn[top..], 58) == Value(bytes[..i], 256)
    {
      NextByte(bytes, i);
      top := MulAddByte(bn, top, Value(bytes[..i], 256), bytes[i]);
      i := i + 1;
    }
    assert bytes[..i] == bytes;
  }

  /** Where the digits of a non-zero number start. */
  lemma FirstDigit(s: seq<nat>, base: nat) returns (z: nat)
    requires base > 1 && AllBelow(s, base) && Value(s, base) > 0
    ensures z < |s| && s[z] != 0 && (forall i :: 0 <= i < z ==> s[i] == 0)
    ensures s[z..] == Digits(Value(s, base), base)
  {
    SplitAtZeros(s, base);
    z := Leading<nat>(s, 0);
  }

  /** Skips leading zero digits of a non-zero number, never past the last digit. */
  method SkipZeroDigits(bn: array<byte>, topByte: nat) returns (top: nat)
    requires topByte < bn.Length && AllBelow(bn[topByte..], 58) && Value(bn[topByte..], 58) > 0
    ensures top < bn.Length && bn[top..] == Digits(Value(bn[topByte..], 58), 58)
  {
    ghost var s: seq<nat> := bn[topByte..];
    ghost var z := FirstDigit(s, 58);
    assert bn[topByte + z..] == s[z..] && forall i :: topByte <= i <= topByte + z ==> bn[i] == s[i - topByte];
    top := topByte;
    while bn[top] == 0 && top < bn.Length - 1
      invariant topByte <= top <= topByte + z
    {
      top := top + 1;
    }
  }

  method CountZeros(bytes: seq<byte>) returns (zeros: nat)
    ensures zeros == Leading<nat>(bytes, 0)
  {
    zeros := 0;
    while zeros < |bytes| && bytes[zeros] == 0
      invariant zeros <= |bytes| && forall i :: 0 <= i < zeros ==> bytes[i] == 0
    {
      zeros := zeros + 1;
    }
    LeadingUnique<nat>(bytes, 0, zeros);
  }

  /** wally_base58_from_bytes; b is the payload, followed by its checksum when the flag asks for it. */
  method FromBytes(bytes: seq<byte>, flags: uint32, sha256d: seq<byte> -> Digest)
    returns (ret: Status, output: Option<string>)
    ensures ret == if bytes == [] || flags > 1 then Einval else Ok
    ensures output == if ret == Einval then None
                      else Some(if flags == 1 then EncodeCheck(sha256d, bytes) else Encode(bytes))
  {
    if bytes == [] || flags > 1 {
      return Einval, None;
    }
    var b := if flags == 1 then bytes + Checksum(sha256d, bytes) else bytes;
    var zeros := CountZeros(b);
    EncodeSplits(b, zeros);
    if zeros == |b| {
      return Ok, Some(Repeat('1', zeros));
    }
    var bn := new byte[DigitBytes(|b| - zeros)];
    var top := AccumulateBytes(b[zeros..], bn);
    top := SkipZeroDigits(bn, top);
    var digits := EmitDigits(bn, top);
    return Ok, Some(Repeat('1', zeros) + digits);
  }

  method EmitDigits(bn: array<byte>, top: nat) returns (s: string)
    requires top <= bn.Length && AllBelow(bn[top..], 58)
    ensures s == Chars(bn[top..])
  {
    s := "";
    var i := top;
    while i < bn.Length
      invariant top <= i <= bn.Length && |s| == i - top
      invariant forall k :: top <= k < i ==> bn[k] < 58 && s[k - top] == ByteToBase58(bn[k])
    {
      assert bn[i] == bn[top..][i - top];
      s := s + [ByteToBase58(bn[i])];
      i := i + 1;
    }
  }

  /** Leading zeros do not count. */
  lemma LeadingSplit(b: seq<byte>, zeros: nat)
    requires zeros == Leading<nat>(b, 0)
    ensures zeros <= |b| && Value(b, 256) == Value(b[zeros..], 256)
    ensures zeros < |b| ==> Value(b, 256) > 0
  {
    hide Leading, Value;
    var rest: seq<nat> := b[zeros..];
    assert b == Repeat(0, zeros) + rest;
    LeadingZeros(zeros, rest, 256);
    DigitsOfValue(rest, 256);
  }

  lemma NoDigits(s: seq<nat>)
    requires s == []
    ensures Chars(Digits(Value(s, 256), 58)) == []
  {
  }

  /** What encoding means once the leading zeros are split off. */
  lemma EncodeSplits(b: seq<byte>, zeros: nat)
    requires zeros == Leading<nat>(b, 0)
    ensures Encode(b) == Repeat('1', zeros) + Chars(Digits(Value(b[zeros..], 256), 58))
    ensures if zeros == |b| then Encode(b) == Repeat('1', zeros) else Value(b[zeros..], 256) > 0
  {
    hide Value, Digits, Chars, Leading;
    LeadingSplit(b, zeros);
    if zeros == |b| {
      NoDigits(b[zeros..]);
      assert Repeat('1', zeros) + [] == Repeat('1', zeros);
    }
  }

  // ---------------------------------------------------------------- the public decoder

  method Clear(a: array<byte>, from: nat, to: nat)
    requires from <= to <= a.Length
    modifies a
    ensures forall i :: 0 <= i < a.Length ==> a[i] == if from <= i < to then 0 else old(a[i])
  {
    forall i | from <= i < to { a[i] := 0; }
  }

  /**
   wally_base58_n_to_bytes. An invalid string leaves written at len. When the decoded bytes,
   checksum included, do not fit, the needed size is returned with Ok and nothing is written.
   */
  method ToBytes(strIn: string, flags: uint32, bytesOut: array<byte>, len: nat, sha256d: seq<byte> -> Digest)
    returns (ret: Status, written: nat)
    requires len <= bytesOut.Length
    modifies bytesOut
    ensures var d, bad := Decode(strIn), flags > 1 || len == 0 || (flags == 1 && len <= CHECKSUM_LEN);
            if bad then ret == Einval && written == 0 && bytesOut[..] == old(bytesOut[..])
            else if d.None? then ret == Einval && written == len && bytesOut[..] == old(bytesOut[..])
            else if |d.value| > len then ret == Ok && written == |d.value| && bytesOut[..] == old(bytesOut[..])
            else if flags == 0 then
              && ret == Ok && written == |d.value| && bytesOut[..written] == d.value
              && forall i :: written <= i < bytesOut.Length ==> bytesOut[i] == old(bytesOut[i])
            else if DecodeCheck(sha256d, strIn).Some? then
              && ret == Ok && written == |d.value| - CHECKSUM_LEN
              && bytesOut[..written] == DecodeCheck(sha256d, strIn).value
              && forall i :: written <= i < bytesOut.Length ==>
                bytesOut[i] == if i < |d.value| then 0 else old(bytesOut[i])
            else
              && ret == Einval && written == |d.value|
              && forall i :: 0 <= i < bytesOut.Length ==> bytesOut[i] == if i < len then 0 else old(bytesOut[i])
  {
    if flags > 1 || len == 0 {
      return Einval, 0;
    }
    if flags == 1 && len <= CHECKSUM_LEN {
      return Einval, 0;
    }
    ret, written := Base58Decode(strIn, bytesOut, len);
    if ret == Ok && written > len {
      return Ok, written;
    }
    if ret == Ok && flags == 1 {
      if written <= CHECKSUM_LEN {
        Clear(bytesOut, 0, len);
        return Einval, written;
      }
      ghost var d := bytesOut[..written];
      var offset := written - CHECKSUM_LEN;
      assert d[..offset] == bytesOut[..offset] && d[offset..] == bytesOut[offset..written];
      if bytesOut[offset..written] != Checksum(sha256d, bytesOut[..offset]) {
        Clear(bytesOut, 0, len);
        return Einval, written;
      }
      Clear(bytesOut, offset, written);
      assert bytesOut[..offset] == d[..offset];
      written := offset;
    }
  }
}
