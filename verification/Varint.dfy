/** Little-endian integers and Bitcoin's CompactSize, the varint helpers that src/script_int.h declares. */
module Varint {
  import opened Common
  import opened Radix

  function LittleEndian(v: nat, n: nat): (s: seq<byte>)
    ensures |s| == n
  {
    if n == 0 then [] else [v % 256] + LittleEndian(v / 256, n - 1)
  }

  function FromLittleEndian(s: seq<byte>): nat {
    if s == [] then 0 else FromLittleEndian(s[1..]) * 256 + s[0]
  }

  lemma {:induction false} FromToLittleEndian(v: nat, n: nat)
    requires v < Pow(256, n)
    ensures FromLittleEndian(LittleEndian(v, n)) == v
  {
    if n > 0 {
      assert v == (v / 256) * 256 + v % 256;
      FromToLittleEndian(v / 256, n - 1);
      assert LittleEndian(v, n)[1..] == LittleEndian(v / 256, n - 1);
    }
  }

  lemma {:induction false} ToFromLittleEndian(s: seq<byte>)
    ensures FromLittleEndian(s) < Pow(256, |s|)
    ensures LittleEndian(FromLittleEndian(s), |s|) == s
  {
    if s != [] {
      ToFromLittleEndian(s[1..]);
      MulGap(FromLittleEndian(s[1..]), Pow(256, |s| - 1), 256);
      DivMod(FromLittleEndian(s[1..]), s[0], 256);
      assert s == [s[0]] + s[1..];
    }
  }

  lemma Powers()
    ensures Pow(256, 1) == 256 && Pow(256, 2) == 0x1_0000 && Pow(256, 4) == TWO_32 && Pow(256, 8) == TWO_64
  {
    assert Pow(256, 0) == 1;
    assert Pow(256, 3) == 256 * Pow(256, 2);
    assert Pow(256, 5) == 256 * Pow(256, 4);
    assert Pow(256, 7) == 256 * Pow(256, 6);
  }

  /** How long a varint is, from its first byte. */
  function VarintLength(first: byte): (n: nat)
    ensures n == 1 || n == 3 || n == 5 || n == 9
  {
    if first < 253 then 1 else if first == 253 then 3 else if first == 254 then 5 else 9
  }

  function VarintBytes(v: uint64): (s: seq<byte>)
    ensures s != [] && |s| == VarintLength(s[0])
  {
    if v < 253 then [v]
    else if v < 0x1_0000 then [253] + LittleEndian(v, 2)
    else if v < TWO_32 then [254] + LittleEndian(v, 4)
    else [255] + LittleEndian(v, 8)
  }

  /** b starts with a whole varint. */
  predicate HasVarint(b: seq<byte>) {
    b != [] && VarintLength(b[0]) <= |b|
  }

  /** The varint at the start of b; longer forms than needed are read too. */
  function VarintValue(b: seq<byte>): (v: uint64)
    requires HasVarint(b)
  {
    if b[0] < 253 then b[0]
    else
      Powers();
      ToFromLittleEndian(b[1..VarintLength(b[0])]);
      FromLittleEndian(b[1..VarintLength(b[0])])
  }

  /** A varint that is written is read back, whatever comes after it. */
  lemma VarintRoundTrip(v: uint64, rest: seq<byte>)
    ensures var b := VarintBytes(v) + rest;
            HasVarint(b) && VarintLength(b[0]) == |VarintBytes(v)| && VarintValue(b) == v
            && b[|VarintBytes(v)|..] == rest
  {
    var s := VarintBytes(v);
    var b := s + rest;
    Powers();
    if v >= 253 {
      var n := |s| - 1;
      FromToLittleEndian(v, n);
      assert b[1..n + 1] == LittleEndian(v, n);
    }
  }

  /** Reading a varint takes no more than its own bytes. */
  lemma SameVarint(b: seq<byte>, n: nat)
    requires n <= |b| && HasVarint(b) && VarintLength(b[0]) <= n
    ensures HasVarint(b[..n]) && b[..n][0] == b[0] && VarintValue(b) == VarintValue(b[..n])
  {
    var k := VarintLength(b[0]);
    assert b[..n][1..k] == b[1..k];
  }

  /** Byte i of the little-endian form is the digit of 256^i. */
  lemma {:induction false} LittleEndianAt(v: nat, n: nat, i: nat)
    requires i < n
    ensures Pow(256, i) > 0 && LittleEndian(v, n)[i] == v / Pow(256, i) % 256
  {
    PowMonotone(256, 0, i);
    if i == 0 {
      assert Pow(256, 0) == 1;
    } else {
      LittleEndianAt(v / 256, n - 1, i - 1);
      PowMonotone(256, 0, i - 1);
      DivideTwice(v, Pow(256, i - 1));
    }
  }

  lemma DivideTwice(v: nat, b: nat)
    requires b > 0
    ensures v / 256 / b == v / (256 * b)
  {
    var q, r, m := v / 256 / b, v / 256 % b, v / 256 / b * b;
    assert v / 256 == m + r;
    Regroup(q, b);
    DivMod(q, 256 * r + v % 256, 256 * b);
  }

  lemma Regroup(q: nat, b: nat)
    ensures q * (256 * b) == 256 * (q * b)
  {
  }

  /** The four forms: a number below 253 is its own byte; others follow a byte that tells their length, 2, 4 or 8. */
  lemma VarintForm(v: uint64)
    ensures var s := VarintBytes(v);
            if v <= 0xfc then s == [v]
            else if v <= 0xffff then |s| == 3 && s[0] == 0xfd && s[1..] == LittleEndian(v, 2)
            else if v <= 0xffff_ffff then |s| == 5 && s[0] == 0xfe && s[1..] == LittleEndian(v, 4)
            else |s| == 9 && s[0] == 0xff && s[1..] == LittleEndian(v, 8)
  {
  }

  /** No bytes that are read as the number are shorter. */
  lemma VarintShortest(v: uint64, b: seq<byte>)
    requires HasVarint(b) && VarintValue(b) == v
    ensures |VarintBytes(v)| <= VarintLength(b[0])
  {
    hide LittleEndian;
    Powers();
    var t := b[1..VarintLength(b[0])];
    ToFromLittleEndian(t);
    if b[0] >= 253 {
      assert v == FromLittleEndian(t) < Pow(256, |t|);
    }
  }
}
