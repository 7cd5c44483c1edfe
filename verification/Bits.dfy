/** Byte strings as bit strings, most significant bit first, and numbers packed into them. */
module Bits {
  import opened Common
  import opened Radix

  /** The bit k places from the left of a byte. */
  function Mask(k: nat): bv8
    requires k < 8
  {
    match k
    case 0 => 0x80
    case 1 => 0x40
    case 2 => 0x20
    case 3 => 0x10
    case 4 => 0x08
    case 5 => 0x04
    case 6 => 0x02
    case 7 => 0x01
  }

  predicate Bit(b: bv8, k: nat)
    requires k < 8
  {
    b & Mask(k) != 0
  }

  lemma SetBit(b: bv8, k: nat, j: nat)
    requires k < 8 && j < 8
    ensures Bit(b | Mask(k), j) <==> j == k || Bit(b, j)
  {
  }

  lemma SameBits(a: bv8, b: bv8)
    requires forall k :: 0 <= k < 8 ==> Bit(a, k) == Bit(b, k)
    ensures a == b
  {
    assert Bit(a, 0) == Bit(b, 0) && Bit(a, 1) == Bit(b, 1) && Bit(a, 2) == Bit(b, 2) && Bit(a, 3) == Bit(b, 3);
    assert Bit(a, 4) == Bit(b, 4) && Bit(a, 5) == Bit(b, 5) && Bit(a, 6) == Bit(b, 6) && Bit(a, 7) == Bit(b, 7);
  }

  function BitsOf(bytes: seq<bv8>): (s: seq<bool>)
    ensures |s| == 8 * |bytes|
    ensures forall i :: 0 <= i < |s| ==> s[i] == Bit(bytes[i / 8], i % 8)
  {
    seq(8 * |bytes|, i requires 0 <= i < 8 * |bytes| => Bit(bytes[i / 8], i % 8))
  }

  lemma BitsOfConcat(a: seq<bv8>, b: seq<bv8>)
    ensures BitsOf(a + b) == BitsOf(a) + BitsOf(b)
  {
    hide Bit;
    forall i | 0 <= i < 8 * |a + b|
      ensures BitsOf(a + b)[i] == (BitsOf(a) + BitsOf(b))[i]
    {
      if i >= 8 * |a| {
        assert (i - 8 * |a|) / 8 == i / 8 - |a| && (i - 8 * |a|) % 8 == i % 8;
      }
    }
  }

  lemma BitsOfInjective(a: seq<bv8>, b: seq<bv8>)
    requires BitsOf(a) == BitsOf(b)
    ensures a == b
  {
    assert 8 * |a| == |BitsOf(a)| == |BitsOf(b)| == 8 * |b|;
    forall i | 0 <= i < |a|
      ensures a[i] == b[i]
    {
      forall k | 0 <= k < 8
        ensures Bit(a[i], k) == Bit(b[i], k)
      {
        assert (8 * i + k) / 8 == i && (8 * i + k) % 8 == k;
        assert BitsOf(a)[8 * i + k] == BitsOf(b)[8 * i + k];
      }
      SameBits(a[i], b[i]);
    }
  }

  function ByteOf(s: seq<bool>): bv8
    requires |s| == 8
  {
    (if s[0] then 0x80 else 0) | (if s[1] then 0x40 else 0) | (if s[2] then 0x20 else 0) | (if s[3] then 0x10 else 0)
    | (if s[4] then 0x08 else 0) | (if s[5] then 0x04 else 0) | (if s[6] then 0x02 else 0) | (if s[7] then 0x01 else 0)
  }

  lemma BitOfByte(s: seq<bool>, k: nat)
    requires |s| == 8 && k < 8
    ensures Bit(ByteOf(s), k) == s[k]
  {
  }

  /** The bytes that a bit string of whole bytes stands for. */
  function Pack(s: seq<bool>): (b: seq<bv8>)
    requires |s| % 8 == 0
    ensures 8 * |b| == |s|
  {
    if s == [] then [] else [ByteOf(s[..8])] + Pack(s[8..])
  }

  lemma BitsOfByte(s: seq<bool>)
    requires |s| == 8
    ensures BitsOf([ByteOf(s)]) == s
  {
    hide ByteOf, Bit;
    forall k | 0 <= k < 8
      ensures BitsOf([ByteOf(s)])[k] == s[k]
    {
      BitOfByte(s, k);
    }
  }

  lemma {:induction false} BitsOfPack(s: seq<bool>)
    requires |s| % 8 == 0
    ensures BitsOf(Pack(s)) == s
  {
    hide ByteOf, Bit, BitsOf;
    if s != [] {
      BitsOfPack(s[8..]);
      BitsOfConcat([ByteOf(s[..8])], Pack(s[8..]));
      BitsOfByte(s[..8]);
      assert s == s[..8] + s[8..];
    } else {
      assert BitsOf([]) == [];
    }
  }

  lemma BitsOfPrefix(b: seq<bv8>, n: nat)
    requires n <= |b|
    ensures BitsOf(b[..n]) == BitsOf(b)[..8 * n]
  {
  }

  /** Setting one bit of one byte. */
  lemma SetBitAt(b: seq<bv8>, pos: nat)
    requires pos < 8 * |b|
    ensures BitsOf(b[pos / 8 := b[pos / 8] | Mask(pos % 8)]) == BitsOf(b)[pos := true]
  {
    var c := b[pos / 8 := b[pos / 8] | Mask(pos % 8)];
    forall i | 0 <= i < 8 * |b|
      ensures BitsOf(c)[i] == BitsOf(b)[pos := true][i]
    {
      SetBit(b[pos / 8], pos % 8, i % 8);
    }
  }

  function FromBits(s: seq<bool>): nat {
    if s == [] then 0 else 2 * FromBits(s[..|s| - 1]) + if s[|s| - 1] then 1 else 0
  }

  /** The lowest n bits of v. */
  function ToBits(v: nat, n: nat): (s: seq<bool>)
    ensures |s| == n
  {
    if n == 0 then [] else ToBits(v / 2, n - 1) + [v % 2 == 1]
  }

  lemma {:induction false} FromToBits(v: nat, n: nat)
    requires v < Pow(2, n)
    ensures FromBits(ToBits(v, n)) == v
  {
    if n > 0 {
      FromToBits(v / 2, n - 1);
      assert ToBits(v, n)[..n - 1] == ToBits(v / 2, n - 1);
    }
  }

  lemma {:induction false} ToFromBits(s: seq<bool>)
    ensures FromBits(s) < Pow(2, |s|) && ToBits(FromBits(s), |s|) == s
  {
    if s != [] {
      var q := s[..|s| - 1];
      ToFromBits(q);
      assert FromBits(s) / 2 == FromBits(q);
      assert s == q + [s[|s| - 1]];
    }
  }

  /** What masking v with 1 << k tests. */
  predicate BitSet(v: nat, k: nat) {
    PowMonotone(2, 0, k);
    (v / Pow(2, k)) % 2 == 1
  }

  /** Bit i of the n lowest bits of v. */
  lemma {:induction false} BitOfNumber(v: nat, n: nat, i: nat)
    requires i < n
    ensures ToBits(v, n)[i] == BitSet(v, n - i - 1)
  {
    PowMonotone(2, 0, n - i - 1);
    if i == n - 1 {
      assert Pow(2, 0) == 1;
    } else {
      BitOfNumber(v / 2, n - 1, i);
      DivTwice(v, Pow(2, n - i - 2));
    }
  }

  lemma DivTwice(v: nat, p: nat)
    requires p > 0
    ensures 2 * p > 0 && (v / 2) / p == v / (2 * p)
  {
    var q, r := (v / 2) / p, (v / 2) % p;
    assert v / 2 == q * p + r;
    var d := 2 * r + v % 2;
    assert v == q * (2 * p) + d by {
      assert v == 2 * (q * p + r) + v % 2;
      assert 2 * (q * p) == q * (2 * p);
    }
    DivMod(q, d, 2 * p);
  }

  /** Numbers of n bits each, one after the other. */
  function Spread(idx: seq<nat>, n: nat): seq<bool> {
    if idx == [] then [] else ToBits(idx[0], n) + Spread(idx[1..], n)
  }

  /** The groups of n bits of a bit string, as numbers; a shorter last group is dropped. */
  function Group(s: seq<bool>, n: nat): seq<nat>
    requires n > 0
    decreases |s|
  {
    if |s| < n then [] else [FromBits(s[..n])] + Group(s[n..], n)
  }

  lemma {:induction false} SpreadLength(idx: seq<nat>, n: nat)
    ensures |Spread(idx, n)| == |idx| * n
  {
    if idx != [] {
      SpreadLength(idx[1..], n);
      assert |idx| * n == (|idx| - 1) * n + n;
    }
  }

  lemma {:induction false} SpreadSnoc(idx: seq<nat>, v: nat, n: nat)
    ensures Spread(idx + [v], n) == Spread(idx, n) + ToBits(v, n)
  {
    if idx == [] {
      assert idx + [v] == [v] && [v][1..] == [];
      assert Spread([], n) == [];
    } else {
      assert (idx + [v])[1..] == idx[1..] + [v];
      SpreadSnoc(idx[1..], v, n);
    }
  }

  lemma GroupConcat(first: seq<bool>, rest: seq<bool>, n: nat)
    requires |first| == n > 0
    ensures Group(first + rest, n) == [FromBits(first)] + Group(rest, n)
  {
    hide FromBits;
    assert (first + rest)[..n] == first && (first + rest)[n..] == rest;
  }

  /** Grouping undoes spreading; bits short of a group at the end do not count. */
  lemma {:induction false} GroupSpread(idx: seq<nat>, tail: seq<bool>, n: nat)
    requires n > 0 && |tail| < n && forall i :: 0 <= i < |idx| ==> idx[i] < Pow(2, n)
    ensures Group(Spread(idx, n) + tail, n) == idx
  {
    if idx != [] {
      hide Group, ToBits, FromBits, Pow;
      var first, rest := ToBits(idx[0], n), Spread(idx[1..], n) + tail;
      assert Spread(idx, n) + tail == first + rest;
      FromToBits(idx[0], n);
      GroupSpread(idx[1..], tail, n);
      GroupConcat(first, rest, n);
    } else {
      assert [] + tail == tail;
    }
  }

  /** A string of whole groups is the spread of its groups. */
  lemma {:induction false} SpreadGroup(s: seq<bool>, n: nat, k: nat)
    requires n > 0 && |s| == k * n
    ensures |Group(s, n)| == k && Spread(Group(s, n), n) == s
    ensures forall i :: 0 <= i < k ==> Group(s, n)[i] < Pow(2, n)
    decreases k
  {
    if k > 0 {
      assert k * n == (k - 1) * n + n;
      MulGap(0, k, n);
      SpreadGroup(s[n..], n, k - 1);
      ToFromBits(s[..n]);
      assert Group(s, n)[1..] == Group(s[n..], n);
      assert s == s[..n] + s[n..];
    }
  }

  lemma TailSlice(s: seq<bool>, n: nat, from: nat, to: nat)
    requires from <= to && n + to <= |s|
    ensures s[n..][from..to] == s[n + from..n + to]
  {
  }

  /** Group i is the number in bits i n to (i + 1) n. */
  lemma {:induction false} GroupAt(s: seq<bool>, n: nat, i: nat)
    requires n > 0 && (i + 1) * n <= |s|
    ensures i < |Group(s, n)| && i * n <= (i + 1) * n && Group(s, n)[i] == FromBits(s[i * n..(i + 1) * n])
    decreases i
  {
    assert (i + 1) * n == i * n + n;
    if i == 0 {
      assert s[0..n] == s[..n];
    } else {
      assert i * n == (i - 1) * n + n;
      GroupAt(s[n..], n, i - 1);
      TailSlice(s, n, (i - 1) * n, i * n);
    }
  }

  lemma OneMore(k: nat, n: nat)
    requires n > 0
    ensures (k + n) / n == k / n + 1
  {
    var q, r := k / n, k % n;
    assert k + n == (q + 1) * n + r;
    DivMod(q + 1, r, n);
  }

  lemma {:induction false} GroupLength(s: seq<bool>, n: nat)
    requires n > 0
    ensures |Group(s, n)| == |s| / n
    decreases |s|
  {
    hide FromBits;
    if |s| >= n {
      GroupLength(s[n..], n);
      OneMore(|s| - n, n);
    } else {
      DivMod(0, |s|, n);
    }
  }
}
