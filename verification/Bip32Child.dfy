/** What a child of an extended key consists of, and when there is one (section "Child key derivation" of BIP 32). */
module Bip32Child {
  import opened Common
  import opened Radix
  import opened Bip32Key
  import opened Bip32Derive

  /** The message hashed for a child: a key of 33 bytes, then the child number in four, most significant first. */
  ghost predicate IsMessage(k: Key, childNum: uint32, d: seq<byte>) {
    && |d| == 37 && d[..33] == (if childNum >= 0x8000_0000 then k.privKey else k.pubKey)
    && Value(d[33..], 256) == childNum
  }

  lemma NumberBytes(childNum: uint32)
    ensures Value(BytesOf(childNum, 4), 256) == childNum
  {
    assert Pow(256, 0) == 1 && Pow(256, 2) == 65536;
    ValueOfBytes(childNum, 4);
  }

  /** There is one such message, and its hash is the one used. */
  lemma MessageHash(c: Curve, k: Key, childNum: uint32, d: seq<byte>)
    requires IsMessage(k, childNum, d)
    ensures DerivationHash(c, k, childNum) == c.hmac(k.chainCode, d)
  {
    hide BytesOf, Value;
    NumberBytes(childNum);
    BytesOfValue(d[33..]);
    assert d == d[..33] + d[33..];
  }

  lemma MessageExists(k: Key, childNum: uint32) returns (d: seq<byte>)
    ensures IsMessage(k, childNum, d)
  {
    hide BytesOf, Value;
    NumberBytes(childNum);
    d := (if childNum >= 0x8000_0000 then k.privKey else k.pubKey) + BytesOf(childNum, 4);
    assert d[33..] == BytesOf(childNum, 4);
  }

  /** The private scalar and the point of a key, moved by the same number. */
  ghost predicate Moved(c: Curve, k: Key, x: Key, t: nat, public: bool) {
    && t < c.order && c.decode(k.pubKey).Some?
    && c.decode(x.pubKey) == Some(c.add(c.decode(k.pubKey).value, c.mul(t)))
    && if public then x.privKey == [1] + Repeat(0, 32)
       else x.privKey[0] == 0 && Value(x.privKey[1..], 256) == (Value(k.privKey[1..], 256) + t) % c.order
  }

  lemma ChildMoved(c: Curve, k: Key, childNum: uint32, flags: KeyFlags)
    requires Lawful(c) && Consistent(c, k) && Derive(c, k, childNum, flags).Some?
    ensures Moved(c, k, Derive(c, k, childNum, flags).value, Value(DerivationHash(c, k, childNum)[..32], 256),
                  flags.public)
  {
    hide DerivationHash, Value, BytesOf, Pow, PublicKeyTweak, HasMultiples, IsGroup, IsEncoded;
    var tweak: Bytes32 := DerivationHash(c, k, childNum)[..32];
    ChildIsTweaked(c, k, childNum, flags);
    TweakedPoint(c, k.pubKey, tweak);
    if !flags.public { ScalarValue(c, (Value(k.privKey[1..], 256) + Value(tweak, 256)) % c.order); }
  }

  /** The fields that do not depend on the hash. */
  ghost predicate Labelled(c: Curve, k: Key, x: Key, childNum: uint32, flags: KeyFlags) {
    && x.depth == k.depth + 1 && x.childNum == childNum
    && x.parent160 == (if flags.skipHash then Repeat(0, 20) else k.hash160)
    && x.hash160 == (if flags.skipHash then Repeat(0, 20) else c.hash160(x.pubKey))
    && x.version == (if k.version == 0x0488ADE4 || k.version == 0x0488B21E
                     then (if flags.public then 0x0488B21E else 0x0488ADE4)
                     else if flags.public then 0x043587CF else 0x04358394)
  }

  /**
   A child's scalar or point is its parent's moved by the left half of the HMAC, under the parent's chain code, of the
   parent's private or public key and the child number; the right half is its chain code. Its tweak sum is the parent's
   and that number together, or none. Depth, number, hashes and version are those asked for.
   */
  lemma ChildMeans(c: Curve, k: Key, childNum: uint32, flags: KeyFlags, d: seq<byte>)
    requires Lawful(c) && Consistent(c, k) && Derive(c, k, childNum, flags).Some? && IsMessage(k, childNum, d)
    ensures var x, i := Derive(c, k, childNum, flags).value, c.hmac(k.chainCode, d);
            var t := Value(i[..32], 256);
            && x.chainCode == i[32..] && Moved(c, k, x, t, flags.public) && Labelled(c, k, x, childNum, flags)
            && if flags.tweakSum then Value(x.tweakSum, 256) == (Value(k.tweakSum, 256) + t) % c.order
               else x.tweakSum == Repeat(0, 32)
  {
    hide DerivationHash, ChildKeys, Value, TweakSumAdd, Lawful;
    MessageHash(c, k, childNum, d);
    ChildMoved(c, k, childNum, flags);
    if flags.tweakSum { NextSum(c, k.tweakSum, c.hmac(k.chainCode, d)[..32]); }
  }

  /**
   When there is a child: the flags are defined, the parent is private or a public child without its private key is
   asked for, the depth is below 255, the number hashed is below the order, the point it moves to is finite, and so is
   a tweak sum asked for.
   */
  lemma ChildExists(c: Curve, k: Key, childNum: uint32, flags: KeyFlags, d: seq<byte>)
    requires Lawful(c) && Consistent(c, k) && IsMessage(k, childNum, d)
    ensures var t, s := Value(c.hmac(k.chainCode, d)[..32], 256), Value(k.tweakSum, 256);
            Derive(c, k, childNum, flags).Some? <==>
            && !flags.undefined && (k.privKey[0] == 0 || (flags.public && childNum < 0x8000_0000)) && k.depth < 255
            && t < c.order && c.add(c.decode(k.pubKey).value, c.mul(t)) != Infinity
            && (flags.tweakSum ==> s == 0 || (s < c.order && (s + t) % c.order != 0))
  {
    hide DerivationHash, Value, BytesOf, Lawful, PublicKeyTweak, SeckeyTweakAdd;
    MessageHash(c, k, childNum, d);
    var tweak: Bytes32 := c.hmac(k.chainCode, d)[..32];
    if IsPrivate(k) { TweaksAgree(c, k.privKey[1..], k.pubKey, tweak); }
    PublicTweakable(c, k.pubKey, tweak);
    ZeroBytes(k.tweakSum);
    SecretTweakable(c, k.tweakSum, tweak);
  }

  lemma PublicTweakable(c: Curve, pub: Bytes33, tweak: Bytes32)
    requires c.decode(pub).Some?
    ensures var t := Value(tweak, 256);
            PublicKeyTweak(c, pub, tweak).Some? <==>
            t < c.order && c.add(c.decode(pub).value, c.mul(t)) != Infinity
  {
    hide Value;
  }

  lemma SecretTweakable(c: Curve, key: Bytes32, tweak: Bytes32)
    requires Lawful(c)
    ensures var k, t := Value(key, 256), Value(tweak, 256);
            SeckeyTweakAdd(c, key, tweak).Some? <==>
            k != 0 && k < c.order && t < c.order && (k + t) % c.order != 0
  {
    hide Value, BytesOf, HasMultiples, IsGroup, IsEncoded, Pow;
  }

  /** No path of no elements is derived, none of more than 255, and none with undefined flags. */
  lemma PathLimits(c: Curve, k: Key, path: seq<uint32>, flags: KeyFlags)
    ensures path == [] || |path| > 255 || flags.undefined ==> DerivePath(c, k, path, flags) == None
  {
  }

  /** A path of one element is a child. */
  lemma PathOfOne(c: Curve, k: Key, childNum: uint32, flags: KeyFlags)
    requires IsPrivate(k) || childNum < 0x8000_0000
    ensures DerivePath(c, k, [childNum], flags) == Derive(c, k, childNum, flags)
  {
    hide Derive, DerivationHash;
    var path := [childNum];
    if flags.undefined {
      NoChild(c, k, childNum, flags);
    } else {
      var until := UntilFor(path, flags);
      assert StepFlags(flags, 0, 1, until) == flags;
      var x := Derive(c, k, childNum, flags);
      if x.Some? { assert PathFrom(c, x.value, path, 1, until, flags) == x; }
    }
  }

  lemma NoChild(c: Curve, k: Key, childNum: uint32, flags: KeyFlags)
    requires flags.undefined
    ensures Derive(c, k, childNum, flags) == None
  {
  }

  /**
   Children of different numbers, both hardened or both not, have different chain codes, if the HMAC under the parent's
   chain code has different right halves for messages that differ only behind the key.
   */
  lemma NumbersTellApart(c: Curve, k: Key, m: uint32, n: uint32, flags: KeyFlags)
    requires Lawful(c) && Consistent(c, k) && Derive(c, k, m, flags).Some? && Derive(c, k, n, flags).Some?
    requires m != n && (m >= 0x8000_0000 <==> n >= 0x8000_0000)
    requires forall a, b :: |a| == |b| == 37 && a[..33] == b[..33] && a != b ==>
               c.hmac(k.chainCode, a)[32..] != c.hmac(k.chainCode, b)[32..]
    ensures Derive(c, k, m, flags).value.chainCode != Derive(c, k, n, flags).value.chainCode
  {
    hide Derive, Value, Lawful, Consistent, Moved, Labelled;
    var a := MessageExists(k, m);
    var b := MessageExists(k, n);
    assert a[33..] != b[33..];
    ChildMeans(c, k, m, flags, a);
    ChildMeans(c, k, n, flags, b);
  }

  /** A wiped key has nothing but zeros. */
  lemma WipedIsZero()
    ensures WIPED == Key(Repeat(0, 32), Repeat(0, 20), 0, Repeat(0, 33), 0, Repeat(0, 20), 0, Repeat(0, 33),
                         Repeat(0, 32))
  {
  }
}
