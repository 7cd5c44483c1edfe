/** bip32_key_from_parent with the parent as its own output, and when that still gives the child. */
module Bip32InPlace {
  import opened Common
  import opened Radix
  import opened Bip32Key
  import opened Bip32Derive

  /** The key bytes that are hashed; they are left in the private key of the output. */
  function HashedKey(k: Key, childNum: uint32): Bytes33 {
    if IsHardened(childNum) then k.privKey else k.pubKey
  }

  /** The child's key bytes from the bytes found in a private key field, whatever their first one. */
  function ChildKeysFrom(c: Curve, isPrivate: bool, priv: Bytes33, pub: Bytes33, tweak: Bytes32)
    : Option<(Bytes33, Bytes33)>
  {
    if isPrivate then
      var tweaked :- SeckeyTweakAdd(c, priv[1..], tweak);
      var tweakedPub :- PublicKeyOf(c, tweaked);
      Some(([priv[0]] + tweaked, tweakedPub))
    else
      var tweakedPub :- PublicKeyTweak(c, pub, tweak);
      Some((priv, tweakedPub))
  }

  /** The hashed key bytes stand in for the private key, and the tweak sum has been cleared when it is read. */
  function DeriveInPlace(c: Curve, k: Key, childNum: uint32, flags: KeyFlags): Option<Key> {
    if !Derivable(k, childNum, flags) then None
    else
      var i := DerivationHash(c, k, childNum);
      var tweak: Bytes32 := i[..32];
      var (priv, pub) :- ChildKeysFrom(c, IsPrivate(k), HashedKey(k, childNum), k.pubKey, tweak);
      Some(Key(i[32..], if flags.skipHash then ZERO20 else k.hash160, k.depth + 1,
               if flags.public then STRIPPED else priv, childNum,
               if flags.skipHash then ZERO20 else c.hash160(pub), VersionFor(k.version, !flags.public), pub,
               if flags.tweakSum then tweak else ZERO32))
  }

  lemma ChildKeysAre(c: Curve, k: Key, tweak: Bytes32)
    ensures ChildKeys(c, k, tweak)
         == ChildKeysFrom(c, IsPrivate(k), if IsPrivate(k) then k.privKey else k.pubKey, k.pubKey, tweak)
  {
    hide SeckeyTweakAdd, PublicKeyOf, PublicKeyTweak;
  }

  /** Different numbers below the order have different multiples of the generator. */
  lemma MulInjective(c: Curve, a: nat, b: nat)
    requires Lawful(c) && a < c.order && b < c.order && c.mul(a) == c.mul(b)
    ensures a == b
  {
    hide Lawful;
    var n := c.order;
    var d := a + (n - b);
    Multiples(c, a, n - b);
    Multiples(c, b, n - b);
    Remainder(n, 1, 0, n);
    Multiples(c, 0, 0);
    SmallMod(0, n);
    Multiples(c, d % n, 0);
    if a >= b { Remainder(d, 1, a - b, n); } else { Remainder(d, 0, d, n); }
    SmallMod(d % n, n);
  }

  /** Different private keys have different public keys after the same tweak. */
  lemma TweakInjective(c: Curve, a: Bytes32, b: Bytes32, tweak: Bytes32)
    requires Lawful(c)
    requires SeckeyTweakAdd(c, a, tweak).Some? && SeckeyTweakAdd(c, b, tweak).Some?
    requires PublicKeyOf(c, SeckeyTweakAdd(c, a, tweak).value).Some?
    requires PublicKeyOf(c, SeckeyTweakAdd(c, a, tweak).value) == PublicKeyOf(c, SeckeyTweakAdd(c, b, tweak).value)
    ensures a == b
  {
    hide Value, BytesOf, Lawful;
    var n, x, y, t := c.order, Value(a, 256), Value(b, 256), Value(tweak, 256);
    TweakedPublic(c, a, tweak);
    TweakedPublic(c, b, tweak);
    MulInjective(c, (x + t) % n, (y + t) % n);
    SumRest(t, x, n);
    SumRest(t, y, n);
    SmallMod(t, n);
    BytesOfValue(a);
    BytesOfValue(b);
  }

  lemma TweakedPublic(c: Curve, key: Bytes32, tweak: Bytes32)
    requires Lawful(c) && SeckeyTweakAdd(c, key, tweak).Some?
    ensures var v := (Value(key, 256) + Value(tweak, 256)) % c.order;
            && v < c.order
            && PublicKeyOf(c, SeckeyTweakAdd(c, key, tweak).value) == Some(c.encode(c.mul(v)))
            && c.decode(c.encode(c.mul(v))) == Some(c.mul(v))
  {
    hide Value, BytesOf, Pow, IsGroup;
    var v := (Value(key, 256) + Value(tweak, 256)) % c.order;
    ScalarValue(c, v);
    SmallMod(v, c.order);
  }

  /** A sum that is not zero moves the tweak added to it. */
  lemma SumMovesTweak(c: Curve, sum: Bytes32, tweak: Bytes32)
    requires Lawful(c) && Value(tweak, 256) < c.order
    ensures TweakSumAdd(c, sum, tweak) == Some(tweak) <==> sum == ZERO32
  {
    hide Value, BytesOf, HasMultiples, IsGroup, IsEncoded, Pow;
    ZeroBytes(sum);
    if sum != ZERO32 && TweakSumAdd(c, sum, tweak) == Some(tweak) {
      NextSum(c, sum, tweak);
      SumRest(Value(tweak, 256), Value(sum, 256), c.order);
      SmallMod(Value(tweak, 256), c.order);
    }
  }

  /** What has to hold for the keys to come out right. */
  predicate KeysUntouched(k: Key, childNum: uint32, flags: KeyFlags) {
    IsPrivate(k) && !IsHardened(childNum) ==>
      k.pubKey[1..] == k.privKey[1..] && (flags.public || k.pubKey[0] == KEY_PRIVATE)
  }

  lemma KeysInPlace(c: Curve, k: Key, childNum: uint32, flags: KeyFlags)
    requires Lawful(c) && Derivable(k, childNum, flags)
    requires ChildKeys(c, k, DerivationHash(c, k, childNum)[..32]).Some?
    ensures var tweak := DerivationHash(c, k, childNum)[..32];
            var x, y := ChildKeys(c, k, tweak),
                ChildKeysFrom(c, IsPrivate(k), HashedKey(k, childNum), k.pubKey, tweak);
            y.Some? && x.value.1 == y.value.1 && (flags.public || x.value.0 == y.value.0)
            <==> KeysUntouched(k, childNum, flags)
  {
    hide DerivationHash, SeckeyTweakAdd, PublicKeyOf, PublicKeyTweak, Lawful;
    var tweak := DerivationHash(c, k, childNum)[..32];
    ChildKeysAre(c, k, tweak);
    if IsPrivate(k) && !IsHardened(childNum) {
      var y := ChildKeysFrom(c, true, k.pubKey, k.pubKey, tweak);
      if y.Some? && ChildKeys(c, k, tweak).value.1 == y.value.1 {
        TweakInjective(c, k.privKey[1..], k.pubKey[1..], tweak);
        assert ChildKeys(c, k, tweak).value.0[0] == k.privKey[0] && y.value.0[0] == k.pubKey[0];
      }
    }
  }

  /**
   Deriving a child into its parent gives the child that there is if and only if the parent's tweak sum is not asked
   for or zero, and a private parent's child is hardened; an unhardened one is made from the x coordinate of the
   public key in place of the private key, and is right only where the two are equal.
   */
  lemma InPlaceIff(c: Curve, k: Key, childNum: uint32, flags: KeyFlags)
    requires Lawful(c) && Derive(c, k, childNum, flags).Some?
    ensures DeriveInPlace(c, k, childNum, flags) == Derive(c, k, childNum, flags)
       <==> KeysUntouched(k, childNum, flags) && (flags.tweakSum ==> k.tweakSum == ZERO32)
  {
    hide DerivationHash, ChildKeys, ChildKeysFrom, TweakSumAdd, Lawful, KeysUntouched, Value;
    KeysInPlace(c, k, childNum, flags);
    if flags.tweakSum {
      TweakInOrder(c, k, DerivationHash(c, k, childNum)[..32]);
      SumMovesTweak(c, k.tweakSum, DerivationHash(c, k, childNum)[..32]);
    }
  }

  lemma TweakInOrder(c: Curve, k: Key, tweak: Bytes32)
    requires Lawful(c) && ChildKeys(c, k, tweak).Some?
    ensures Value(tweak, 256) < c.order
  {
    hide Value, Lawful;
  }

  /** Two numbers in bytes, added. */
  function Added(c: Curve, a: Bytes32, b: Bytes32): nat {
    if c.order == 0 then 0 else (Value(a, 256) + Value(b, 256)) % c.order
  }

  lemma TweakedScalar(c: Curve, key: Bytes32, tweak: Bytes32)
    requires Lawful(c) && SeckeyTweakAdd(c, key, tweak).Some?
    ensures Value(SeckeyTweakAdd(c, key, tweak).value, 256) == Added(c, key, tweak)
  {
    hide Value, BytesOf, HasMultiples, IsGroup, IsEncoded, Pow;
    ScalarValue(c, Added(c, key, tweak));
  }

  lemma TweakedKey(c: Curve, key: Bytes32, tweak: Bytes32)
    requires Lawful(c) && SeckeyTweakAdd(c, key, tweak).Some?
    ensures PublicKeyOf(c, SeckeyTweakAdd(c, key, tweak).value) == Some(c.encode(c.mul(Added(c, key, tweak))))
  {
    hide Value, SeckeyTweakAdd, PublicKeyOf, HasMultiples, IsGroup, IsEncoded, Pow;
    TweakedPublic(c, key, tweak);
  }

  /** The keys of a tweaked number, behind the first byte found in the private key field. */
  ghost predicate AreTweaked(c: Curve, first: byte, key: Bytes32, tweak: Bytes32, x: Bytes33, y: Bytes33) {
    y == c.encode(c.mul(Added(c, key, tweak))) && x[0] == first && Value(x[1..], 256) == Added(c, key, tweak)
  }

  /** The keys from the bytes in a private key field. */
  lemma KeysFrom(c: Curve, priv: Bytes33, key: Bytes32, pub: Bytes33, tweak: Bytes32, x: Bytes33, y: Bytes33)
    requires key == priv[1..] && ChildKeysFrom(c, true, priv, pub, tweak) == Some((x, y))
    requires Lawful(c)
    ensures AreTweaked(c, priv[0], key, tweak, x, y)
  {
    hide Value, Lawful, SeckeyTweakAdd, PublicKeyOf, Added;
    TweakedScalar(c, key, tweak);
    TweakedKey(c, key, tweak);
    assert x[1..] == SeckeyTweakAdd(c, key, tweak).value;
  }

  /** What deriving in place makes of the keys and the tweak sum of a private parent, whether or not it is the child. */
  lemma InPlaceMeans(c: Curve, k: Key, childNum: uint32, flags: KeyFlags, x: Key)
    requires DeriveInPlace(c, k, childNum, flags) == Some(x) && IsPrivate(k)
    requires Lawful(c)
    ensures var i, from := DerivationHash(c, k, childNum), if childNum < 0x8000_0000 then k.pubKey else k.privKey;
            var v := Added(c, from[1..], i[..32]);
            && x.chainCode == i[32..] && x.tweakSum == (if flags.tweakSum then i[..32] else Repeat(0, 32))
            && x.pubKey == c.encode(c.mul(v))
            && (flags.public || (x.privKey[0] == from[0] && Value(x.privKey[1..], 256) == v))
  {
    hide DerivationHash, Value, Lawful, ChildKeysFrom, Added;
    var i, from := DerivationHash(c, k, childNum), if childNum < 0x8000_0000 then k.pubKey else k.privKey;
    var keys := ChildKeysFrom(c, true, from, k.pubKey, i[..32]).value;
    KeysFrom(c, from, from[1..], k.pubKey, i[..32], keys.0, keys.1);
  }
}
