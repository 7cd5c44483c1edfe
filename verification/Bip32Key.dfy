/**
 Extended keys and child derivation of src/bip32.c as functions, over an abstract curve
 and abstract hashes.
 */
module Bip32Key {
  import opened Common
  import opened Radix

  const HARDENED: nat := 0x8000_0000
  const PATH_MAX_LEN: nat := 255

  const VER_MAIN_PUBLIC: uint32 := 0x0488B21E
  const VER_MAIN_PRIVATE: uint32 := 0x0488ADE4
  const VER_TEST_PUBLIC: uint32 := 0x043587CF
  const VER_TEST_PRIVATE: uint32 := 0x04358394

  const KEY_PRIVATE: byte := 0
  const KEY_PUBLIC: byte := 1

  type Bytes20 = s: seq<byte> | |s| == 20 witness Repeat(0, 20)
  type Bytes32 = s: seq<byte> | |s| == 32 witness Repeat(0, 32)
  type Bytes33 = s: seq<byte> | |s| == 33 witness Repeat(0, 33)
  type Bytes64 = s: seq<byte> | |s| == 64 witness Repeat(0, 64)

  // ---------------------------------------------------------------- the curve

  datatype Point = Infinity | Affine(x: nat, y: nat)

  /** Curve membership, addition, multiples of the generator, compressed encoding, HMAC-SHA512 and HASH160. */
  datatype Curve = Curve(order: nat, onCurve: Point -> bool, add: (Point, Point) -> Point, mul: nat -> Point,
                         encode: Point -> Bytes33, decode: Bytes33 -> Option<Point>,
                         hmac: (seq<byte>, seq<byte>) -> Bytes64, hash160: seq<byte> -> Bytes20)

  /** The laws secp256k1 satisfies: its points form a group, and encoding a finite point loses nothing. */
  ghost predicate Lawful(c: Curve) {
    1 < c.order < Pow(256, 32) && HasMultiples(c) && IsGroup(c) && IsEncoded(c)
  }

  /** The multiples of the generator form a cyclic group. */
  ghost predicate HasMultiples(c: Curve)
    requires c.order > 0
  {
    && (forall a: nat :: c.onCurve(c.mul(a)) && (c.mul(a) == Infinity <==> a % c.order == 0))
    && (forall a: nat, b: nat {:trigger c.add(c.mul(a), c.mul(b))} ::
          c.add(c.mul(a), c.mul(b)) == c.mul((a + b) % c.order))
  }

  ghost predicate IsEncoded(c: Curve) {
    && (forall p: Point :: c.onCurve(p) && p != Infinity ==> c.decode(c.encode(p)) == Some(p))
    && (forall b: Bytes33 :: c.decode(b).Some? ==>
          c.onCurve(c.decode(b).value) && c.decode(b).value != Infinity && c.encode(c.decode(b).value) == b)
  }

  ghost predicate IsGroup(c: Curve) {
    && (forall p, q :: c.onCurve(p) && c.onCurve(q) ==> c.onCurve(c.add(p, q)))
    && (forall p :: c.onCurve(p) ==> c.add(p, Infinity) == p)
    && (forall p, q, r :: c.onCurve(p) && c.onCurve(q) && c.onCurve(r) ==>
          c.add(c.add(p, q), r) == c.add(p, c.add(q, r)))
  }

  /** v as n big-endian bytes. */
  function BytesOf(v: nat, n: nat): (s: seq<byte>)
    ensures |s| == n
  {
    if n == 0 then [] else BytesOf(v / 256, n - 1) + [v % 256]
  }

  lemma {:induction false} ValueOfBytes(v: nat, n: nat)
    requires v < Pow(256, n)
    ensures Value(BytesOf(v, n), 256) == v
  {
    if n > 0 {
      var q, r := v / 256, v % 256;
      assert v == q * 256 + r;
      ValueOfBytes(q, n - 1);
      AppendDigit(BytesOf(q, n - 1), r, 256);
    }
  }

  lemma {:induction false} BytesOfValue(s: seq<byte>)
    ensures BytesOf(Value(s, 256), |s|) == s
  {
    if s != [] {
      var q := s[..|s| - 1];
      BytesOfValue(q);
      DivMod(Value(q, 256), s[|s| - 1], 256);
    }
  }

  /** Private key arithmetic: fails for an invalid key, a tweak of at least the order, or a zero sum. */
  function SeckeyTweakAdd(c: Curve, key: Bytes32, tweak: Bytes32): Option<Bytes32> {
    var k, t := Value(key, 256), Value(tweak, 256);
    if c.order == 0 || k == 0 || k >= c.order || t >= c.order || (k + t) % c.order == 0 then None
    else Some(BytesOf((k + t) % c.order, 32))
  }

  function PublicKeyOf(c: Curve, key: Bytes32): Option<Bytes33> {
    var k := Value(key, 256);
    if k == 0 || k >= c.order then None else Some(c.encode(c.mul(k)))
  }

  /** Public key arithmetic: fails for an invalid key, a tweak of at least the order, or a sum at infinity. */
  function PublicKeyTweak(c: Curve, key: Bytes33, tweak: Bytes32): Option<Bytes33> {
    var p :- c.decode(key);
    var t := Value(tweak, 256);
    var q := c.add(p, c.mul(t));
    if t >= c.order || q == Infinity then None else Some(c.encode(q))
  }

  // ---------------------------------------------------------------- keys

  datatype Key = Key(chainCode: Bytes32, parent160: Bytes20, depth: byte, privKey: Bytes33, childNum: uint32,
                     hash160: Bytes20, version: uint32, pubKey: Bytes33, tweakSum: Bytes32)

  datatype KeyFlags = KeyFlags(public: bool, skipHash: bool, tweakSum: bool, undefined: bool)

  const ZERO20: Bytes20 := Repeat(0, 20)
  const ZERO32: Bytes32 := Repeat(0, 32)
  const WIPED := Key(ZERO32, ZERO20, 0, Repeat(0, 33), 0, ZERO20, 0, Repeat(0, 33), ZERO32)

  predicate IsHardened(childNum: uint32) {
    childNum >= HARDENED
  }

  predicate IsPrivate(k: Key) {
    k.privKey[0] == KEY_PRIVATE
  }

  predicate IsMainnet(version: uint32) {
    version == VER_MAIN_PRIVATE || version == VER_MAIN_PUBLIC
  }

  function VersionFor(parent: uint32, private: bool): uint32 {
    if private then (if IsMainnet(parent) then VER_MAIN_PRIVATE else VER_TEST_PRIVATE)
    else (if IsMainnet(parent) then VER_MAIN_PUBLIC else VER_TEST_PUBLIC)
  }

  const STRIPPED: Bytes33 := [KEY_PUBLIC] + ZERO32

  /** A tweak sum of all zero bytes is replaced; any other is added to. */
  function TweakSumAdd(c: Curve, sum: Bytes32, tweak: Bytes32): Option<Bytes32> {
    if sum != ZERO32 then SeckeyTweakAdd(c, sum, tweak) else Some(tweak)
  }

  /** The HMAC of the parent's chain code over its key and the child number. */
  function DerivationHash(c: Curve, k: Key, childNum: uint32): Bytes64 {
    c.hmac(k.chainCode, (if IsHardened(childNum) then k.privKey else k.pubKey) + BytesOf(childNum, 4))
  }

  /** The child's private (or scratch) and public key bytes. */
  function ChildKeys(c: Curve, k: Key, tweak: Bytes32): Option<(Bytes33, Bytes33)> {
    if IsPrivate(k) then
      var priv :- SeckeyTweakAdd(c, k.privKey[1..], tweak);
      var pub :- PublicKeyOf(c, priv);
      Some(([KEY_PRIVATE] + priv, pub))
    else
      var pub :- PublicKeyTweak(c, k.pubKey, tweak);
      Some((k.pubKey, pub))
  }

  predicate Derivable(k: Key, childNum: uint32, flags: KeyFlags) {
    && !flags.undefined
    && (IsPrivate(k) || (flags.public && !IsHardened(childNum)))
    && k.depth < 0xff
  }

  /** bip32_key_from_parent on values. */
  function Derive(c: Curve, k: Key, childNum: uint32, flags: KeyFlags): Option<Key> {
    if !Derivable(k, childNum, flags) then None
    else
      var i := DerivationHash(c, k, childNum);
      var tweak: Bytes32 := i[..32];
      var (priv, pub) :- ChildKeys(c, k, tweak);
      var sum :- if flags.tweakSum then TweakSumAdd(c, k.tweakSum, tweak) else Some(ZERO32);
      Some(Key(i[32..], if flags.skipHash then ZERO20 else k.hash160, k.depth + 1,
               if flags.public then STRIPPED else priv, childNum,
               if flags.skipHash then ZERO20 else c.hash160(pub), VersionFor(k.version, !flags.public), pub, sum))
  }

  // ---------------------------------------------------------------- neutered keys

  /** The public half of a key. */
  function Neuter(k: Key): Key {
    k.(privKey := STRIPPED, version := VersionFor(k.version, false))
  }

  /** The public key bytes stand for a finite point, that of the private key if there is one. */
  ghost predicate Consistent(c: Curve, k: Key) {
    && c.decode(k.pubKey).Some?
    && (IsPrivate(k) ==> PublicKeyOf(c, k.privKey[1..]) == Some(k.pubKey))
  }

  lemma ScalarValue(c: Curve, v: nat)
    requires Lawful(c) && v < c.order
    ensures Value(BytesOf(v, 32), 256) == v
  {
    ValueOfBytes(v, 32);
  }

  /** On consistent keys, tweaking the private key and tweaking its public key agree, failures included. */
  lemma TweaksAgree(c: Curve, k: Bytes32, pub: Bytes33, t: Bytes32)
    requires Lawful(c) && PublicKeyOf(c, k) == Some(pub)
    ensures var priv := SeckeyTweakAdd(c, k, t);
            PublicKeyTweak(c, pub, t) == if priv.Some? then PublicKeyOf(c, priv.value) else None
    ensures var priv := SeckeyTweakAdd(c, k, t); priv.Some? ==> PublicKeyOf(c, priv.value).Some?
  {
    hide BytesOf, Value, Pow, IsGroup;
    var a, b := Value(k, 256), Value(t, 256);
    var n := c.order;
    assert a % n == a by { SmallMod(a, n); }
    assert c.mul(a) != Infinity;
    assert c.decode(pub) == Some(c.mul(a));
    assert c.add(c.mul(a), c.mul(b)) == c.mul((a + b) % n);
    if b < n && (a + b) % n != 0 {
      ScalarValue(c, (a + b) % n);
    }
    assert (a + b) % n % n == (a + b) % n by { SmallMod((a + b) % n, n); }
  }

  lemma SmallMod(a: nat, n: nat)
    requires a < n
    ensures a % n == a
  {
  }

  /** Deriving keeps keys consistent. */
  lemma DeriveConsistent(c: Curve, k: Key, childNum: uint32, flags: KeyFlags)
    requires Lawful(c) && Consistent(c, k) && Derive(c, k, childNum, flags).Some?
    ensures Consistent(c, Derive(c, k, childNum, flags).value)
  {
    hide BytesOf, Value, Pow, DerivationHash;
    var x, tweak := Derive(c, k, childNum, flags).value, DerivationHash(c, k, childNum)[..32];
    if IsPrivate(k) {
      TweaksAgree(c, k.privKey[1..], k.pubKey, tweak);
      assert x.pubKey == PublicKeyTweak(c, k.pubKey, tweak).value;
      if !flags.public {
        assert x.privKey[1..] == SeckeyTweakAdd(c, k.privKey[1..], tweak).value;
      }
    }
  }

  /** From a private parent: a public child is the neutered private child. */
  lemma PublicFromPrivate(c: Curve, k: Key, childNum: uint32, flags: KeyFlags)
    requires IsPrivate(k) && flags.public
    ensures var r := Derive(c, k, childNum, flags.(public := false));
            Derive(c, k, childNum, flags) == if r.Some? then Some(Neuter(r.value)) else None
  {
    hide BytesOf, Value, Pow, DerivationHash, SeckeyTweakAdd;
  }

  /** From a neutered parent, not hardened: the public child is again the neutered private child. */
  lemma PublicFromNeutered(c: Curve, k: Key, childNum: uint32, flags: KeyFlags)
    requires Lawful(c) && IsPrivate(k) && Consistent(c, k) && flags.public && !IsHardened(childNum)
    ensures var r := Derive(c, k, childNum, flags.(public := false));
            Derive(c, Neuter(k), childNum, flags) == if r.Some? then Some(Neuter(r.value)) else None
  {
    hide BytesOf, Value, Pow, SeckeyTweakAdd, PublicKeyTweak, PublicKeyOf, Lawful, TweakSumAdd;
    var tweak := DerivationHash(c, k, childNum)[..32];
    assert DerivationHash(c, Neuter(k), childNum) == DerivationHash(c, k, childNum);
    TweaksAgree(c, k.privKey[1..], k.pubKey, tweak);
    assert STRIPPED[0] == KEY_PUBLIC;
  }
}
