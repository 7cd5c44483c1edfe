/** Derivation along a path: the functions behind src/bip32.c's loop, and what they guarantee. */
module Bip32Derive {
  import opened Common
  import opened Radix
  import opened Bip32Key

  /** One past the last hardened element; 0 without one. */
  function PrivateUntil(path: seq<uint32>): (n: nat)
    ensures n <= |path| && (forall i :: n <= i < |path| ==> !IsHardened(path[i])) && (n > 0 ==> IsHardened(path[n - 1]))
  {
    if path == [] then 0
    else if IsHardened(path[|path| - 1]) then |path|
    else PrivateUntil(path[..|path| - 1])
  }

  /** The flags of step i: private up to the last hardened element, no hash for keys that are only passed through. */
  function StepFlags(flags: KeyFlags, i: nat, len: nat, until: nat): KeyFlags {
    flags.(public := flags.public && !(until > 0 && i + 1 < until), skipHash := flags.skipHash || i + 2 < len)
  }

  function PathFrom(c: Curve, k: Key, path: seq<uint32>, i: nat, until: nat, flags: KeyFlags): Option<Key>
    requires i <= |path|
    decreases |path| - i
  {
    if i == |path| then Some(k)
    else
      var x :- Derive(c, k, path[i], StepFlags(flags, i, |path|, until));
      PathFrom(c, x, path, i + 1, until, flags)
  }

  function UntilFor(path: seq<uint32>, flags: KeyFlags): (n: nat)
    ensures n <= |path|
  {
    if flags.public then PrivateUntil(path) else 0
  }

  predicate BadPath(k: Key, path: seq<uint32>, flags: KeyFlags) {
    flags.undefined || path == [] || |path| > PATH_MAX_LEN || (UntilFor(path, flags) > 0 && !IsPrivate(k))
  }

  /** bip32_key_from_parent_path on values. */
  function DerivePath(c: Curve, k: Key, path: seq<uint32>, flags: KeyFlags): Option<Key> {
    if BadPath(k, path, flags) then None else PathFrom(c, k, path, 0, UntilFor(path, flags), flags)
  }

  /** The plain definition: the same derivation at every step, from element i on. */
  function Each(c: Curve, k: Key, path: seq<uint32>, i: nat, flags: KeyFlags): Option<Key>
    requires i <= |path|
    decreases |path| - i
  {
    if i == |path| then Some(k)
    else
      var x :- Derive(c, k, path[i], flags);
      Each(c, x, path, i + 1, flags)
  }

  // ---------------------------------------------------------------- skipped hashes

  function WithHashes(k: Key, parent: Bytes20, own: Bytes20): Key {
    k.(parent160 := parent, hash160 := own)
  }

  /** A parent's hashes and the hash flag change nothing in a child but its hashes. */
  lemma HashOnly(c: Curve, k: Key, parent: Bytes20, own: Bytes20, childNum: uint32, flags: KeyFlags, skip: bool)
    ensures var x, y := Derive(c, k, childNum, flags),
                        Derive(c, WithHashes(k, parent, own), childNum, flags.(skipHash := skip));
            && x.Some? == y.Some?
            && (x.Some? ==>
                  y.value == WithHashes(x.value, if skip then ZERO20 else own,
                                        if skip then ZERO20 else c.hash160(x.value.pubKey)))
            && (x.Some? && !flags.skipHash ==>
                  x.value.parent160 == k.hash160 && x.value.hash160 == c.hash160(x.value.pubKey))
            && (x.Some? && flags.skipHash ==> x.value.parent160 == ZERO20 == x.value.hash160)
  {
    hide BytesOf, Value, Pow, SeckeyTweakAdd, PublicKeyTweak, PublicKeyOf, TweakSumAdd;
    assert DerivationHash(c, WithHashes(k, parent, own), childNum) == DerivationHash(c, k, childNum);
  }

  /**
   The loop's key k at step i against the plainly derived private key r: the same up to hashes,
   neutered from the first public step on; and hashes agree where they are still needed.
   */
  ghost predicate Tracks(k: Key, r: Key, i: nat, len: nat, until: nat, flags: KeyFlags) {
    var m := if i > 0 && flags.public && until <= i then Neuter(r) else r;
    && k == WithHashes(m, k.parent160, k.hash160)
    && (i == 0 || i + 1 >= len ==> k.hash160 == r.hash160)
    && (i == 0 || i == len ==> k.parent160 == r.parent160)
  }

  lemma TrackStep(c: Curve, k: Key, r: Key, path: seq<uint32>, i: nat, flags: KeyFlags)
    requires Lawful(c) && IsPrivate(r) && Consistent(c, r) && i < |path|
    requires Tracks(k, r, i, |path|, UntilFor(path, flags), flags)
    ensures var x, y := Derive(c, k, path[i], StepFlags(flags, i, |path|, UntilFor(path, flags))),
                        Derive(c, r, path[i], flags.(public := false));
            && x.Some? == y.Some?
            && (y.Some? ==> Tracks(x.value, y.value, i + 1, |path|, UntilFor(path, flags), flags))
            && (y.Some? ==> IsPrivate(y.value) && Consistent(c, y.value))
  {
    hide Derive, Lawful, Consistent, PrivateUntil;
    var until := UntilFor(path, flags);
    var f := StepFlags(flags, i, |path|, until);
    var private := flags.(public := false);
    var y := Derive(c, r, path[i], private);
    if i > 0 && flags.public && until <= i {
      PublicFromNeutered(c, r, path[i], flags);
      HashOnly(c, Neuter(r), k.parent160, k.hash160, path[i], flags, f.skipHash);
    } else {
      if f.public { PublicFromPrivate(c, r, path[i], flags); }
      HashOnly(c, r, k.parent160, k.hash160, path[i], f.(skipHash := flags.skipHash), f.skipHash);
    }
    HashOnly(c, r, r.parent160, r.hash160, path[i], private, flags.skipHash);
    if y.Some? {
      DeriveConsistent(c, r, path[i], private);
      PrivateChild(c, r, path[i], private);
    }
  }

  lemma PrivateChild(c: Curve, k: Key, childNum: uint32, flags: KeyFlags)
    requires !flags.public && Derive(c, k, childNum, flags).Some?
    ensures IsPrivate(Derive(c, k, childNum, flags).value)
  {
  }

  lemma {:induction false} PathTracks(c: Curve, k: Key, r: Key, path: seq<uint32>, i: nat, flags: KeyFlags)
    requires Lawful(c) && IsPrivate(r) && Consistent(c, r) && i <= |path| && path != []
    requires Tracks(k, r, i, |path|, UntilFor(path, flags), flags)
    ensures var y := Each(c, r, path, i, flags.(public := false));
            PathFrom(c, k, path, i, UntilFor(path, flags), flags)
            == if y.None? then None else Some(if flags.public then Neuter(y.value) else y.value)
    decreases |path| - i
  {
    hide Derive, Lawful, Consistent, StepFlags;
    if i < |path| {
      TrackStep(c, k, r, path, i, flags);
      var x, y := Derive(c, k, path[i], StepFlags(flags, i, |path|, UntilFor(path, flags))),
                  Derive(c, r, path[i], flags.(public := false));
      if y.Some? { PathTracks(c, x.value, y.value, path, i + 1, flags); }
    }
  }

  /**
   Any path from a private root, whatever its hardened elements: deriving it with the public flag
   gives the neutered result of deriving every step privately, and without the flag that result
   itself; one fails exactly when the other does.
   */
  lemma PathIsNeuteredPrivatePath(c: Curve, k: Key, path: seq<uint32>, flags: KeyFlags)
    requires Lawful(c) && IsPrivate(k) && Consistent(c, k)
    requires !flags.undefined && 1 <= |path| <= 255
    ensures var y := Each(c, k, path, 0, flags.(public := false));
            DerivePath(c, k, path, flags)
            == if y.None? then None else Some(if flags.public then Neuter(y.value) else y.value)
  {
    hide Derive, Lawful, Consistent, PathFrom, Each;
    PathTracks(c, k, k, path, 0, flags);
  }

  /**
   From a public root only paths without hardened elements can be derived, and they give what the private root gives.
   */
  lemma {:induction false} PublicRootFrom(c: Curve, k: Key, r: Key, path: seq<uint32>, i: nat, flags: KeyFlags)
    requires Lawful(c) && IsPrivate(r) && Consistent(c, r) && i <= |path| && flags.public && PrivateUntil(path) == 0
    requires k == WithHashes(Neuter(r), k.parent160, k.hash160)
    requires (i == 0 || i + 1 >= |path| ==> k.hash160 == r.hash160)
    requires (i == 0 || i == |path| ==> k.parent160 == r.parent160)
    ensures var y := Each(c, r, path, i, flags.(public := false));
            PathFrom(c, k, path, i, 0, flags) == if y.None? then None else Some(Neuter(y.value))
    decreases |path| - i
  {
    hide Derive, Lawful, Consistent;
    if i < |path| {
      var private := flags.(public := false);
      var skip := StepFlags(flags, i, |path|, 0).skipHash;
      PublicFromNeutered(c, r, path[i], flags);
      HashOnly(c, Neuter(r), k.parent160, k.hash160, path[i], flags, skip);
      HashOnly(c, r, r.parent160, r.hash160, path[i], private, flags.skipHash);
      var x, y := Derive(c, k, path[i], flags.(skipHash := skip)), Derive(c, r, path[i], private);
      if y.Some? {
        DeriveConsistent(c, r, path[i], private);
        PrivateChild(c, r, path[i], private);
        PublicRootFrom(c, x.value, y.value, path, i + 1, flags);
      }
    }
  }

  lemma PublicRoot(c: Curve, k: Key, path: seq<uint32>, flags: KeyFlags)
    requires Lawful(c) && IsPrivate(k) && Consistent(c, k)
    requires !flags.undefined && 1 <= |path| <= 255 && flags.public
    ensures DerivePath(c, Neuter(k), path, flags)
         == if PrivateUntil(path) > 0 then None else DerivePath(c, k, path, flags)
  {
    hide Derive, Lawful, Consistent, PathFrom, Each;
    assert STRIPPED[0] == KEY_PUBLIC;
    if PrivateUntil(path) == 0 {
      PublicRootFrom(c, Neuter(k), k, path, 0, flags);
      PathIsNeuteredPrivatePath(c, k, path, flags);
    }
  }

  // ---------------------------------------------------------------- accumulated tweaks

  lemma {:induction false} ZeroBytes(s: seq<byte>)
    ensures Value(s, 256) == 0 <==> s == Repeat(0, |s|)
  {
    if s != [] {
      ZeroBytes(s[..|s| - 1]);
      assert s == s[..|s| - 1] + [s[|s| - 1]];
      assert Repeat(0, |s|) == Repeat(0, |s| - 1) + [0];
    }
  }

  /** The key's public point plus the root's own tweak sum is the root's point plus the key's tweak sum. */
  ghost predicate Telescoped(c: Curve, root: Bytes33, base: nat, k: Key) {
    && c.decode(root).Some? && c.decode(k.pubKey).Some?
    && Value(k.tweakSum, 256) < c.order
    && c.add(c.decode(k.pubKey).value, c.mul(base))
       == c.add(c.decode(root).value, c.mul(Value(k.tweakSum, 256)))
  }

  /** Deriving a child tweaks its parent's public key, whether or not the parent is private. */
  lemma ChildIsTweaked(c: Curve, k: Key, childNum: uint32, flags: KeyFlags)
    requires Lawful(c) && Consistent(c, k) && Derive(c, k, childNum, flags).Some?
    ensures var tweak: Bytes32 := DerivationHash(c, k, childNum)[..32];
            Some(Derive(c, k, childNum, flags).value.pubKey) == PublicKeyTweak(c, k.pubKey, tweak)
  {
    hide BytesOf, Value, Pow, DerivationHash, Lawful;
    if IsPrivate(k) { TweaksAgree(c, k.privKey[1..], k.pubKey, DerivationHash(c, k, childNum)[..32]); }
  }

  lemma SumOfTweaks(c: Curve, p: Point, s: nat, t: nat)
    requires Lawful(c) && c.onCurve(p)
    ensures c.add(c.add(p, c.mul(s)), c.mul(t)) == c.add(p, c.mul((s + t) % c.order))
    ensures c.onCurve(c.add(c.add(p, c.mul(s)), c.mul(t)))
    ensures c.add(p, c.mul(0)) == p
  {
    assert 0 % c.order == 0;
  }

  /** Two multiples of the generator are added to a point in any order. */
  lemma TweaksSwap(c: Curve, p: Point, s: nat, t: nat)
    requires Lawful(c) && c.onCurve(p)
    ensures c.add(c.add(p, c.mul(s)), c.mul(t)) == c.add(c.add(p, c.mul(t)), c.mul(s))
  {
    SumOfTweaks(c, p, s, t);
    SumOfTweaks(c, p, t, s);
    assert s + t == t + s;
  }

  /** What is known of a point behind its bytes. */
  lemma DecodedPoint(c: Curve, pub: Bytes33)
    requires Lawful(c) && c.decode(pub).Some?
    ensures var p := c.decode(pub).value; c.onCurve(p) && p != Infinity && c.encode(p) == pub
  {
    hide HasMultiples, IsGroup, Pow;
  }

  /** Tweaked bytes stand for the point moved by the tweak. */
  lemma TweakedPoint(c: Curve, pub: Bytes33, tweak: Bytes32)
    requires Lawful(c) && PublicKeyTweak(c, pub, tweak).Some?
    ensures c.decode(pub).Some? && Value(tweak, 256) < c.order
    ensures c.decode(PublicKeyTweak(c, pub, tweak).value)
         == Some(c.add(c.decode(pub).value, c.mul(Value(tweak, 256))))
  {
    hide Pow, Value;
    DecodedPoint(c, pub);
  }

  /** The next sum stands for the sum and the tweak. */
  lemma NextSum(c: Curve, sum: Bytes32, tweak: Bytes32)
    requires Lawful(c) && Value(tweak, 256) < c.order && TweakSumAdd(c, sum, tweak).Some?
    ensures Value(TweakSumAdd(c, sum, tweak).value, 256) == (Value(sum, 256) + Value(tweak, 256)) % c.order
  {
    hide Pow, Value, BytesOf, HasMultiples, IsGroup, IsEncoded;
    var s, t := Value(sum, 256), Value(tweak, 256);
    ZeroBytes(sum);
    if sum == ZERO32 {
      SmallMod(t, c.order);
    } else {
      ScalarValue(c, (s + t) % c.order);
    }
  }

  lemma TelescopeStep(c: Curve, root: Bytes33, base: nat, k: Key, childNum: uint32, flags: KeyFlags)
    requires Lawful(c) && Consistent(c, k) && flags.tweakSum && Telescoped(c, root, base, k)
    requires Derive(c, k, childNum, flags).Some?
    ensures Telescoped(c, root, base, Derive(c, k, childNum, flags).value)
  {
    hide DerivationHash, Lawful, Value, Consistent, ChildKeys, PublicKeyTweak, TweakSumAdd;
    var x := Derive(c, k, childNum, flags).value;
    var tweak: Bytes32 := DerivationHash(c, k, childNum)[..32];
    var p, r, s, t := c.decode(k.pubKey).value, c.decode(root).value, Value(k.tweakSum, 256), Value(tweak, 256);
    ChildIsTweaked(c, k, childNum, flags);
    TweakedPoint(c, k.pubKey, tweak);
    NextSum(c, k.tweakSum, tweak);
    DecodedPoint(c, k.pubKey);
    DecodedPoint(c, root);
    TweaksSwap(c, p, t, base);
    SumOfTweaks(c, r, s, t);
  }

  lemma {:induction false} PathTelescopes(c: Curve, root: Bytes33, base: nat, k: Key, path: seq<uint32>, i: nat,
      until: nat, flags: KeyFlags)
    requires Lawful(c) && Consistent(c, k) && flags.tweakSum && Telescoped(c, root, base, k) && i <= |path|
    ensures var x := PathFrom(c, k, path, i, until, flags); x.Some? ==> Telescoped(c, root, base, x.value)
    decreases |path| - i
  {
    hide Derive, Lawful, Consistent, Telescoped;
    if i < |path| {
      var f := StepFlags(flags, i, |path|, until);
      var x := Derive(c, k, path[i], f);
      if x.Some? {
        DeriveConsistent(c, k, path[i], f);
        TelescopeStep(c, root, base, k, path[i], f);
        PathTelescopes(c, root, base, x.value, path, i + 1, until, flags);
      }
    }
  }

  /** Only a sum below the order can be added to. */
  lemma SumBelowOrder(c: Curve, k: Key, childNum: uint32, flags: KeyFlags)
    requires 0 < c.order && flags.tweakSum && Derive(c, k, childNum, flags).Some?
    ensures Value(k.tweakSum, 256) < c.order
  {
    hide DerivationHash, ChildKeys, Value;
    ZeroBytes(ZERO32);
  }

  /** A path is derived by deriving its first element. */
  lemma PathHead(c: Curve, k: Key, path: seq<uint32>, flags: KeyFlags)
    requires path != [] && PathFrom(c, k, path, 0, UntilFor(path, flags), flags).Some?
    ensures Derive(c, k, path[0], StepFlags(flags, 0, |path|, UntilFor(path, flags))).Some?
  {
    hide Derive;
  }

  /**
   Accumulated tweaks telescope: for any root, private or public, adding the final tweak sum to the root's public key
   gives what adding the root's own sum to the derived public key gives.
   */
  lemma TweaksTelescope(c: Curve, k: Key, path: seq<uint32>, flags: KeyFlags)
    requires Lawful(c) && Consistent(c, k) && flags.tweakSum
    ensures var x := DerivePath(c, k, path, flags);
            x.Some? ==>
              PublicKeyTweak(c, k.pubKey, x.value.tweakSum) == PublicKeyTweak(c, x.value.pubKey, k.tweakSum)
  {
    hide Derive, BytesOf, Pow, Value, PathFrom, IsGroup;
    var base := Value(k.tweakSum, 256);
    if DerivePath(c, k, path, flags).Some? {
      PathHead(c, k, path, flags);
      SumBelowOrder(c, k, path[0], StepFlags(flags, 0, |path|, UntilFor(path, flags)));
      PathTelescopes(c, k.pubKey, base, k, path, 0, UntilFor(path, flags), flags);
    }
  }

  /** Adding nothing to a public key leaves it. */
  lemma ZeroTweak(c: Curve, pub: Bytes33)
    requires Lawful(c) && c.decode(pub).Some?
    ensures PublicKeyTweak(c, pub, ZERO32) == Some(pub)
  {
    hide Value, Pow, HasMultiples, IsGroup, IsEncoded;
    ZeroBytes(ZERO32);
    DecodedPoint(c, pub);
    SumOfTweaks(c, c.decode(pub).value, 0, 0);
  }

  /** bip32_key_with_tweak_from_parent_path on values: either flag lets a call through. */
  function DeriveWithTweak(c: Curve, k: Key, path: seq<uint32>, flags: KeyFlags): Option<Key> {
    if !flags.tweakSum && !flags.public then None
    else
      var x :- DerivePath(c, k, path, flags);
      var pub :- PublicKeyTweak(c, k.pubKey, x.tweakSum);
      Some(x.(pubKey := pub))
  }

  /** Without the tweak-sum flag derived keys have a zero sum. */
  lemma {:induction false} NoSum(c: Curve, k: Key, path: seq<uint32>, i: nat, until: nat, flags: KeyFlags)
    requires !flags.tweakSum && i < |path|
    ensures var x := PathFrom(c, k, path, i, until, flags); x.Some? ==> x.value.tweakSum == ZERO32
    decreases |path| - i
  {
    hide DerivationHash, ChildKeys, TweakSumAdd, VersionFor;
    var x := Derive(c, k, path[i], StepFlags(flags, i, |path|, until));
    if x.Some? && i + 1 < |path| { NoSum(c, x.value, path, i + 1, until, flags); }
  }

  /**
   One of two flags is needed. With the tweak-sum flag the root's own tweak sum is added to the derived public key.
   The public flag alone passes the argument check too, and then the result carries the root's own public key instead
   of the derived one.
   */
  lemma WithTweakMeans(c: Curve, k: Key, path: seq<uint32>, flags: KeyFlags)
    requires Lawful(c) && Consistent(c, k)
    ensures var x := DerivePath(c, k, path, flags);
            DeriveWithTweak(c, k, path, flags)
            == if x.None? || (!flags.tweakSum && !flags.public) then None
               else if !flags.tweakSum then Some(x.value.(pubKey := k.pubKey))
               else
                 var pub := PublicKeyTweak(c, x.value.pubKey, k.tweakSum);
                 if pub.None? then None else Some(x.value.(pubKey := pub.value))
  {
    hide Derive, BytesOf, Pow, Value, PathFrom, IsGroup, PublicKeyTweak;
    if flags.tweakSum {
      TweaksTelescope(c, k, path, flags);
    } else if flags.public && DerivePath(c, k, path, flags).Some? {
      NoSum(c, k, path, 0, UntilFor(path, flags), flags);
      ZeroTweak(c, k.pubKey);
    }
  }

  // ---------------------------------------------------------------- when the tweak gives the derived key

  /** Every point is a multiple of the generator, as on secp256k1, whose cofactor is 1. */
  ghost predicate Generated(c: Curve) {
    forall p :: c.onCurve(p) ==> exists a: nat :: c.mul(a) == p
  }

  /** The point of a key is a multiple of the generator. */
  ghost predicate HasMultiple(c: Curve, pub: Bytes33) {
    c.decode(pub).Some? && exists a: nat :: c.mul(a) == c.decode(pub).value
  }

  /** Whole multiples do not change a remainder. */
  lemma Remainder(v: nat, q: nat, d: nat, n: nat)
    requires v == q * n + d && d < n
    ensures v % n == d
  {
    DivMod(q, d, n);
  }

  /** The remainder of a sum wraps around at most once. */
  lemma SumRest(a: nat, s: nat, n: nat)
    requires s < n
    ensures var r := a % n; (a + s) % n == if r + s < n then r + s else r + s - n
  {
    var q, r := a / n, a % n;
    assert a == q * n + r;
    assert (q + 1) * n == q * n + n;
    if r + s < n { Remainder(a + s, q, r + s, n); } else { Remainder(a + s, q + 1, r + s - n, n); }
  }

  /** What brings a to the next multiple of n brings a + s to s beyond one. */
  lemma Residues(a: nat, s: nat, n: nat)
    requires s < n
    ensures ((a + s) % n + (n - a % n)) % n == s && (a + (n - a % n)) % n == 0
  {
    var q, r := a / n, a % n;
    assert a == q * n + r;
    assert (q + 1) * n == q * n + n;
    Remainder(a + (n - r), q + 1, 0, n);
    SumRest(a, s, n);
    if r + s < n { Remainder(r + s + (n - r), 1, s, n); } else { Remainder(s, 0, s, n); }
  }

  lemma Multiples(c: Curve, a: nat, b: nat)
    requires Lawful(c)
    ensures c.add(c.mul(a), c.mul(b)) == c.mul((a + b) % c.order) && (c.mul(a) == Infinity <==> a % c.order == 0)
  {
    hide Pow, IsGroup, IsEncoded;
  }

  /** Adding a multiple of the generator that is not zero moves a point. */
  lemma MovesPoint(c: Curve, a: nat, s: nat)
    requires Lawful(c) && s < c.order && c.add(c.mul(a), c.mul(s)) == c.mul(a)
    ensures s == 0
  {
    hide Lawful;
    var n, r := c.order, a % c.order;
    Residues(a, s, n);
    Multiples(c, a, s);
    Multiples(c, (a + s) % n, n - r);
    Multiples(c, a, n - r);
    Multiples(c, s, 0);
    Multiples(c, 0, 0);
    SmallMod(s, n);
    SmallMod(0, n);
  }

  lemma ChildHasMultiple(c: Curve, k: Key, childNum: uint32, flags: KeyFlags)
    requires Lawful(c) && Consistent(c, k) && HasMultiple(c, k.pubKey) && Derive(c, k, childNum, flags).Some?
    ensures HasMultiple(c, Derive(c, k, childNum, flags).value.pubKey)
  {
    hide BytesOf, Value, Pow, DerivationHash, IsGroup, Derive, Consistent;
    var a: nat :| c.mul(a) == c.decode(k.pubKey).value;
    ChildIsTweaked(c, k, childNum, flags);
    var t := Value(DerivationHash(c, k, childNum)[..32], 256);
    assert c.add(c.mul(a), c.mul(t)) == c.mul((a + t) % c.order);
  }

  lemma {:induction false} PathHasMultiple(c: Curve, k: Key, path: seq<uint32>, i: nat, until: nat, flags: KeyFlags)
    requires Lawful(c) && Consistent(c, k) && HasMultiple(c, k.pubKey) && i <= |path|
    ensures var x := PathFrom(c, k, path, i, until, flags); x.Some? ==> HasMultiple(c, x.value.pubKey)
    decreases |path| - i
  {
    hide Derive, Lawful, Consistent, HasMultiple;
    if i < |path| {
      var f := StepFlags(flags, i, |path|, until);
      var x := Derive(c, k, path[i], f);
      if x.Some? {
        DeriveConsistent(c, k, path[i], f);
        ChildHasMultiple(c, k, path[i], f);
        PathHasMultiple(c, x.value, path, i + 1, until, flags);
      }
    }
  }

  lemma KeyHasMultiple(c: Curve, k: Key)
    requires Lawful(c) && Consistent(c, k) && (IsPrivate(k) || Generated(c))
    ensures HasMultiple(c, k.pubKey)
  {
    hide Value, Pow, IsGroup;
    if IsPrivate(k) {
      var a := Value(k.privKey[1..], 256);
      assert c.mul(a) != Infinity by { SmallMod(a, c.order); }
      assert c.decode(k.pubKey) == Some(c.mul(a));
    }
  }

  /** A tweak leaves a public key as it is exactly if it is zero. */
  lemma TweakMoves(c: Curve, pub: Bytes33, tweak: Bytes32)
    requires Lawful(c) && HasMultiple(c, pub)
    ensures PublicKeyTweak(c, pub, tweak) == Some(pub) <==> tweak == ZERO32
  {
    hide Value, Pow, IsGroup;
    ZeroBytes(tweak);
    if tweak == ZERO32 {
      ZeroTweak(c, pub);
    } else if PublicKeyTweak(c, pub, tweak) == Some(pub) {
      var a: nat :| c.mul(a) == c.decode(pub).value;
      MovesPoint(c, a, Value(tweak, 256));
    }
  }

  /**
   With the tweak-sum flag the result is the derived key if and only if the root has no tweak sum of its own; for
   public roots too, if every point is a multiple of the generator.
   */
  lemma WithTweakIsDerived(c: Curve, k: Key, path: seq<uint32>, flags: KeyFlags)
    requires Lawful(c) && Consistent(c, k) && (IsPrivate(k) || Generated(c))
    requires flags.tweakSum && DerivePath(c, k, path, flags).Some?
    ensures DeriveWithTweak(c, k, path, flags) == DerivePath(c, k, path, flags) <==> k.tweakSum == ZERO32
  {
    hide Lawful, Consistent, PathFrom, PublicKeyTweak, HasMultiple, Generated, DeriveWithTweak;
    var x := DerivePath(c, k, path, flags).value;
    WithTweakMeans(c, k, path, flags);
    KeyHasMultiple(c, k);
    PathHasMultiple(c, k, path, 0, UntilFor(path, flags), flags);
    TweakMoves(c, x.pubKey, k.tweakSum);
  }
}
