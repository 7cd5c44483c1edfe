/** struct ext_key and the methods of src/bip32.c that overwrite its fields. */
module ExtKeys {
  import opened Common
  import opened Radix
  import opened Bip32Key
  import opened Bip32Derive
  import opened Bip32InPlace

  class ExtKey {
    var chainCode: Bytes32
    var parent160: Bytes20
    var depth: byte
    var privKey: Bytes33
    var childNum: uint32
    var hash160: Bytes20
    var version: uint32
    var pubKey: Bytes33
    var tweakSum: Bytes32

    constructor ()
      ensures Contents() == WIPED
    {
      chainCode, parent160, depth, privKey, childNum := ZERO32, ZERO20, 0, WIPED.privKey, 0;
      hash160, version, pubKey, tweakSum := ZERO20, 0, WIPED.pubKey, ZERO32;
    }

    function Contents(): Key
      reads this
    {
      Key(chainCode, parent160, depth, privKey, childNum, hash160, version, pubKey, tweakSum)
    }

    method Wipe()
      modifies this
      ensures Contents() == WIPED
    {
      chainCode, parent160, depth, privKey, childNum := ZERO32, ZERO20, 0, WIPED.privKey, 0;
      hash160, version, pubKey, tweakSum := ZERO20, 0, WIPED.pubKey, ZERO32;
    }

    /** bip32_key_strip_private_key */
    method StripPrivateKey()
      modifies this`privKey
      ensures privKey == STRIPPED
    {
      privKey := [KEY_PUBLIC] + ZERO32;
    }

    /** bip32_seckey_tweak_add */
    method SeckeyTweakAddSum(c: Curve, tweak: Bytes32) returns (ret: Status)
      modifies this`tweakSum
      ensures var sum := TweakSumAdd(c, old(tweakSum), tweak);
              if sum.Some? then ret == Ok && tweakSum == sum.value else ret == Einval && tweakSum == old(tweakSum)
    {
      if tweakSum != ZERO32 {
        var sum := SeckeyTweakAdd(c, tweakSum, tweak);
        if sum.None? {
          return Einval;
        }
        tweakSum := sum.value;
        return Ok;
      }
      tweakSum := tweak;
      return Ok;
    }

    /** memcpy of a whole key. */
    method CopyFrom(src: ExtKey)
      modifies this
      ensures Contents() == old(src.Contents())
    {
      chainCode, parent160, depth, privKey, childNum :=
        src.chainCode, src.parent160, src.depth, src.privKey, src.childNum;
      hash160, version, pubKey, tweakSum := src.hash160, src.version, src.pubKey, src.tweakSum;
    }

    /**
     The key part of bip32_key_from_parent: private parents are tweaked privately, public ones publicly. A parent that
     is the child itself has hashed bytes in its private key by then, so whether it was private is an argument.
     */
    method SetChildKeys(c: Curve, hdkey: ExtKey, wasPrivate: bool, tweak: Bytes32) returns (ok: bool)
      modifies this`privKey, this`pubKey
      ensures var keys := ChildKeysFrom(c, wasPrivate, if wasPrivate then old(hdkey.privKey) else old(privKey),
                                        old(hdkey.pubKey), tweak);
              ok == keys.Some? && (ok ==> (privKey, pubKey) == keys.value)
    {
      if wasPrivate {
        privKey := hdkey.privKey;
        var priv := SeckeyTweakAdd(c, privKey[1..], tweak);
        if priv.None? {
          return false;
        }
        privKey := [privKey[0]] + priv.value;
        var pub := PublicKeyOf(c, privKey[1..]);
        if pub.None? {
          return false;
        }
        pubKey := pub.value;
      } else {
        var pub := PublicKeyTweak(c, hdkey.pubKey, tweak);
        if pub.None? {
          return false;
        }
        pubKey := pub.value;
      }
      return true;
    }

    /** The tail of bip32_key_from_parent: version, stripping, depth, child number and hashes. */
    method Finish(c: Curve, hdkey: ExtKey, number: uint32, flags: KeyFlags)
      requires hdkey.depth < 0xff
      modifies this
      ensures Contents() == old(Contents()).(
                privKey := if flags.public then STRIPPED else old(privKey),
                version := VersionFor(old(hdkey.version), !flags.public), depth := old(hdkey.depth) + 1,
                childNum := number, parent160 := if flags.skipHash then ZERO20 else old(hdkey.hash160),
                hash160 := if flags.skipHash then ZERO20 else c.hash160(old(pubKey)))
    {
      if !flags.public {
        version := if IsMainnet(hdkey.version) then VER_MAIN_PRIVATE else VER_TEST_PRIVATE;
      } else {
        version := if IsMainnet(hdkey.version) then VER_MAIN_PUBLIC else VER_TEST_PUBLIC;
        StripPrivateKey();
      }
      depth := hdkey.depth + 1;
      childNum := number;
      if flags.skipHash {
        parent160, hash160 := ZERO20, ZERO20;
      } else {
        parent160 := hdkey.hash160;
        hash160 := c.hash160(pubKey);
      }
    }
  }

  /** The fallible part of bip32_key_from_parent: hash, chain code, keys and tweak sum. */
  method DeriveParts(c: Curve, hdkey: ExtKey, childNum: uint32, flags: KeyFlags, keyOut: ExtKey) returns (ok: bool)
    requires IsPrivate(hdkey.Contents()) || !IsHardened(childNum)
    modifies keyOut
    ensures var k, i := old(hdkey.Contents()), DerivationHash(c, old(hdkey.Contents()), childNum);
            var data := HashedKey(k, childNum);
            var keys := ChildKeysFrom(c, IsPrivate(k), if IsPrivate(k) && hdkey != keyOut then k.privKey else data,
                                      k.pubKey, i[..32]);
            var sum := if !flags.tweakSum then Some(ZERO32)
                       else TweakSumAdd(c, if hdkey == keyOut then ZERO32 else k.tweakSum, i[..32]);
            && ok == (keys.Some? && sum.Some?)
            && (ok ==> keyOut.chainCode == i[32..] && keyOut.tweakSum == sum.value)
            && (ok ==> (keyOut.privKey, keyOut.pubKey) == keys.value)
    ensures hdkey == keyOut ==> hdkey.depth == old(hdkey.depth) && hdkey.version == old(hdkey.version)
                                && hdkey.hash160 == old(hdkey.hash160)
  {
    hide SeckeyTweakAdd, PublicKeyTweak, PublicKeyOf, BytesOf, ChildKeysFrom, TweakSumAdd;
    var isPrivate := hdkey.privKey[0] == KEY_PRIVATE;
    // privKey and childNum of the new key serve as the buffer for the hashed data
    keyOut.privKey := if IsHardened(childNum) then hdkey.privKey else hdkey.pubKey;
    keyOut.childNum := childNum;
    var sha := c.hmac(hdkey.chainCode, keyOut.privKey + BytesOf(keyOut.childNum, 4));
    var tweak: Bytes32 := sha[..32];
    assert sha == DerivationHash(c, old(hdkey.Contents()), childNum);
    keyOut.chainCode := sha[32..];
    ok := keyOut.SetChildKeys(c, hdkey, isPrivate, tweak);
    if !ok {
      return;
    }
    keyOut.tweakSum := ZERO32;
    if flags.tweakSum {
      keyOut.tweakSum := hdkey.tweakSum;
      var added := keyOut.SeckeyTweakAddSum(c, tweak);
      ok := added == Ok;
    }
  }

  /**
   bip32_key_from_parent: keyOut becomes the child, or is wiped when there is none; undefined flags
   leave it alone. The parent itself may be the output, and then becomes what `DeriveInPlace` says.
   */
  method FromParent(c: Curve, hdkey: ExtKey, childNum: uint32, flags: KeyFlags, keyOut: ExtKey) returns (ret: Status)
    modifies keyOut
    ensures var k := old(hdkey.Contents());
            var child := if hdkey == keyOut then DeriveInPlace(c, k, childNum, flags)
                         else Derive(c, k, childNum, flags);
            && ret == (if child.Some? then Ok else Einval)
            && keyOut.Contents() == if child.Some? then child.value
                                    else if flags.undefined then old(keyOut.Contents()) else WIPED
  {
    hide DerivationHash, ChildKeys, ChildKeysFrom, SeckeyTweakAdd, VersionFor;
    if flags.undefined {
      return Einval;
    }
    var isPrivate := hdkey.privKey[0] == KEY_PRIVATE;
    if (!isPrivate && (!flags.public || IsHardened(childNum))) || hdkey.depth == 0xff {
      keyOut.Wipe();
      return Einval;
    }
    ChildKeysAre(c, hdkey.Contents(), DerivationHash(c, hdkey.Contents(), childNum)[..32]);
    var ok := DeriveParts(c, hdkey, childNum, flags, keyOut);
    if !ok {
      keyOut.Wipe();
      return Einval;
    }
    keyOut.Finish(c, hdkey, childNum, flags);
    return Ok;
  }

  lemma PathFromStep(c: Curve, k: Key, path: seq<uint32>, i: nat, until: nat, flags: KeyFlags)
    requires i < |path|
    ensures var x := Derive(c, k, path[i], StepFlags(flags, i, |path|, until));
            PathFrom(c, k, path, i, until, flags)
            == if x.None? then None else PathFrom(c, x.value, path, i + 1, until, flags)
  {
    hide Derive;
  }

  lemma PathFromEnd(c: Curve, k: Key, path: seq<uint32>, until: nat, flags: KeyFlags)
    ensures PathFrom(c, k, path, |path|, until, flags) == Some(k)
  {
  }

  /** The loop of bip32_key_from_parent_path: two key slots take turns as parent and child. */
  method Walk(c: Curve, root: ExtKey, path: seq<uint32>, flags: KeyFlags, privateUntil: nat)
    returns (ret: Status, hdkey: ExtKey)
    ensures var x := PathFrom(c, root.Contents(), path, 0, privateUntil, flags);
            ret == (if x.Some? then Ok else Einval) && (x.Some? ==> hdkey.Contents() == x.value)
  {
    hide Derive, DeriveInPlace, PathFrom, StepFlags;
    var slot0 := new ExtKey();
    var slot1 := new ExtKey();
    var free, i := slot0, 0;
    hdkey, ret := root, Ok;
    ghost var k := root.Contents();
    while i < |path|
      invariant 0 <= i <= |path| && slot0 != slot1 && fresh(slot0) && fresh(slot1)
      invariant free == slot0 || free == slot1
      invariant hdkey != free && ret == Ok
      invariant PathFrom(c, hdkey.Contents(), path, i, privateUntil, flags) ==
                PathFrom(c, k, path, 0, privateUntil, flags)
    {
      var derivationFlags := flags;
      if privateUntil != 0 && i < privateUntil - 1 {
        derivationFlags := derivationFlags.(public := false);
      }
      if i + 2 < |path| {
        derivationFlags := derivationFlags.(skipHash := true);
      }
      StepFlagsAre(flags, i, |path|, privateUntil, derivationFlags);
      PathFromStep(c, hdkey.Contents(), path, i, privateUntil, flags);
      ret := FromParent(c, hdkey, path[i], derivationFlags, free);
      if ret != Ok {
        return;
      }
      hdkey := free;
      free := if free == slot0 then slot1 else slot0;
      i := i + 1;
    }
    PathFromEnd(c, hdkey.Contents(), path, privateUntil, flags);
  }

  /**
   bip32_key_from_parent_path. A failure leaves keyOut alone; keyOut may be the root itself.
   */
  method FromParentPath(c: Curve, root: ExtKey, path: seq<uint32>, flags: KeyFlags, keyOut: ExtKey)
      returns (ret: Status)
    modifies keyOut
    ensures var x := DerivePath(c, old(root.Contents()), path, flags);
            && ret == (if x.Some? then Ok else Einval)
            && keyOut.Contents() == if x.Some? then x.value else old(keyOut.Contents())
  {
    hide PathFrom;
    if flags.undefined || path == [] || |path| > PATH_MAX_LEN {
      return Einval;
    }
    var privateUntil := 0;
    if flags.public {
      privateUntil := LastHardened(path);
      if privateUntil != 0 && root.privKey[0] != KEY_PRIVATE {
        return Einval;
      }
    }
    var hdkey;
    ret, hdkey := Walk(c, root, path, flags, privateUntil);
    if ret == Ok {
      keyOut.CopyFrom(hdkey);
    }
  }

  lemma StepFlagsAre(flags: KeyFlags, i: nat, len: nat, until: nat, f: KeyFlags)
    requires f.public == (flags.public && (until == 0 || i >= until - 1))
             && f.skipHash == (flags.skipHash || i + 2 < len)
    requires f == flags.(public := f.public, skipHash := f.skipHash)
    ensures f == StepFlags(flags, i, len, until)
  {
  }

  method LastHardened(path: seq<uint32>) returns (until: nat)
    ensures until == PrivateUntil(path)
  {
    until := 0;
    var i := 0;
    while i < |path|
      invariant 0 <= i <= |path| && until == PrivateUntil(path[..i])
    {
      assert path[..i + 1][..i] == path[..i];
      if IsHardened(path[i]) {
        until := i + 1;
      }
      i := i + 1;
    }
    assert path[..i] == path;
  }

  /**
   bip32_key_with_tweak_from_parent_path. If the output is the parent itself, its public key has been overwritten by
   the derived one when the sum is added to it.
   */
  method WithTweakFromParentPath(c: Curve, hdkey: ExtKey, path: seq<uint32>, flags: KeyFlags, output: ExtKey)
    returns (ret: Status)
    modifies output
    ensures var k := old(hdkey.Contents());
            var x := DerivePath(c, k, path, flags);
            if (!flags.tweakSum && !flags.public) || x.None? then
              ret == Einval && output.Contents() == old(output.Contents())
            else
              var pub := PublicKeyTweak(c, if output == hdkey then x.value.pubKey else k.pubKey, x.value.tweakSum);
              && ret == (if pub.Some? then Ok else Error)
              && output.Contents() == if pub.Some? then x.value.(pubKey := pub.value) else WIPED
    ensures output != hdkey ==>
              var x := DeriveWithTweak(c, old(hdkey.Contents()), path, flags);
              (ret == Ok <==> x.Some?) && (x.Some? ==> output.Contents() == x.value)
  {
    hide DerivePath, PublicKeyTweak;
    if !flags.tweakSum && !flags.public {
      return Einval;
    }
    ret := FromParentPath(c, hdkey, path, flags, output);
    if ret == Ok {
      var pub := PublicKeyTweak(c, hdkey.pubKey, output.tweakSum);
      if pub.Some? {
        output.pubKey := pub.value;
      } else {
        output.Wipe();
        ret := Error;
      }
    }
  }
}
