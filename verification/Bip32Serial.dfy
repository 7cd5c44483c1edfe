/** The 78-byte serialization of extended keys in src/bip32.c. */
module Bip32Serial {
  import opened Common
  import opened Radix
  import opened Bip32Key
  import opened ExtKeys

  const SERIALIZED_LEN: nat := 78
  const FINGERPRINT_LEN: nat := 4

  predicate VersionIsValid(version: uint32, private: bool) {
    || version == VER_MAIN_PRIVATE || version == VER_TEST_PRIVATE
    || (!private && (version == VER_MAIN_PUBLIC || version == VER_TEST_PUBLIC))
  }

  /** key_is_valid */
  predicate KeyIsValid(k: Key) {
    && VersionIsValid(k.version, IsPrivate(k))
    && k.chainCode != ZERO32
    && (k.pubKey[0] == 2 || k.pubKey[0] == 3) && k.pubKey[1..] != ZERO32
    && (k.privKey[0] == KEY_PUBLIC || k.privKey[0] == KEY_PRIVATE)
    && (IsPrivate(k) ==> k.privKey[1..] != ZERO32)
    && (k.depth == 0 ==> k.parent160 == ZERO20)
  }

  /** bip32_key_serialize on values. */
  function SerializeKey(k: Key, public: bool): Option<seq<byte>> {
    if (!public && !IsPrivate(k)) || !KeyIsValid(k) then None
    else
      var version := if public then VersionFor(k.version, false) else k.version;
      Some(BytesOf(version, 4) + [k.depth] + k.parent160[..FINGERPRINT_LEN] + BytesOf(k.childNum, 4) + k.chainCode
           + if public then k.pubKey else k.privKey)
  }

  /** Only the fingerprint of the parent survives; the key's own hash is recomputed. */
  function Restored(c: Curve, k: Key): Key {
    k.(parent160 := k.parent160[..FINGERPRINT_LEN] + Repeat(0, 16), hash160 := c.hash160(k.pubKey), tweakSum := ZERO32)
  }

  /** bip32_key_unserialize on values. */
  function UnserializeKey(c: Curve, b: seq<byte>): Option<Key> {
    if |b| != SERIALIZED_LEN then None
    else
      FourBytes(b[..4]);
      FourBytes(b[9..13]);
      var version: uint32, childNum: uint32, key: Bytes33 := Value(b[..4], 256), Value(b[9..13], 256), b[45..];
      var private := key[0] == KEY_PRIVATE;
      if !VersionIsValid(version, false) then None
      else if private == (version == VER_MAIN_PUBLIC || version == VER_TEST_PUBLIC) then None
      else
        var pub :- if private then PublicKeyOf(c, key[1..]) else if c.decode(key).Some? then Some(key) else None;
        Some(Key(b[13..45], b[5..9] + Repeat(0, 16), b[4], if private then key else STRIPPED, childNum,
                 c.hash160(pub), version, pub, ZERO32))
  }

  lemma FourBytes(s: seq<byte>)
    requires |s| == 4
    ensures Value(s, 256) < TWO_32
  {
    ValueBound(s, 256);
    assert Pow(256, 0) == 1 && Pow(256, 2) == 65536;
  }

  lemma FourBytesOf(v: uint32)
    ensures Value(BytesOf(v, 4), 256) == v
  {
    assert Pow(256, 0) == 1 && Pow(256, 2) == 65536;
    ValueOfBytes(v, 4);
  }

  /** The fields of a serialization stand where they were written. */
  lemma Fields(a: seq<byte>, d: byte, f: seq<byte>, n: seq<byte>, ch: seq<byte>, key: seq<byte>)
    requires |a| == 4 && |f| == 4 && |n| == 4 && |ch| == 32 && |key| == 33
    ensures var b := a + [d] + f + n + ch + key;
            && |b| == SERIALIZED_LEN && b[..4] == a && b[4] == d && b[5..9] == f && b[9..13] == n
            && b[13..45] == ch && b[45..] == key
  {
  }

  /** What is serialized is read back: the key itself, or its public half. */
  lemma UnserializeSerialize(c: Curve, k: Key, public: bool)
    requires Lawful(c) && Consistent(c, k) && SerializeKey(k, public).Some?
    ensures UnserializeKey(c, SerializeKey(k, public).value) == Some(Restored(c, if public then Neuter(k) else k))
  {
    hide BytesOf, Value, Lawful, PublicKeyOf;
    var version: uint32 := if public then VersionFor(k.version, false) else k.version;
    var key := if public then k.pubKey else k.privKey;
    FourBytesOf(version);
    FourBytesOf(k.childNum);
    Fields(BytesOf(version, 4), k.depth, k.parent160[..4], BytesOf(k.childNum, 4), k.chainCode, key);
  }

  /** What is read can be written back to the same bytes, exactly when the key read is valid. */
  lemma SerializeUnserialize(c: Curve, b: seq<byte>)
    requires UnserializeKey(c, b).Some?
    ensures var k := UnserializeKey(c, b).value;
            SerializeKey(k, !IsPrivate(k)) == if KeyIsValid(k) then Some(b) else None
  {
    hide BytesOf, Value, PublicKeyOf;
    FourBytes(b[..4]);
    FourBytes(b[9..13]);
    BytesOfValue(b[..4]);
    BytesOfValue(b[9..13]);
    var k := UnserializeKey(c, b).value;
    assert STRIPPED[0] == KEY_PUBLIC;
    assert b == b[..4] + [b[4]] + b[5..9] + b[9..13] + b[13..45] + b[45..];
    assert k.parent160[..4] == b[5..9];
  }

  /** The version a key is serialized with. */
  function WrittenVersion(version: uint32, public: bool): uint32 {
    if public && version == 0x0488ADE4 then 0x0488B21E
    else if public && version == 0x04358394 then 0x043587CF
    else version
  }

  /**
   The layout of BIP 32, "Serialization format": version, depth, fingerprint of the parent, child number, chain code and
   key, numbers with their most significant byte first; and which keys are refused.
   */
  lemma SerializedLayout(k: Key, public: bool)
    ensures SerializeKey(k, public).Some? <==>
            && (public || k.privKey[0] == 0)
            && (k.version in {0x0488ADE4, 0x04358394} || (k.privKey[0] != 0 && k.version in {0x0488B21E, 0x043587CF}))
            && (exists i :: 0 <= i < 32 && k.chainCode[i] != 0)
            && k.pubKey[0] in {2, 3} && (exists i :: 1 <= i < 33 && k.pubKey[i] != 0)
            && k.privKey[0] in {0, 1} && (k.privKey[0] == 0 ==> exists i :: 1 <= i < 33 && k.privKey[i] != 0)
            && (k.depth == 0 ==> forall i :: 0 <= i < 20 ==> k.parent160[i] == 0)
    ensures var r := SerializeKey(k, public);
            r.Some? ==>
              && |r.value| == 78
              && Value(r.value[..4], 256) == WrittenVersion(k.version, public) && r.value[4] == k.depth
              && r.value[5..9] == k.parent160[..4] && Value(r.value[9..13], 256) == k.childNum
              && r.value[13..45] == k.chainCode && r.value[45..] == if public then k.pubKey else k.privKey
  {
    hide BytesOf, Value;
    NotZero(k.chainCode, 0);
    NotZero(k.pubKey, 1);
    NotZero(k.privKey, 1);
    NotZero(k.parent160, 0);
    var version: uint32 := if public then VersionFor(k.version, false) else k.version;
    FourBytesOf(version);
    FourBytesOf(k.childNum);
    Fields(BytesOf(version, 4), k.depth, k.parent160[..4], BytesOf(k.childNum, 4), k.chainCode,
           if public then k.pubKey else k.privKey);
  }

  lemma NotZero(s: seq<byte>, from: nat)
    requires from <= |s|
    ensures s[from..] == Repeat(0, |s| - from) <==> forall i :: from <= i < |s| ==> s[i] == 0
    ensures from == 0 ==> s[from..] == s
  {
    if s[from..] == Repeat(0, |s| - from) {
      forall i | from <= i < |s|
        ensures s[i] == 0
      {
        assert s[i] == s[from..][i - from];
      }
    }
  }

  /**
   Which bytes are read: 78 with a known version, and a private key below the order behind a zero byte for a private
   one, or a public key that decodes for a public one.
   */
  lemma ReadIff(c: Curve, b: seq<byte>)
    ensures UnserializeKey(c, b).Some? <==>
            && |b| == 78
            && var version, v := Value(b[..4], 256), Value(b[46..], 256);
               if b[45] == 0 then version in {0x0488ADE4, 0x04358394} && 0 < v < c.order
               else version in {0x0488B21E, 0x043587CF} && c.decode(b[45..]).Some?
  {
    hide Value;
    if |b| == 78 { assert b[45..][1..] == b[46..]; }
  }

  /** Copies bytes to the output at a position and returns the position after them. */
  method CopyOut(dest: array<byte>, at: nat, src: seq<byte>) returns (next: nat)
    requires at + |src| <= dest.Length
    modifies dest
    ensures next == at + |src| && dest[..next] == old(dest[..at]) + src
  {
    forall i | 0 <= i < |src| { dest[at + i] := src[i]; }
    next := at + |src|;
    assert dest[..at] == old(dest[..at]) && dest[at..next] == src;
    assert dest[..next] == dest[..at] + dest[at..next];
  }

  /** bip32_key_serialize; otherFlags tells whether any flag but the public one was given. */
  method Serialize(hdkey: ExtKey, public: bool, otherFlags: bool, bytesOut: array<byte>) returns (ret: Status)
    modifies bytesOut
    ensures var b := SerializeKey(hdkey.Contents(), public);
            if otherFlags || b.None? || bytesOut.Length != SERIALIZED_LEN
            then ret == Einval && bytesOut[..] == old(bytesOut[..])
            else ret == Ok && bytesOut[..] == b.value
  {
    hide BytesOf;
    if otherFlags {
      return Einval;
    }
    var k := hdkey.Contents();
    if (!public && !IsPrivate(k)) || !KeyIsValid(k) || bytesOut.Length != SERIALIZED_LEN {
      return Einval;
    }
    var version := hdkey.version;
    if public {
      if version == VER_MAIN_PRIVATE {
        version := VER_MAIN_PUBLIC;
      } else if version == VER_TEST_PRIVATE {
        version := VER_TEST_PUBLIC;
      }
    }
    var out := CopyOut(bytesOut, 0, BytesOf(version, 4));
    bytesOut[out] := hdkey.depth;
    out := out + 1;
    assert bytesOut[..out] == BytesOf(version, 4) + [k.depth];
    out := CopyOut(bytesOut, out, hdkey.parent160[..FINGERPRINT_LEN]);
    out := CopyOut(bytesOut, out, BytesOf(hdkey.childNum, 4));
    out := CopyOut(bytesOut, out, hdkey.chainCode);
    out := CopyOut(bytesOut, out, if public then hdkey.pubKey else hdkey.privKey);
    assert bytesOut[..out] == bytesOut[..];
    return Ok;
  }

  /** bip32_key_unserialize: keyOut is wiped when the bytes are rejected, except for a wrong length. */
  method Unserialize(c: Curve, bytes: seq<byte>, keyOut: ExtKey) returns (ret: Status)
    modifies keyOut
    ensures var k := UnserializeKey(c, bytes);
            && ret == (if k.Some? then Ok else Einval)
            && keyOut.Contents() == if k.Some? then k.value
                                    else if |bytes| != SERIALIZED_LEN then old(keyOut.Contents()) else WIPED
  {
    hide Value, PublicKeyOf;
    if |bytes| != SERIALIZED_LEN {
      return Einval;
    }
    keyOut.Wipe();
    FourBytes(bytes[..4]);
    FourBytes(bytes[9..13]);
    keyOut.version := Value(bytes[..4], 256);
    if !VersionIsValid(keyOut.version, false) {
      keyOut.Wipe();
      return Einval;
    }
    keyOut.depth := bytes[4];
    keyOut.parent160 := bytes[5..9] + keyOut.parent160[FINGERPRINT_LEN..];
    keyOut.childNum := Value(bytes[9..13], 256);
    keyOut.chainCode := bytes[13..45];
    assert keyOut.parent160 == bytes[5..9] + Repeat(0, 16);
    var key: Bytes33 := bytes[45..];
    var isPublicVersion := keyOut.version == VER_MAIN_PUBLIC || keyOut.version == VER_TEST_PUBLIC;
    if key[0] == KEY_PRIVATE {
      if isPublicVersion {
        keyOut.Wipe();
        return Einval;
      }
      keyOut.privKey := key;
      var pub := PublicKeyOf(c, keyOut.privKey[1..]);
      if pub.None? {
        keyOut.Wipe();
        return Einval;
      }
      keyOut.pubKey := pub.value;
    } else {
      if !isPublicVersion || c.decode(key).None? {
        keyOut.Wipe();
        return Einval;
      }
      keyOut.pubKey := key;
      keyOut.StripPrivateKey();
    }
    keyOut.hash160 := c.hash160(keyOut.pubKey);
    return Ok;
  }
}
