/** Authenticated encryption between two key pairs: wally_aes_cbc_with_ecdh_key of src/aes.c. */
module EcdhEnvelope {
  import opened Common
  import opened AesCbc

  const HMAC_LEN: nat := 32
  const KEY_LEN: nat := 32
  const PUBLIC_KEY_LEN: nat := 33

  type Bytes32 = b: seq<bv8> | |b| == 32 witness Repeat(0, 32)
  type Bytes64 = b: seq<bv8> | |b| == 64 witness Repeat(0, 64)

  /** The answer of wally_ecdh. */
  datatype Shared = Shared(ret: Status, secret: Bytes32)

  /** The primitives: ECDH of a public and a private key, HMAC with SHA-256 and SHA-512. */
  datatype Crypto = Crypto(aes: Aes, ecdh: (seq<bv8>, seq<bv8>) -> Shared,
                           hmac256: (seq<bv8>, seq<bv8>) -> Bytes32, hmac512: (seq<bv8>, seq<bv8>) -> Bytes64)

  /** Everything but the output buffer of a call; no IV is an empty one. */
  datatype Call = Call(priv: seq<bv8>, iv: seq<bv8>, bytes: seq<bv8>, pub: seq<bv8>, labelBytes: seq<bv8>,
      flags: uint32)

  /** wally_aes_cbc_with_ecdh_key_get_maximum_length; None for invalid arguments. */
  function MaximumLength(call: Call): Option<nat> {
    var n := |call.bytes|;
    if |call.priv| != KEY_LEN || |call.pub| != PUBLIC_KEY_LEN || call.labelBytes == []
       || (call.flags != FLAG_ENCRYPT && call.flags != FLAG_DECRYPT) then None
    else if call.flags == FLAG_ENCRYPT then
      if |call.iv| != BLOCK_LEN || n == 0 then None
      else Some(BLOCK_LEN + HMAC_LEN + (n / BLOCK_LEN + 1) * BLOCK_LEN)
    else if call.iv != [] || n < BLOCK_LEN + BLOCK_LEN + HMAC_LEN then None
    else if (n - BLOCK_LEN - HMAC_LEN) % BLOCK_LEN != 0 then None
    else Some(n - BLOCK_LEN - HMAC_LEN)
  }

  /** The IV, the encrypted payload and the HMAC of both. */
  function Seal(c: Crypto, keys: Bytes64, iv: Block, bytes: seq<bv8>): (s: seq<bv8>)
    ensures |s| == BLOCK_LEN + HMAC_LEN + (|bytes| / BLOCK_LEN + 1) * BLOCK_LEN
  {
    var body := iv + Encrypt(c.aes, keys[..KEY_LEN], iv, Pad(bytes));
    body + c.hmac256(keys[KEY_LEN..], body)
  }

  /** The payload, if the HMAC is that of what precedes it. */
  function Open(c: Crypto, keys: Bytes64, data: seq<bv8>): (p: Option<seq<bv8>>)
    requires |data| >= BLOCK_LEN + BLOCK_LEN + HMAC_LEN && (|data| - BLOCK_LEN - HMAC_LEN) % BLOCK_LEN == 0
    ensures p.Some? ==> |p.value| < |data| - BLOCK_LEN - HMAC_LEN
  {
    var body := data[..|data| - HMAC_LEN];
    if c.hmac256(keys[KEY_LEN..], body) != data[|data| - HMAC_LEN..] then None
    else Some(Unpad(Decrypt(c.aes, keys[..KEY_LEN], body[..BLOCK_LEN], body[BLOCK_LEN..])))
  }

  /** What a call answers, and the bytes it leaves at the start of the output. */
  datatype Reply = Reply(ret: Status, written: nat, output: seq<bv8>)

  /** wally_aes_cbc_with_ecdh_key with an output of len bytes. If ECDH fails the IV has already been copied. */
  function CbcWithEcdhKey(c: Crypto, call: Call, len: nat): (r: Reply)
    ensures |r.output| <= len
  {
    var expected := MaximumLength(call);
    if len == 0 || expected.None? then Reply(Einval, 0, [])
    else if expected.value > len then Reply(Ok, expected.value, [])
    else
      var encrypting := call.flags == FLAG_ENCRYPT;
      var shared := c.ecdh(call.pub, call.priv);
      var keys := c.hmac512(shared.secret, call.labelBytes);
      if shared.ret != Ok then Reply(shared.ret, 0, if encrypting then call.iv else [])
      else if encrypting then Reply(Ok, expected.value, Seal(c, keys, call.iv, call.bytes))
      else
        var p := Open(c, keys, call.bytes);
        if p.None? then Reply(Einval, 0, []) else Reply(Ok, |p.value|, p.value)
  }

  lemma OpenSeal(c: Crypto, keys: Bytes64, iv: Block, bytes: seq<bv8>)
    requires Inverse(c.aes, keys[..KEY_LEN])
    ensures Open(c, keys, Seal(c, keys, iv, bytes)) == Some(bytes)
  {
    hide Encrypt, Decrypt, Pad, Unpad, Inverse;
    var body := iv + Encrypt(c.aes, keys[..KEY_LEN], iv, Pad(bytes));
    var s := Seal(c, keys, iv, bytes);
    assert s[..|s| - HMAC_LEN] == body && s[|s| - HMAC_LEN..] == c.hmac256(keys[KEY_LEN..], body);
    assert body[..BLOCK_LEN] == iv && body[BLOCK_LEN..] == Encrypt(c.aes, keys[..KEY_LEN], iv, Pad(bytes));
    AesCbc.RoundTrip(c.aes, keys[..KEY_LEN], iv, bytes);
  }

  /**
   Two parties who agree on the shared secret and the label: what one encrypts, of any length but 0, the other decrypts.
   The encryption is as long as announced and the decryption shorter than announced.
   */
  lemma RoundTrip(c: Crypto, alice: Call, bob: Call, room: nat, room': nat)
    requires MaximumLength(bob).Some? && bob.flags == FLAG_ENCRYPT && room >= MaximumLength(bob).value
    requires c.ecdh(bob.pub, bob.priv).ret == Ok
    requires Inverse(c.aes, c.hmac512(c.ecdh(bob.pub, bob.priv).secret, bob.labelBytes)[..KEY_LEN])
    requires alice.bytes == CbcWithEcdhKey(c, bob, room).output && alice.flags == FLAG_DECRYPT && alice.iv == []
    requires |alice.priv| == KEY_LEN && |alice.pub| == PUBLIC_KEY_LEN && alice.labelBytes == bob.labelBytes
    requires c.ecdh(alice.pub, alice.priv) == c.ecdh(bob.pub, bob.priv)
    requires room' >= |alice.bytes| - BLOCK_LEN - HMAC_LEN
    ensures var sealed := CbcWithEcdhKey(c, bob, room);
            sealed.ret == Ok && sealed.written == |sealed.output| == MaximumLength(bob).value
    ensures MaximumLength(alice).Some? && |bob.bytes| < MaximumLength(alice).value
    ensures CbcWithEcdhKey(c, alice, room') == Reply(Ok, |bob.bytes|, bob.bytes)
  {
    hide Seal, Open, Inverse;
    OpenSeal(c, c.hmac512(c.ecdh(bob.pub, bob.priv).secret, bob.labelBytes), bob.iv, bob.bytes);
  }

  lemma PlacedFirst(was: seq<bv8>, now: seq<bv8>, b: seq<bv8>)
    requires Placed(was, now, 0, b)
    ensures now == b + was[|b|..] && now[..|b|] == b
  {
    assert was[..0] == [];
  }

  /** The encrypting branch, once the keys are there: the payload behind the IV, then the HMAC. */
  method SealInto(c: Crypto, keys: Bytes64, iv: Block, bytes: seq<bv8>, out: array<bv8>, len: nat)
      returns (ret: Status, written: nat)
    requires BLOCK_LEN + HMAC_LEN + (|bytes| / BLOCK_LEN + 1) * BLOCK_LEN <= len <= out.Length
    requires out[..BLOCK_LEN] == iv
    modifies out
    ensures ret == Ok && written == |Seal(c, keys, iv, bytes)|
    ensures Placed(old(out[..]), out[..], 0, Seal(c, keys, iv, bytes))
  {
    hide Encrypt, Pad, Placed, AesCbc.Output, ValidArgs, AesCbc.MaximumLength;
    ghost var was := out[..];
    PlacedAlready(was, iv);
    var outLen := (len - BLOCK_LEN - HMAC_LEN) / BLOCK_LEN * BLOCK_LEN;
    WholeBlocks(keys, iv, |bytes|, len);
    ret, written := AesCbc.AesCbc(c.aes, keys[..KEY_LEN], iv, bytes, FLAG_ENCRYPT, out, BLOCK_LEN, outLen);
    EncryptedOutput(c.aes, keys[..KEY_LEN], iv, bytes);
    written := written + BLOCK_LEN;
    ghost var mid, payload := out[..], Encrypt(c.aes, keys[..KEY_LEN], iv, Pad(bytes));
    PlacedAfter(was, was, mid, 0, iv, payload);
    PlacedFirst(was, mid, iv + payload);
    assert out[..written] == mid[..written];
    var hmac := c.hmac256(keys[KEY_LEN..], out[..written]);
    Write(out, written, hmac);
    PlacedAfter(was, mid, out[..], 0, iv + payload, hmac);
    written := written + HMAC_LEN;
  }

  /** The room for the payload, rounded down to whole blocks, still holds it. */
  lemma WholeBlocks(keys: Bytes64, iv: Block, n: nat, len: nat)
    requires BLOCK_LEN + HMAC_LEN + (n / BLOCK_LEN + 1) * BLOCK_LEN <= len
    ensures var outLen := (len - BLOCK_LEN - HMAC_LEN) / BLOCK_LEN * BLOCK_LEN;
            && ValidArgs(keys[..KEY_LEN], iv, n, FLAG_ENCRYPT, outLen)
            && AesCbc.MaximumLength(n) == (n / BLOCK_LEN + 1) * BLOCK_LEN <= outLen <= len - BLOCK_LEN - HMAC_LEN
  {
  }

  lemma PlacedAlready(was: seq<bv8>, b: seq<bv8>)
    requires |b| <= |was| && was[..|b|] == b
    ensures Placed(was, was, 0, b)
  {
    assert was == b + was[|b|..];
    assert was[..0] == [];
  }

  lemma EncryptedOutput(aes: Aes, key: seq<bv8>, iv: Block, bytes: seq<bv8>)
    ensures Output(aes, key, iv, bytes, FLAG_ENCRYPT) == Encrypt(aes, key, iv, Pad(bytes))
  {
  }

  /** wally_aes_cbc_with_ecdh_key. The last branch is never taken. */
  method CbcWithEcdhKeyInto(c: Crypto, call: Call, out: array<bv8>, len: nat) returns (ret: Status, written: nat)
    requires len <= out.Length
    modifies out
    ensures var r := CbcWithEcdhKey(c, call, len);
            ret == r.ret && written == r.written && out[..] == r.output + old(out[|r.output|..])
    ensures ret == Error ==> c.ecdh(call.pub, call.priv).ret == Error
  {
    hide Encrypt, Decrypt, Pad, Unpad, Seal;
    if len == 0 {
      return Einval, 0;
    }
    var expected := MaximumLength(call);
    if expected.None? {
      return Einval, 0;
    }
    if expected.value > len {
      return Ok, expected.value;
    }
    ghost var was := out[..];
    var encrypting := call.flags == FLAG_ENCRYPT;
    if encrypting {
      Write(out, 0, call.iv);
      PlacedFirst(was, out[..], call.iv);
    }
    ghost var mid := out[..];
    var shared := c.ecdh(call.pub, call.priv);
    if shared.ret != Ok {
      return shared.ret, 0;
    }
    var keys := c.hmac512(shared.secret, call.labelBytes);
    if encrypting {
      ret, written := SealInto(c, keys, call.iv, call.bytes, out, len);
      PlacedFirst(mid, out[..], Seal(c, keys, call.iv, call.bytes));
      assert mid[written..] == was[written..];
    } else {
      var n := |call.bytes| - HMAC_LEN;
      var hmac := c.hmac256(keys[KEY_LEN..], call.bytes[..n]);
      if hmac != call.bytes[n..] {
        return Einval, 0;
      }
      var outLen := len / BLOCK_LEN * BLOCK_LEN;
      ghost var body := call.bytes[..n];
      assert body[..BLOCK_LEN] == call.bytes[..BLOCK_LEN] && body[BLOCK_LEN..] == call.bytes[BLOCK_LEN..n];
      ret, written := AesCbc.AesCbc(c.aes, keys[..KEY_LEN], call.bytes[..BLOCK_LEN], call.bytes[BLOCK_LEN..n],
                                    FLAG_DECRYPT, out, 0, outLen);
      PlacedFirst(was, out[..], Unpad(Decrypt(c.aes, keys[..KEY_LEN], call.bytes[..BLOCK_LEN],
          call.bytes[BLOCK_LEN..n])));
    }
    if ret == Ok && written > expected.value {
      ret := Error;
    }
  }
}
