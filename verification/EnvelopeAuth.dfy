/** What an ECDH envelope authenticates: which calls decrypt, and what an encryption consists of. */
module EnvelopeAuth {
  import opened Common
  import opened AesCbc
  import opened EcdhEnvelope

  /** The arguments of a call, apart from the output. */
  ghost predicate IsCall(call: Call, flags: uint32) {
    && call.flags == flags && |call.priv| == 32 && |call.pub| == 33 && call.labelBytes != []
    && if flags == 1 then |call.iv| == 16 && call.bytes != []
       else call.iv == [] && |call.bytes| >= 64 && |call.bytes| % 16 == 0
  }

  /** The two keys of a call: HMAC-SHA512 of the label under the shared secret, the first half for AES. */
  ghost function KeysOf(c: Crypto, call: Call): Bytes64 {
    c.hmac512(c.ecdh(call.pub, call.priv).secret, call.labelBytes)
  }

  /** The last 32 bytes are the HMAC of all before them under the second half of the keys. */
  ghost predicate Authentic(c: Crypto, keys: Bytes64, data: seq<bv8>) {
    |data| >= 32 && data[|data| - 32..] == c.hmac256(keys[32..], data[..|data| - 32])
  }

  /** Arguments of no kind are refused, and a buffer that is too small is told what it takes; both before anything. */
  lemma CallsAnswered(c: Crypto, call: Call, len: nat)
    ensures var n := |call.bytes|;
            var need := if call.flags == 1 then 16 + (n / 16 + 1) * 16 + 32 else n - 48;
            if len == 0 || !(IsCall(call, 1) || IsCall(call, 2)) then
              CbcWithEcdhKey(c, call, len) == Reply(Einval, 0, [])
            else if need > len then CbcWithEcdhKey(c, call, len) == Reply(Ok, need, [])
            else
              c.ecdh(call.pub, call.priv).ret != Ok ==>
                CbcWithEcdhKey(c, call, len)
                == Reply(c.ecdh(call.pub, call.priv).ret, 0, if call.flags == 1 then call.iv else [])
  {
    hide Seal, Open;
  }

  /**
   With a working ECDH and room, a decryption succeeds if and only if the HMAC is that of what precedes it, and then
   answers the CBC decryption of what is between IV and HMAC. Otherwise it is refused and nothing is written.
   */
  lemma DecryptsIfAuthentic(c: Crypto, call: Call, len: nat)
    requires IsCall(call, 2) && c.ecdh(call.pub, call.priv).ret == Ok && len >= |call.bytes| - 48
    ensures var r, keys, n := CbcWithEcdhKey(c, call, len), KeysOf(c, call), |call.bytes| - 32;
            && (r.ret == Ok <==> Authentic(c, keys, call.bytes))
            && r == if r.ret == Ok then
                      var p := AesCbc.Output(c.aes, keys[..32], call.bytes[..16], call.bytes[16..n], 2);
                      Reply(Ok, |p|, p)
                    else Reply(Einval, 0, [])
  {
    hide Unpad, Decrypt;
    var n := |call.bytes| - 32;
    assert call.bytes[..n][..16] == call.bytes[..16] && call.bytes[..n][16..] == call.bytes[16..n];
  }

  /** With a working ECDH and room, an encryption is the IV, the CBC encryption of the bytes, and the HMAC of both. */
  lemma EncryptsAuthentic(c: Crypto, call: Call, len: nat)
    requires IsCall(call, 1) && c.ecdh(call.pub, call.priv).ret == Ok && len >= 16 + (|call.bytes| / 16 + 1) * 16 + 32
    ensures var r, keys := CbcWithEcdhKey(c, call, len), KeysOf(c, call);
            && r.ret == Ok && r.written == |r.output| == 16 + (|call.bytes| / 16 + 1) * 16 + 32
            && r.output[..16] == call.iv && Authentic(c, keys, r.output)
            && r.output[16..r.written - 32] == AesCbc.Output(c.aes, keys[..32], call.iv, call.bytes, 1)
  {
    hide Pad, Encrypt;
    var keys := KeysOf(c, call);
    var p := Encrypt(c.aes, keys[..32], call.iv, Pad(call.bytes));
    var body := call.iv + p;
    var s := Seal(c, keys, call.iv, call.bytes);
    assert s[..|s| - 32] == body && s[|s| - 32..] == c.hmac256(keys[32..], body);
    assert s[16..|s| - 32] == body[16..] == p && s[..16] == body[..16] == call.iv;
  }

  /** So a genuine envelope is refused once its HMAC is changed, or what precedes it to something of another HMAC. */
  lemma ChangedIsRefused(c: Crypto, call: Call, was: seq<bv8>, len: nat)
    requires IsCall(call, 2) && c.ecdh(call.pub, call.priv).ret == Ok && len >= |call.bytes| - 48
    requires |was| == |call.bytes| && was != call.bytes && Authentic(c, KeysOf(c, call), was)
    requires var n := |was| - 32;
             || was[..n] == call.bytes[..n]
             || (was[n..] == call.bytes[n..] &&
                 c.hmac256(KeysOf(c, call)[32..], was[..n]) != c.hmac256(KeysOf(c, call)[32..], call.bytes[..n]))
    ensures CbcWithEcdhKey(c, call, len) == Reply(Einval, 0, [])
  {
    hide CbcWithEcdhKey;
    DecryptsIfAuthentic(c, call, len);
    var n := |was| - 32;
    assert was == was[..n] + was[n..] && call.bytes == call.bytes[..n] + call.bytes[n..];
  }
}
