/** AES in CBC mode with PKCS#7 padding: src/aes.c over an abstract block permutation. */
module AesCbc {
  import opened Common

  const BLOCK_LEN: nat := 16
  const FLAG_ENCRYPT: uint32 := 1
  const FLAG_DECRYPT: uint32 := 2

  type Block = b: seq<bv8> | |b| == BLOCK_LEN witness Repeat(0, BLOCK_LEN)

  /** The block functions of AES under keys of the three lengths. */
  datatype Aes = Aes(enc: (seq<bv8>, Block) -> Block, dec: (seq<bv8>, Block) -> Block)

  predicate IsValidKeyLen(n: nat) {
    n == 16 || n == 24 || n == 32
  }

  /** Decryption undoes encryption under the same key. */
  ghost predicate Inverse(aes: Aes, key: seq<bv8>) {
    forall b: Block :: aes.dec(key, aes.enc(key, b)) == b
  }

  function Xor(a: Block, b: Block): (c: Block)
    ensures forall i :: 0 <= i < BLOCK_LEN ==> c[i] == a[i] ^ b[i]
  {
    seq(BLOCK_LEN, i requires 0 <= i < BLOCK_LEN => a[i] ^ b[i])
  }

  lemma XorTwice(a: Block, b: Block)
    ensures Xor(Xor(a, b), b) == a
  {
    forall i | 0 <= i < BLOCK_LEN
      ensures Xor(Xor(a, b), b)[i] == a[i]
    {
      XorByte(a[i], b[i]);
    }
  }

  lemma XorByte(x: bv8, y: bv8)
    ensures (x ^ y) ^ y == x
  {
  }

  /** CBC encryption (section 6.2 of NIST SP 800-38A). */
  function Encrypt(aes: Aes, key: seq<bv8>, iv: Block, data: seq<bv8>): (c: seq<bv8>)
    requires |data| % BLOCK_LEN == 0
    ensures |c| == |data|
    decreases |data|
  {
    if data == [] then []
    else
      var block := aes.enc(key, Xor(data[..BLOCK_LEN], iv));
      block + Encrypt(aes, key, block, data[BLOCK_LEN..])
  }

  /** CBC decryption (section 6.2 of NIST SP 800-38A). */
  function Decrypt(aes: Aes, key: seq<bv8>, iv: Block, data: seq<bv8>): (p: seq<bv8>)
    requires |data| % BLOCK_LEN == 0
    ensures |p| == |data|
    decreases |data|
  {
    if data == [] then []
    else Xor(iv, aes.dec(key, data[..BLOCK_LEN])) + Decrypt(aes, key, data[..BLOCK_LEN], data[BLOCK_LEN..])
  }

  lemma XorCommutes(a: Block, b: Block)
    ensures Xor(a, b) == Xor(b, a)
  {
  }

  lemma {:induction false} DecryptEncrypt(aes: Aes, key: seq<bv8>, iv: Block, data: seq<bv8>)
    requires Inverse(aes, key) && |data| % BLOCK_LEN == 0
    ensures Decrypt(aes, key, iv, Encrypt(aes, key, iv, data)) == data
    decreases |data|
  {
    if data != [] {
      var x, rest := data[..BLOCK_LEN], data[BLOCK_LEN..];
      var c := aes.enc(key, Xor(x, iv));
      var all := Encrypt(aes, key, iv, data);
      assert all[..BLOCK_LEN] == c && all[BLOCK_LEN..] == Encrypt(aes, key, c, rest);
      DecryptEncrypt(aes, key, c, rest);
      XorTwice(x, iv);
      XorCommutes(iv, Xor(x, iv));
      assert data == x + rest;
    } else {
      assert Encrypt(aes, key, iv, []) == [];
    }
  }

  /** How many bytes of padding a message of n bytes gets: 1 to 16. */
  function PadLength(n: nat): (k: nat)
    ensures 1 <= k <= BLOCK_LEN && (n + k) % BLOCK_LEN == 0
  {
    BLOCK_LEN - n % BLOCK_LEN
  }

  function PadByte(k: nat): bv8
    requires k <= BLOCK_LEN
  {
    k as bv8
  }

  /** The padding of section 6.3 of RFC 5652: as many bytes as needed, each their number. */
  function Pad(bytes: seq<bv8>): (p: seq<bv8>)
    ensures |p| == (|bytes| / BLOCK_LEN + 1) * BLOCK_LEN
  {
    bytes + Repeat(PadByte(PadLength(|bytes|)), PadLength(|bytes|))
  }

  /** How much of the last block is message, from its last byte modulo the block length. The rest is not looked at. */
  function Remainder(last: bv8): (r: nat)
    ensures r < BLOCK_LEN
  {
    var r := BLOCK_LEN - (last as int) % BLOCK_LEN;
    if r == BLOCK_LEN then 0 else r
  }

  function Unpad(data: seq<bv8>): (bytes: seq<bv8>)
    requires |data| >= BLOCK_LEN
    ensures |bytes| < |data|
  {
    data[..|data| - BLOCK_LEN + Remainder(data[|data| - 1])]
  }

  lemma RemainderOfPad(k: nat)
    requires 1 <= k <= BLOCK_LEN
    ensures Remainder(PadByte(k)) == BLOCK_LEN - k
  {
  }

  lemma UnpadPad(bytes: seq<bv8>)
    ensures Unpad(Pad(bytes)) == bytes
  {
    RemainderOfPad(PadLength(|bytes|));
  }

  /** Whatever the length of a message, the key and the IV, decrypting what was encrypted gives the message back. */
  lemma RoundTrip(aes: Aes, key: seq<bv8>, iv: Block, bytes: seq<bv8>)
    requires Inverse(aes, key)
    ensures Unpad(Decrypt(aes, key, iv, Encrypt(aes, key, iv, Pad(bytes)))) == bytes
  {
    DecryptEncrypt(aes, key, iv, Pad(bytes));
    UnpadPad(bytes);
  }

  /** wally_aes_cbc_get_maximum_length, for valid arguments. */
  function MaximumLength(n: nat): nat {
    (n / BLOCK_LEN + 1) * BLOCK_LEN
  }

  /** The bytes a call produces. */
  function Output(aes: Aes, key: seq<bv8>, iv: Block, bytes: seq<bv8>, flags: uint32): (out: seq<bv8>)
    requires flags != FLAG_ENCRYPT ==> |bytes| % BLOCK_LEN == 0 && bytes != []
    ensures |out| <= MaximumLength(|bytes|) && (flags == FLAG_ENCRYPT ==> |out| == MaximumLength(|bytes|))
  {
    if flags == FLAG_ENCRYPT then Encrypt(aes, key, iv, Pad(bytes)) else Unpad(Decrypt(aes, key, iv, bytes))
  }

  lemma Shift(data: seq<bv8>, k: nat, i: nat, j: nat)
    requires i <= j && k + j <= |data|
    ensures data[k..][i..j] == data[k + i..k + j]
  {
    forall x | 0 <= x < j - i
      ensures data[k..][i..j][x] == data[k + i..k + j][x]
    {
    }
  }

  lemma DecryptFirst(aes: Aes, key: seq<bv8>, iv: Block, data: seq<bv8>)
    requires |data| % BLOCK_LEN == 0 && data != []
    ensures Decrypt(aes, key, iv, data)[..BLOCK_LEN] == Xor(iv, aes.dec(key, data[..BLOCK_LEN]))
    ensures Decrypt(aes, key, iv, data)[BLOCK_LEN..] == Decrypt(aes, key, data[..BLOCK_LEN], data[BLOCK_LEN..])
    ensures |data| == BLOCK_LEN ==> Decrypt(aes, key, iv, data) == Xor(iv, aes.dec(key, data))
  {
    if |data| == BLOCK_LEN {
      assert data[..BLOCK_LEN] == data;
      assert Decrypt(aes, key, data, data[BLOCK_LEN..]) == [];
    }
  }

  /** The last block decrypts with the block before it, or the IV if it is the only one. */
  lemma {:induction false} LastBlock(aes: Aes, key: seq<bv8>, iv: Block, data: seq<bv8>)
    requires |data| % BLOCK_LEN == 0 && data != []
    ensures var n := |data| - BLOCK_LEN;
            var prev := if n == 0 then iv else data[n - BLOCK_LEN..n];
            Decrypt(aes, key, iv, data)[n..] == Xor(prev, aes.dec(key, data[n..]))
    decreases |data|
  {
    hide Decrypt, Xor;
    var n, first, rest := |data| - BLOCK_LEN, data[..BLOCK_LEN], data[BLOCK_LEN..];
    DecryptFirst(aes, key, iv, data);
    if n == 0 {
      assert data[n..] == data[..BLOCK_LEN] == data;
    } else {
      LastBlock(aes, key, first, rest);
      assert rest[n - BLOCK_LEN..] == data[n..];
      if n > BLOCK_LEN { Shift(data, BLOCK_LEN, n - 2 * BLOCK_LEN, n - BLOCK_LEN); }
      assert Decrypt(aes, key, iv, data)[BLOCK_LEN..][n - BLOCK_LEN..] == Decrypt(aes, key, iv, data)[n..];
    }
  }

  /** The loops that combine two blocks into the buffer. */
  method XorInto(buf: array<bv8>, a: Block, b: Block)
    requires buf.Length == BLOCK_LEN
    modifies buf
    ensures buf[..] == Xor(a, b)
  {
    for n := 0 to BLOCK_LEN
      invariant forall k :: 0 <= k < n ==> buf[k] == a[k] ^ b[k]
    {
      buf[n] := a[n] ^ b[n];
    }
  }

  /**
   The last block of an encryption, the message's last bytes followed by the padding, combined with the block before.
   */
  method XorPadded(buf: array<bv8>, tail: seq<bv8>, iv: Block)
    requires buf.Length == BLOCK_LEN && |tail| < BLOCK_LEN
    modifies buf
    ensures |Pad(tail)| == BLOCK_LEN && buf[..] == Xor(Pad(tail), iv)
  {
    var n := 0;
    while n < |tail|
      invariant 0 <= n <= |tail|
      invariant forall k :: 0 <= k < n ==> buf[k] == tail[k] ^ iv[k]
    {
      buf[n] := tail[n] ^ iv[n];
      n := n + 1;
    }
    var remainder := BLOCK_LEN - |tail|;
    while n < BLOCK_LEN
      invariant |tail| <= n <= BLOCK_LEN
      invariant forall k :: 0 <= k < n ==> buf[k] == Pad(tail)[k] ^ iv[k]
    {
      buf[n] := PadByte(remainder) ^ iv[n];
      n := n + 1;
    }
  }

  /** b has been written at a place, the rest is as it was. */
  ghost predicate Placed(was: seq<bv8>, now: seq<bv8>, at: nat, b: seq<bv8>) {
    at + |b| <= |was| && now == was[..at] + b + was[at + |b|..]
  }

  lemma PlacedNothing(was: seq<bv8>, at: nat)
    requires at <= |was|
    ensures Placed(was, was, at, [])
  {
  }

  lemma PlacedAfter(was: seq<bv8>, mid: seq<bv8>, now: seq<bv8>, at: nat, b: seq<bv8>, c: seq<bv8>)
    requires Placed(was, mid, at, b) && Placed(mid, now, at + |b|, c)
    ensures Placed(was, now, at, b + c)
  {
  }

  lemma PlacedBefore(was: seq<bv8>, mid: seq<bv8>, now: seq<bv8>, at: nat, b: seq<bv8>, c: seq<bv8>)
    requires Placed(was, mid, at + |b|, c) && Placed(mid, now, at, b)
    ensures Placed(was, now, at, b + c)
  {
  }

  method Write(out: array<bv8>, at: nat, b: seq<bv8>)
    requires at + |b| <= out.Length
    modifies out
    ensures Placed(old(out[..]), out[..], at, b)
  {
    forall k | 0 <= k < |b| {
      out[at + k] := b[k];
    }
  }

  /** Unfolding the first block behind what is done. */
  lemma EncryptStep(aes: Aes, key: seq<bv8>, chain: Block, data: seq<bv8>, i: nat, done: seq<bv8>)
    requires |data| % BLOCK_LEN == 0 && (i + 1) * BLOCK_LEN <= |data|
    ensures var x, rest := data[i * BLOCK_LEN..(i + 1) * BLOCK_LEN], data[(i + 1) * BLOCK_LEN..];
            var c := aes.enc(key, Xor(x, chain));
            done + Encrypt(aes, key, chain, data[i * BLOCK_LEN..]) == done + c + Encrypt(aes, key, c, rest)
  {
    var d := data[i * BLOCK_LEN..];
    assert d[..BLOCK_LEN] == data[i * BLOCK_LEN..(i + 1) * BLOCK_LEN] && d[BLOCK_LEN..] == data[(i + 1) * BLOCK_LEN..];
  }

  lemma DecryptStep(aes: Aes, key: seq<bv8>, chain: Block, data: seq<bv8>, i: nat, done: seq<bv8>)
    requires |data| % BLOCK_LEN == 0 && (i + 1) * BLOCK_LEN <= |data|
    ensures var x, rest := data[i * BLOCK_LEN..(i + 1) * BLOCK_LEN], data[(i + 1) * BLOCK_LEN..];
            done + Decrypt(aes, key, chain, data[i * BLOCK_LEN..])
              == done + Xor(chain, aes.dec(key, x)) + Decrypt(aes, key, x, rest)
  {
    var d := data[i * BLOCK_LEN..];
    assert d[..BLOCK_LEN] == data[i * BLOCK_LEN..(i + 1) * BLOCK_LEN] && d[BLOCK_LEN..] == data[(i + 1) * BLOCK_LEN..];
  }

  /** A message and its padding by blocks: whole blocks of the message, then its tail padded. */
  lemma PadBlocks(bytes: seq<bv8>, i: nat)
    requires i <= |bytes| / BLOCK_LEN
    ensures i < |bytes| / BLOCK_LEN ==>
              Pad(bytes)[i * BLOCK_LEN..(i + 1) * BLOCK_LEN] == bytes[i * BLOCK_LEN..(i + 1) * BLOCK_LEN]
    ensures var n := |bytes| / BLOCK_LEN * BLOCK_LEN; Pad(bytes)[n..] == Pad(bytes[n..])
  {
  }

  /** The block loop of an encryption: what is done, and the block to chain on. */
  method EncryptBlocks(aes: Aes, key: seq<bv8>, iv: Block, bytes: seq<bv8>, blocks: nat, out: array<bv8>, at: nat)
      returns (chain: Block, ghost done: seq<bv8>)
    requires blocks == |bytes| / BLOCK_LEN && at + blocks * BLOCK_LEN <= out.Length
    modifies out
    ensures |done| == blocks * BLOCK_LEN && Placed(old(out[..]), out[..], at, done)
    ensures Encrypt(aes, key, iv, Pad(bytes)) == done + Encrypt(aes, key, chain, Pad(bytes)[blocks * BLOCK_LEN..])
  {
    hide Encrypt, Placed, Pad, Xor;
    var buf := new bv8[BLOCK_LEN];
    chain, done := iv, [];
    ghost var was, data := out[..], Pad(bytes);
    PlacedNothing(was, at);
    assert data[0..] == data;
    for i := 0 to blocks
      invariant |done| == i * BLOCK_LEN && Placed(was, out[..], at, done)
      invariant Encrypt(aes, key, iv, data) == done + Encrypt(aes, key, chain, data[i * BLOCK_LEN..])
    {
      PadBlocks(bytes, i);
      XorInto(buf, bytes[i * BLOCK_LEN..(i + 1) * BLOCK_LEN], chain);
      var c := aes.enc(key, buf[..]);
      EncryptStep(aes, key, chain, data, i, done);
      ghost var mid := out[..];
      Write(out, at + i * BLOCK_LEN, c);
      PlacedAfter(was, mid, out[..], at, done, c);
      chain, done := c, done + c;
    }
  }

  /** The encrypting half of wally_aes_cbc. */
  method EncryptInto(aes: Aes, key: seq<bv8>, iv: Block, bytes: seq<bv8>, out: array<bv8>, at: nat)
    requires at + MaximumLength(|bytes|) <= out.Length
    modifies out
    ensures Placed(old(out[..]), out[..], at, Encrypt(aes, key, iv, Pad(bytes)))
  {
    hide Encrypt, Placed, Pad, Xor;
    var blocks := |bytes| / BLOCK_LEN;
    ghost var was := out[..];
    var chain, done := EncryptBlocks(aes, key, iv, bytes, blocks, out, at);
    var buf := new bv8[BLOCK_LEN];
    XorPadded(buf, bytes[blocks * BLOCK_LEN..], chain);
    var c := aes.enc(key, buf[..]);
    EncryptLast(aes, key, chain, bytes, done);
    ghost var mid := out[..];
    Write(out, at + blocks * BLOCK_LEN, c);
    PlacedAfter(was, mid, out[..], at, done, c);
  }

  /** Behind the whole blocks of a message comes the block of its tail and the padding. */
  lemma EncryptLast(aes: Aes, key: seq<bv8>, chain: Block, bytes: seq<bv8>, done: seq<bv8>)
    ensures var n := |bytes| / BLOCK_LEN * BLOCK_LEN;
            && |Pad(bytes[n..])| == BLOCK_LEN
            && done + Encrypt(aes, key, chain, Pad(bytes)[n..]) == done + aes.enc(key, Xor(Pad(bytes[n..]), chain))
  {
    hide Pad, Xor;
    var n := |bytes| / BLOCK_LEN * BLOCK_LEN;
    PadBlocks(bytes, |bytes| / BLOCK_LEN);
    var d := Pad(bytes[n..]);
    var c := aes.enc(key, Xor(d, chain));
    assert d[..BLOCK_LEN] == d;
    assert Encrypt(aes, key, c, d[BLOCK_LEN..]) == [];
  }

  /** The block loop of a decryption, over all blocks but the last. */
  method DecryptInto(aes: Aes, key: seq<bv8>, iv: Block, bytes: seq<bv8>, blocks: nat, out: array<bv8>, at: nat)
    requires |bytes| == (blocks + 1) * BLOCK_LEN && at + blocks * BLOCK_LEN <= out.Length
    modifies out
    ensures Placed(old(out[..]), out[..], at, Decrypt(aes, key, iv, bytes)[..blocks * BLOCK_LEN])
  {
    hide Decrypt, Placed, Xor;
    var buf := new bv8[BLOCK_LEN];
    var chain: Block := iv;
    ghost var was, done := out[..], [];
    PlacedNothing(was, at);
    assert bytes[0..] == bytes;
    for i := 0 to blocks
      invariant |done| == i * BLOCK_LEN && Placed(was, out[..], at, done)
      invariant Decrypt(aes, key, iv, bytes) == done + Decrypt(aes, key, chain, bytes[i * BLOCK_LEN..])
    {
      var x: Block := bytes[i * BLOCK_LEN..(i + 1) * BLOCK_LEN];
      XorInto(buf, chain, aes.dec(key, x));
      DecryptStep(aes, key, chain, bytes, i, done);
      ghost var mid := out[..];
      Write(out, at + i * BLOCK_LEN, buf[..]);
      PlacedAfter(was, mid, out[..], at, done, buf[..]);
      chain, done := x, done + buf[..];
    }
    assert Decrypt(aes, key, iv, bytes)[..blocks * BLOCK_LEN] == done;
  }

  /** The last block is decrypted first, to see from its last byte how much of it is message. */
  method DecryptLast(aes: Aes, key: seq<bv8>, iv: Block, bytes: seq<bv8>) returns (buf: array<bv8>, remainder: nat)
    requires |bytes| % BLOCK_LEN == 0 && bytes != []
    ensures fresh(buf) && buf.Length == BLOCK_LEN && remainder < BLOCK_LEN
    ensures var plain, n := Decrypt(aes, key, iv, bytes), |bytes| - BLOCK_LEN;
            Unpad(plain) == plain[..n] + buf[..remainder] && |Unpad(plain)| == n + remainder
  {
    hide Decrypt, Xor, Remainder;
    var blocks := |bytes| / BLOCK_LEN - 1;
    buf := new bv8[BLOCK_LEN];
    var last: Block := bytes[blocks * BLOCK_LEN..];
    var prev: Block := if blocks == 0 then iv else bytes[(blocks - 1) * BLOCK_LEN..blocks * BLOCK_LEN];
    XorInto(buf, prev, aes.dec(key, last));
    LastBlock(aes, key, iv, bytes);
    remainder := Remainder(buf[BLOCK_LEN - 1]);
    LastOf(Decrypt(aes, key, iv, bytes), buf[..]);
  }

  lemma LastOf(plain: seq<bv8>, block: Block)
    requires |plain| >= BLOCK_LEN && plain[|plain| - BLOCK_LEN..] == block
    ensures Unpad(plain) == plain[..|plain| - BLOCK_LEN] + block[..Remainder(block[BLOCK_LEN - 1])]
    ensures |Unpad(plain)| == |plain| - BLOCK_LEN + Remainder(block[BLOCK_LEN - 1])
  {
    hide Remainder;
    assert plain == plain[..|plain| - BLOCK_LEN] + block;
  }

  /** The decrypting half of wally_aes_cbc. */
  method DecryptTo(aes: Aes, key: seq<bv8>, iv: Block, bytes: seq<bv8>, out: array<bv8>, at: nat, len: nat)
      returns (written: nat)
    requires |bytes| % BLOCK_LEN == 0 && bytes != [] && at + len <= out.Length
    modifies out
    ensures var b := Unpad(Decrypt(aes, key, iv, bytes));
            written == |b| && if |b| <= len then Placed(old(out[..]), out[..], at, b) else out[..] == old(out[..])
  {
    hide Decrypt, Placed, Unpad;
    ghost var was := out[..];
    var buf, remainder := DecryptLast(aes, key, iv, bytes);
    var blocks := |bytes| / BLOCK_LEN - 1;
    written := blocks * BLOCK_LEN + remainder;
    if len < written || written == 0 {
      PlacedNothing(was, at);
      return;
    }
    Write(out, at + blocks * BLOCK_LEN, buf[..remainder]);
    ghost var mid := out[..];
    DecryptInto(aes, key, iv, bytes, blocks, out, at);
    PlacedBefore(was, mid, out[..], at, Decrypt(aes, key, iv, bytes)[..blocks * BLOCK_LEN], buf[..remainder]);
  }

  /** The argument checks of are_valid_aes_cbc_args, with no NULL pointers. */
  predicate ValidArgs(key: seq<bv8>, iv: seq<bv8>, n: nat, flags: uint32, len: nat) {
    && IsValidKeyLen(|key|)
    && (flags == FLAG_ENCRYPT || flags == FLAG_DECRYPT)
    && |iv| == BLOCK_LEN
    && if flags == FLAG_ENCRYPT then len % BLOCK_LEN == 0 else n % BLOCK_LEN == 0
  }

  /** wally_aes_cbc_get_maximum_length */
  method GetMaximumLength(key: seq<bv8>, iv: seq<bv8>, bytes: seq<bv8>, flags: uint32)
      returns (ret: Status, written: nat)
    ensures if ValidArgs(key, iv, |bytes|, flags, 0) then ret == Ok && written == MaximumLength(|bytes|)
            else ret == Einval && written == 0
  {
    if !ValidArgs(key, iv, |bytes|, flags, 0) {
      return Einval, 0;
    }
    return Ok, (|bytes| / BLOCK_LEN + 1) * BLOCK_LEN;
  }

  /**
   wally_aes_cbc, writing at a place of the output that has room for len bytes. Without enough room nothing is
   written but the length needed. Decryption needs at least one block.
   */
  method AesCbc(aes: Aes, key: seq<bv8>, iv: seq<bv8>, bytes: seq<bv8>, flags: uint32, out: array<bv8>, at: nat,
      len: nat)
      returns (ret: Status, written: nat)
    requires at + len <= out.Length && (flags == FLAG_DECRYPT ==> bytes != [])
    modifies out
    ensures if !ValidArgs(key, iv, |bytes|, flags, len) then ret == Einval && written == 0 && out[..] == old(out[..])
            else
              var b := Output(aes, key, iv, bytes, flags);
              && ret == Ok && written == |b|
              && if |b| <= len then Placed(old(out[..]), out[..], at, b) else out[..] == old(out[..])
  {
    hide Encrypt, Decrypt, Placed, Xor, Pad, Unpad;
    if !ValidArgs(key, iv, |bytes|, flags, len) {
      return Einval, 0;
    }
    if flags == FLAG_ENCRYPT {
      written := (|bytes| / BLOCK_LEN + 1) * BLOCK_LEN;
      if len >= written {
        EncryptInto(aes, key, iv, bytes, out, at);
      }
    } else {
      written := DecryptTo(aes, key, iv, bytes, out, at, len);
    }
    ret := Ok;
  }
}
