/** What AES-CBC writes, block by block, and the padding of section 6.3 of RFC 5652. */
module CbcBlocks {
  import opened Common
  import opened AesCbc

  /** Byte j of block i. */
  function At(data: seq<bv8>, i: nat, j: nat): bv8
    requires 16 * i + j < |data|
  {
    data[16 * i + j]
  }

  /** What block i is combined with: the IV, or the encrypted block before it. */
  function Chain(iv: Block, cipher: seq<bv8>, i: nat): Block
    requires 16 * i <= |cipher|
  {
    if i == 0 then iv else cipher[16 * (i - 1)..16 * i]
  }

  /** Block i of the cipher is the encryption of block i of the plain bytes combined with its chain block. */
  ghost predicate BlockEncrypted(aes: Aes, key: seq<bv8>, iv: Block, plain: seq<bv8>, cipher: seq<bv8>, i: nat)
    requires 16 * i + 16 <= |plain| == |cipher|
  {
    exists x: Block :: aes.enc(key, x) == cipher[16 * i..16 * i + 16]
                       && forall j :: 0 <= j < 16 ==> x[j] == At(plain, i, j) ^ Chain(iv, cipher, i)[j]
  }

  /** Section 6.2 of NIST SP 800-38A, encryption. */
  ghost predicate IsCbc(aes: Aes, key: seq<bv8>, iv: Block, plain: seq<bv8>, cipher: seq<bv8>) {
    && |plain| == |cipher| && |plain| % 16 == 0
    && forall i: nat :: 16 * i + 16 <= |plain| ==> BlockEncrypted(aes, key, iv, plain, cipher, i)
  }

  /** Block i of the plain bytes is the decryption of block i of the cipher, combined with its chain block. */
  ghost predicate BlockDecrypted(aes: Aes, key: seq<bv8>, iv: Block, cipher: seq<bv8>, plain: seq<bv8>, i: nat)
    requires 16 * i + 16 <= |plain| == |cipher|
  {
    forall j :: 0 <= j < 16 ==>
      At(plain, i, j) == aes.dec(key, cipher[16 * i..16 * i + 16])[j] ^ Chain(iv, cipher, i)[j]
  }

  /** Section 6.2 of NIST SP 800-38A, decryption. */
  ghost predicate IsPlain(aes: Aes, key: seq<bv8>, iv: Block, cipher: seq<bv8>, plain: seq<bv8>) {
    && |plain| == |cipher| && |plain| % 16 == 0
    && forall i: nat :: 16 * i + 16 <= |plain| ==> BlockDecrypted(aes, key, iv, cipher, plain, i)
  }

  /** The padding: as many bytes as it takes to the next whole block, at least one, each of them their number. */
  ghost predicate IsPadding(n: nat, p: seq<bv8>) {
    && 1 <= |p| <= 16 && (n + |p|) % 16 == 0
    && forall i :: 0 <= i < |p| ==> p[i] as int == |p|
  }

  lemma {:induction false} EncryptChains(aes: Aes, key: seq<bv8>, iv: Block, data: seq<bv8>)
    requires |data| % 16 == 0
    ensures IsCbc(aes, key, iv, data, Encrypt(aes, key, iv, data))
    decreases |data|
  {
    hide Encrypt, Xor;
    var cipher := Encrypt(aes, key, iv, data);
    if data != [] {
      var x, rest := Xor(data[..16], iv), data[16..];
      EncryptFirst(aes, key, iv, data);
      EncryptChains(aes, key, cipher[..16], rest);
      forall i: nat | 16 * i + 16 <= |data|
        ensures BlockEncrypted(aes, key, iv, data, cipher, i)
      {
        if i == 0 {
          assert forall j :: 0 <= j < 16 ==> x[j] == At(data, 0, j) ^ Chain(iv, cipher, 0)[j];
        } else {
          NextBlock(aes, key, iv, data, cipher, i);
        }
      }
    }
  }

  lemma EncryptFirst(aes: Aes, key: seq<bv8>, iv: Block, data: seq<bv8>)
    requires |data| % 16 == 0 && data != []
    ensures var cipher := Encrypt(aes, key, iv, data);
            && cipher[..16] == aes.enc(key, Xor(data[..16], iv))
            && cipher[16..] == Encrypt(aes, key, cipher[..16], data[16..])
  {
  }

  /** A block behind the first is a block of what is behind the first. */
  lemma NextBlock(aes: Aes, key: seq<bv8>, iv: Block, plain: seq<bv8>, cipher: seq<bv8>, i: nat)
    requires 0 < i && 16 * i + 16 <= |plain| == |cipher|
    requires BlockEncrypted(aes, key, cipher[..16], plain[16..], cipher[16..], i - 1)
    ensures BlockEncrypted(aes, key, iv, plain, cipher, i)
  {
    SameChain(iv, cipher, i);
    var x: Block :| aes.enc(key, x) == cipher[16..][16 * (i - 1)..16 * (i - 1) + 16]
                    && forall j :: 0 <= j < 16 ==>
                      x[j] == At(plain[16..], i - 1, j) ^ Chain(cipher[..16], cipher[16..], i - 1)[j];
    Shift(cipher, 16, 16 * (i - 1), 16 * i);
    forall j | 0 <= j < 16
      ensures x[j] == At(plain, i, j) ^ Chain(iv, cipher, i)[j]
    {
      assert At(plain[16..], i - 1, j) == At(plain, i, j);
    }
  }

  lemma SameChain(iv: Block, cipher: seq<bv8>, i: nat)
    requires 0 < i && 16 * i + 16 <= |cipher|
    ensures Chain(cipher[..16], cipher[16..], i - 1) == Chain(iv, cipher, i)
  {
    if i > 1 { Shift(cipher, 16, 16 * (i - 2), 16 * (i - 1)); }
  }

  lemma {:induction false} DecryptUnchains(aes: Aes, key: seq<bv8>, iv: Block, data: seq<bv8>)
    requires |data| % 16 == 0
    ensures IsPlain(aes, key, iv, data, Decrypt(aes, key, iv, data))
    decreases |data|
  {
    hide Decrypt, Xor;
    var plain := Decrypt(aes, key, iv, data);
    if data != [] {
      DecryptFirst(aes, key, iv, data);
      DecryptUnchains(aes, key, data[..16], data[16..]);
      forall i: nat | 16 * i + 16 <= |data|
        ensures BlockDecrypted(aes, key, iv, data, plain, i)
      {
        if i == 0 {
          FirstPlain(aes, key, iv, data, plain);
        } else {
          NextPlain(aes, key, iv, data, plain, i);
        }
      }
    }
  }

  lemma FirstPlain(aes: Aes, key: seq<bv8>, iv: Block, cipher: seq<bv8>, plain: seq<bv8>)
    requires 16 <= |plain| == |cipher| && plain[..16] == Xor(iv, aes.dec(key, cipher[..16]))
    ensures BlockDecrypted(aes, key, iv, cipher, plain, 0)
  {
    hide Xor;
    forall j | 0 <= j < 16
      ensures At(plain, 0, j) == aes.dec(key, cipher[0..16])[j] ^ iv[j]
    {
      assert At(plain, 0, j) == plain[..16][j];
      XorSwap(iv[j], aes.dec(key, cipher[..16])[j]);
    }
  }

  lemma XorSwap(a: bv8, b: bv8)
    ensures a ^ b == b ^ a
  {
  }

  lemma NextPlain(aes: Aes, key: seq<bv8>, iv: Block, cipher: seq<bv8>, plain: seq<bv8>, i: nat)
    requires 0 < i && 16 * i + 16 <= |plain| == |cipher|
    requires BlockDecrypted(aes, key, cipher[..16], cipher[16..], plain[16..], i - 1)
    ensures BlockDecrypted(aes, key, iv, cipher, plain, i)
  {
    SameChain(iv, cipher, i);
    Shift(cipher, 16, 16 * (i - 1), 16 * i);
    forall j | 0 <= j < 16
      ensures At(plain, i, j) == aes.dec(key, cipher[16 * i..16 * i + 16])[j] ^ Chain(iv, cipher, i)[j]
    {
      assert At(plain[16..], i - 1, j) == At(plain, i, j);
    }
  }

  /** Only one byte string is the decryption. */
  lemma PlainUnique(aes: Aes, key: seq<bv8>, iv: Block, cipher: seq<bv8>, a: seq<bv8>, b: seq<bv8>)
    requires IsPlain(aes, key, iv, cipher, a) && IsPlain(aes, key, iv, cipher, b)
    ensures a == b
  {
    forall k | 0 <= k < |a|
      ensures a[k] == b[k]
    {
      var i, j := k / 16, k % 16;
      assert BlockDecrypted(aes, key, iv, cipher, a, i) && BlockDecrypted(aes, key, iv, cipher, b, i);
      assert At(a, i, j) == At(b, i, j);
    }
  }

  lemma PaddingOf(bytes: seq<bv8>) returns (p: seq<bv8>)
    ensures IsPadding(|bytes|, p) && Pad(bytes) == bytes + p
  {
    p := Repeat(PadByte(PadLength(|bytes|)), PadLength(|bytes|));
  }

  /** An encryption is the CBC of the message and its padding. */
  lemma EncryptionIsCbc(aes: Aes, key: seq<bv8>, iv: Block, bytes: seq<bv8>) returns (p: seq<bv8>)
    ensures IsPadding(|bytes|, p) && IsCbc(aes, key, iv, bytes + p, AesCbc.Output(aes, key, iv, bytes, 1))
  {
    p := PaddingOf(bytes);
    EncryptChains(aes, key, iv, bytes + p);
  }

  /**
   A decryption is the decrypted blocks up to what their last byte leaves of the last block: modulo 16 it is the
   number of bytes that are cut off, 16 for 0.
   */
  lemma DecryptionIsPlain(aes: Aes, key: seq<bv8>, iv: Block, bytes: seq<bv8>) returns (plain: seq<bv8>)
    requires |bytes| % 16 == 0 && bytes != []
    ensures IsPlain(aes, key, iv, bytes, plain)
    ensures var last := plain[|plain| - 1] as int;
            var cut := if last % 16 == 0 then 16 else last % 16;
            AesCbc.Output(aes, key, iv, bytes, 2) == plain[..|plain| - cut]
  {
    hide Decrypt;
    plain := Decrypt(aes, key, iv, bytes);
    DecryptUnchains(aes, key, iv, bytes);
  }

  /** Decrypting what an encryption wrote, block by block, gives the message followed by its padding. */
  lemma PaddingFound(aes: Aes, key: seq<bv8>, iv: Block, bytes: seq<bv8>, plain: seq<bv8>)
    requires Inverse(aes, key) && IsPlain(aes, key, iv, AesCbc.Output(aes, key, iv, bytes, 1), plain)
    ensures bytes <= plain && IsPadding(|bytes|, plain[|bytes|..])
  {
    hide Encrypt, Decrypt, Pad, IsPlain, IsPadding, Inverse;
    var p := PaddingOf(bytes);
    DecryptUnchains(aes, key, iv, Encrypt(aes, key, iv, bytes + p));
    DecryptEncrypt(aes, key, iv, bytes + p);
    PlainUnique(aes, key, iv, AesCbc.Output(aes, key, iv, bytes, 1), plain, bytes + p);
    assert (bytes + p)[|bytes|..] == p;
  }

  /** Which arguments are accepted: a key of 128, 192 or 256 bits, an IV of one block, a flag, and whole blocks. */
  lemma ArgumentsAccepted(key: seq<bv8>, iv: seq<bv8>, n: nat, flags: uint32, len: nat)
    ensures ValidArgs(key, iv, n, flags, len) <==>
            && |key| in {16, 24, 32} && |iv| == 16
            && ((flags == 1 && len % 16 == 0) || (flags == 2 && n % 16 == 0))
  {
  }

  /** The announced length is that of the message with its padding. */
  lemma AnnouncedLength(bytes: seq<bv8>, p: seq<bv8>)
    requires IsPadding(|bytes|, p)
    ensures AesCbc.MaximumLength(|bytes|) == |bytes + p|
  {
  }
}
