/** Plain CBC over whole blocks: the reference the ciphertext-stealing mode is
    measured against. Each function consumes the message one block at a time
    from the front, carrying the chaining value. */
module Cbc {
  import opened Bytes
  import opened BlockCipher

  /** `len` is a whole number of `n`-byte blocks. */
  predicate Aligned(len: nat, n: nat)
    requires n > 0
    decreases len
  {
    len == 0 || (len >= n && Aligned(len - n, n))
  }

  /** `k` blocks are aligned. */
  lemma {:induction false} AlignedBlocks(k: nat, n: nat)
    requires n > 0
    ensures Aligned(k * n, n)
    decreases k
  {
    if k > 0 {
      assert k * n == (k - 1) * n + n;
      AlignedBlocks(k - 1, n);
    }
  }

  /** CBC encryption of the blocks of `p` from chaining value `iv`: the first
      block is xored with the chaining value and encrypted, and its ciphertext
      is the chaining value for the rest. */
  function CbcEncrypt(b: Cipher, iv: seq<byte>, p: seq<byte>): (c: seq<byte>)
    requires |iv| == b.size && Aligned(|p|, b.size)
    ensures |c| == |p|
    decreases |p|
  {
    if |p| == 0 then []
    else
      var c0 := Encipher(b, Xor(p[..b.size], iv));
      c0 + CbcEncrypt(b, c0, p[b.size..])
  }

  /** The chaining value after CBC-encrypting the blocks of `p`. */
  function CbcChain(b: Cipher, iv: seq<byte>, p: seq<byte>): (r: seq<byte>)
    requires |iv| == b.size && Aligned(|p|, b.size)
    ensures |r| == b.size
    decreases |p|
  {
    if |p| == 0 then iv
    else CbcChain(b, Encipher(b, Xor(p[..b.size], iv)), p[b.size..])
  }

  /** CBC decryption of the blocks of `c` from chaining value `iv`: the first
      block is decrypted and xored with the chaining value, and is itself the
      chaining value for the rest. */
  function CbcDecrypt(b: Cipher, iv: seq<byte>, c: seq<byte>): (p: seq<byte>)
    requires |iv| == b.size && Aligned(|c|, b.size)
    ensures |p| == |c|
    decreases |c|
  {
    if |c| == 0 then []
    else Xor(Decipher(b, c[..b.size]), iv) + CbcDecrypt(b, c[..b.size], c[b.size..])
  }

  /** The chaining value after CBC-decrypting the blocks of `c`: the last
      block consumed, or `iv` when there was none. */
  function DecryptChain(iv: seq<byte>, c: seq<byte>, n: nat): (r: seq<byte>)
    requires n > 0 && |iv| == n && Aligned(|c|, n)
    ensures |r| == n
    decreases |c|
  {
    if |c| == 0 then iv else DecryptChain(c[..n], c[n..], n)
  }

  /** The chaining value after encryption is the last ciphertext block. */
  lemma {:induction false} CbcChainIsLastBlock(b: Cipher, iv: seq<byte>, p: seq<byte>)
    requires |iv| == b.size && Aligned(|p|, b.size)
    ensures CbcChain(b, iv, p) == DecryptChain(iv, CbcEncrypt(b, iv, p), b.size)
    decreases |p|
  {
    if |p| > 0 {
      var n := b.size;
      var c0 := Encipher(b, Xor(p[..n], iv));
      var c := CbcEncrypt(b, iv, p);
      assert c[..n] == c0 && c[n..] == CbcEncrypt(b, c0, p[n..]);
      CbcChainIsLastBlock(b, c0, p[n..]);
    }
  }

  /** CBC decryption undoes CBC encryption. */
  lemma {:induction false} CbcRoundTrip(b: Cipher, iv: seq<byte>, p: seq<byte>)
    requires Invertible(b) && |iv| == b.size && Aligned(|p|, b.size)
    ensures CbcDecrypt(b, iv, CbcEncrypt(b, iv, p)) == p
    decreases |p|
  {
    if |p| > 0 {
      var n := b.size;
      var c0 := Encipher(b, Xor(p[..n], iv));
      var c := CbcEncrypt(b, iv, p);
      assert c[..n] == c0 && c[n..] == CbcEncrypt(b, c0, p[n..]);
      CbcRoundTrip(b, c0, p[n..]);
      XorTwice(p[..n], iv);
      assert p == p[..n] + p[n..];
    }
  }

  /** CBC encryption undoes CBC decryption when the cipher is a permutation. */
  lemma {:induction false} CbcDecryptRoundTrip(b: Cipher, iv: seq<byte>, c: seq<byte>)
    requires Surjective(b) && |iv| == b.size && Aligned(|c|, b.size)
    ensures CbcEncrypt(b, iv, CbcDecrypt(b, iv, c)) == c
    decreases |c|
  {
    if |c| > 0 {
      var n := b.size;
      var x0 := Xor(Decipher(b, c[..n]), iv);
      var p := CbcDecrypt(b, iv, c);
      assert p[..n] == x0 && p[n..] == CbcDecrypt(b, c[..n], c[n..]);
      XorTwice(Decipher(b, c[..n]), iv);
      CbcDecryptRoundTrip(b, c[..n], c[n..]);
      assert c == c[..n] + c[n..];
    }
  }

  /** Encrypting a CBC decryption ends on the chaining value that the
      decryption ended on. */
  lemma {:induction false} CbcDecryptChainAgrees(b: Cipher, iv: seq<byte>, c: seq<byte>)
    requires Surjective(b) && |iv| == b.size && Aligned(|c|, b.size)
    ensures CbcChain(b, iv, CbcDecrypt(b, iv, c)) == DecryptChain(iv, c, b.size)
    decreases |c|
  {
    if |c| > 0 {
      var n := b.size;
      var x0 := Xor(Decipher(b, c[..n]), iv);
      var p := CbcDecrypt(b, iv, c);
      assert p[..n] == x0 && p[n..] == CbcDecrypt(b, c[..n], c[n..]);
      XorTwice(Decipher(b, c[..n]), iv);
      CbcDecryptChainAgrees(b, c[..n], c[n..]);
    }
  }
}
