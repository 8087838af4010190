/** The CTS-3 (Kerberos) ciphertext-stealing block mode: the state shared by
    both directions, the encrypter and the decrypter. Each `CryptBlocks` is
    proved to leave in `dst` and in the chaining value exactly what the
    functions of `CtsSpec` describe, or to panic before touching anything. */
module CtsMode {
  import opened Wrappers
  import opened Bytes
  import opened BlockCipher
  import opened Cbc
  import opened CtsSpec

  /** The reasons the mode panics. */
  datatype Error =
    | InvalidIvLength  // the IV is not one block long
    | InputTooShort    // the input is not longer than one block
    | OutputTooSmall   // the output is shorter than the input

  /** How `CryptBlocks` ends: normally, or with a panic that happens before
      anything is written. */
  datatype Outcome = Done | Panic(error: Error)

  /** The state of the mode: the block cipher and its block size, the
      chaining value `iv` and the scratch blocks `tmp` and `tmp2`. */
  class Cts {
    const b: Cipher
    const iv: array<byte>
    const tmp: array<byte>
    const tmp2: array<byte>

    /** The three buffers are distinct and one block long. */
    ghost predicate Valid()
    {
      && iv.Length == b.size && tmp.Length == b.size && tmp2.Length == b.size
      && iv != tmp && iv != tmp2 && tmp != tmp2
    }

    /** `newCTS`: a private copy of the IV and two zeroed scratch blocks. */
    constructor (b: Cipher, ivIn: array<byte>)
      ensures this.b == b
      ensures fresh(iv) && fresh(tmp) && fresh(tmp2)
      ensures iv[..] == ivIn[..] && tmp[..] == Zeros(b.size) && tmp2[..] == Zeros(b.size)
      ensures Valid() <==> ivIn.Length == b.size
    {
      this.b := b;
      var c := Clone(ivIn);
      iv := c;
      tmp := new byte[b.size](_ => 0);
      tmp2 := new byte[b.size](_ => 0);
      new;
      assert tmp[..] == Zeros(b.size) && tmp2[..] == Zeros(b.size);
    }

    /** The xor-with-`iv` loop followed by `b.Encrypt(iv, tmp)`: the block in
        `tmp` is chained and encrypted into `iv`. */
    method ChainEncrypt()
      requires Valid()
      modifies tmp, iv
      ensures tmp[..] == Xor(old(tmp[..]), old(iv[..]))
      ensures iv[..] == Encipher(b, tmp[..])
    {
      XorBlock(tmp, iv[..]);
      ghost var v0 := iv[..];
      EncryptBlock(b, iv, 0, tmp[..]);
      assert tmp[..][..b.size] == tmp[..];
      WriteWhole(v0, Encipher(b, tmp[..]));
    }

    /** `copy(tmp, block)`, `ChainEncrypt` and `copy(dst[at:], iv)`: a whole
        block is chained and encrypted into `iv`, which is stored at `at`. */
    method EncryptStore(dst: array<byte>, at: nat, block: seq<byte>)
      requires Valid() && dst != iv && dst != tmp
      requires b.size <= |block| && at <= dst.Length
      modifies tmp, iv, dst
      ensures tmp[..] == Xor(block[..b.size], old(iv[..]))
      ensures iv[..] == Encipher(b, tmp[..])
      ensures dst[..] == Write(old(dst[..]), at, iv[..])
    {
      Load(tmp, block);
      ChainEncrypt();
      var _ := Copy(dst, at, iv[..]);
    }

    /** `b.Decrypt(dst[off:], blk)` followed by the loop xoring `iv` into the
        decrypted block. */
    method DecryptChain(dst: array<byte>, off: nat, blk: seq<byte>)
      requires Valid() && dst != iv
      requires b.size <= |blk| && off + b.size <= dst.Length
      modifies dst
      ensures dst[..] == Write(old(dst[..]), off, Xor(Decipher(b, blk[..b.size]), old(iv[..])))
    {
      ghost var d0 := dst[..];
      ghost var x := Decipher(b, blk[..b.size]);
      DecryptBlock(b, dst, off, blk);
      WriteSlice(d0, off, x);
      XorInto(dst, off, iv[..]);
      WriteTwice(d0, off, x, Xor(x, iv[..]));
    }

    /** The final input block: the final block `rest`, of `tail` bytes,
        copied into `tmp` and zero-padded by the loop clearing the rest. */
    method PadLast(rest: seq<byte>, tail: nat)
      requires Valid() && 0 < tail == |rest| <= b.size
      modifies tmp
      ensures tmp[..] == ZeroPad(rest, b.size)
    {
      var n := b.size;
      ghost var t1 := tmp[..];
      var _ := Copy(tmp, 0, rest);
      for i := tail to n
        invariant forall j :: 0 <= j < n ==>
          tmp[j] == if j < tail then rest[j] else if j < i then 0 else t1[j]
      {
        tmp[i] := 0;
      }
      assert tmp[..] == ZeroPad(rest, n) by {
        var z := ZeroPad(rest, n);
        assert forall j | 0 <= j < n :: tmp[j] == z[j];
      }
    }

    /** Build the final input block from `rest`, of `tail` bytes, chain and
        encrypt it into `iv`, and store that at `at`, the place of the block
        before. */
    method EncryptLast(dst: array<byte>, at: nat, rest: seq<byte>, tail: nat)
      requires Valid() && dst != iv && dst != tmp
      requires 0 < tail == |rest| <= b.size && at <= dst.Length
      modifies dst, iv, tmp
      ensures tmp[..] == Xor(ZeroPad(rest, b.size), old(iv[..]))
      ensures iv[..] == Encipher(b, tmp[..])
      ensures dst[..] == Write(old(dst[..]), at, iv[..])
    {
      PadLast(rest, tail);
      ChainEncrypt();
      var _ := Copy(dst, at, iv[..]);
    }

    /** Ciphertext block `numBlocks-2` decrypted into `tmp`, and the full
        last block rebuilt in `tmp2`: the `tail` transmitted bytes that
        follow that block in `rest`, then the bytes of `tmp` after them. */
    method RebuildLast(rest: seq<byte>, tail: nat)
      requires Valid() && b.size < |rest| <= 2 * b.size && tail == |rest| - b.size
      modifies tmp, tmp2
      ensures tmp[..] == Decipher(b, rest[..b.size])
      ensures tmp2[..] == Rebuilt(b, rest)
    {
      var n := b.size;
      ghost var t0 := tmp[..];
      DecryptBlock(b, tmp, 0, rest);
      ghost var d := Decipher(b, rest[..n]);
      WriteWhole(t0, d);
      ghost var u0 := tmp2[..];
      var _ := Copy(tmp2, 0, rest[n..]);
      var _ := Copy(tmp2, tail, tmp[tail..]);
      WriteAdjacent(u0, rest[n..], d[tail..]);
      WriteWhole(u0, rest[n..] + d[tail..]);
    }

    /** Plaintext block `numBlocks-2`: the rebuilt block in `tmp2` is
        decrypted into `dst` at `off` and chained; then it becomes `iv`. */
    method DecryptRebuilt(dst: array<byte>, off: nat)
      requires Valid() && dst != iv && dst != tmp && dst != tmp2
      requires off + b.size <= dst.Length
      modifies dst, iv
      ensures dst[..] == Write(old(dst[..]), off, Xor(Decipher(b, tmp2[..]), old(iv[..])))
      ensures iv[..] == tmp2[..]
    {
      DecryptChain(dst, off, tmp2[..]);
      assert tmp2[..][..b.size] == tmp2[..];
      Load(iv, tmp2[..]);
      assert tmp2[..][..b.size] == tmp2[..];
    }

    /** The final plaintext block: `iv` is xored into `tmp`, whose first
        `tail` bytes are the output at `off`. */
    method FinishLast(dst: array<byte>, off: nat, tail: nat)
      requires Valid() && dst != iv && dst != tmp && dst != tmp2
      requires tail <= b.size && off <= dst.Length
      modifies dst, tmp
      ensures tmp[..] == Xor(old(tmp[..]), iv[..])
      ensures dst[..] == Write(old(dst[..]), off, tmp[..tail])
    {
      XorBlock(tmp, iv[..]);
      var _ := Copy(dst, off, tmp[..tail]);
    }

    /** The last two blocks `rest`, starting at `off`: `RebuildLast`, then
        `DecryptRebuilt` for plaintext block `numBlocks-2`, then `FinishLast`
        for the final one. */
    method DecryptLast(dst: array<byte>, off: nat, rest: seq<byte>, tail: nat)
      requires Valid() && dst != iv && dst != tmp && dst != tmp2
      requires b.size < |rest| <= 2 * b.size && tail == |rest| - b.size
      requires off + |rest| <= dst.Length
      modifies dst, iv, tmp, tmp2
      ensures tmp2[..] == Rebuilt(b, rest) && iv[..] == Rebuilt(b, rest)
      ensures tmp[..] == FinalOutput(b, rest)
      ensures dst[..] == Write(Write(old(dst[..]), off, Xor(Decipher(b, Rebuilt(b, rest)), old(iv[..]))),
        off + b.size, FinalOutput(b, rest)[..tail])
    {
      RebuildLast(rest, tail);
      DecryptRebuilt(dst, off);
      FinishLast(dst, off + b.size, tail);
    }
  }

  /** The loop counter arithmetic of both directions: with `k` whole blocks
      still to go after the current one and a final block of `tail` bytes,
      the rest of the input holds more than two blocks exactly when `k >= 2`
      and more than one exactly when `k >= 1`. */
  lemma {:induction false} RestLength(k: nat, n: nat, tail: nat)
    requires 0 < tail <= n
    ensures Mul(k, n) + tail > 2 * n <==> k >= 2
    ensures Mul(k, n) + tail > n <==> k >= 1
    ensures k >= 1 ==> Mul(k, n) == Mul(k - 1, n) + n
    ensures k == 1 ==> Mul(k, n) == n
  {
    if k >= 2 {
      assert Mul(k, n) == Mul(k - 2, n) + n + n;
    } else if k == 1 {
      assert Mul(k, n) == n by { assert Mul(0, n) == 0; }
    }
  }

  /** The block count of a `length`-byte message of `n`-byte blocks, whose
      last block holds `tail` bytes, and where block `i` is: at `off`,
      with `len` bytes from there to the end. */
  ghost predicate Counting(n: nat, length: nat, numBlocks: nat, tail: nat, i: nat, off: nat, len: nat)
  {
    && 0 < n < length && 0 < tail <= n && i < numBlocks
    && off + len == length && len == Mul(numBlocks - 1 - i, n) + tail
    && (i + 2 < numBlocks <==> len > 2 * n)
    && (i + 1 < numBlocks <==> len > n)
    && (i + 2 == numBlocks ==> len == n + tail)
    && (i + 1 == numBlocks ==> len == tail)
  }

  /** The loop counter arithmetic at the start: a message of more than one
      block has at least two, and block 0 is all of it. */
  lemma {:induction false} CountStart(length: nat, n: nat, numBlocks: nat, tail: nat)
    requires 0 < n < length
    requires numBlocks == NumBlocks(length, n) && tail == Tail(length, n)
    ensures numBlocks >= 2 && Counting(n, length, numBlocks, tail, 0, 0, length)
  {
    ModeBlocks(length, n);
    BlocksAndTail(length, n);
    RestLength(numBlocks - 1, n, tail);
  }

  /** The next block starts `n` bytes further on. */
  lemma {:induction false} CountStep(n: nat, length: nat, numBlocks: nat, tail: nat, i: nat, off: nat, len: nat)
    requires Counting(n, length, numBlocks, tail, i, off, len) && i + 1 < numBlocks
    ensures len > n && Counting(n, length, numBlocks, tail, i + 1, off + n, len - n)
  {
    RestLength(numBlocks - 1 - i, n, tail);
    RestLength(numBlocks - 2 - i, n, tail);
  }

  /** The state of the encrypting loop before iteration `i`, whose block
      starts at `off` and is the head of `rest`, the input not yet read.
      Before the last iteration the output so far is `out`, written at the
      start of `dst`, and the rest of the layout is the layout of `rest`.
      After it, `rest` is the final block, `off` its start, and the stolen
      block `v` has been written there. */
  ghost predicate Encrypting(b: Cipher, iv0: seq<byte>, src: seq<byte>, d0: seq<byte>, numBlocks: nat,
    tail: nat, i: nat, off: nat, rest: seq<byte>, out: seq<byte>, v: seq<byte>, d: seq<byte>)
  {
    && Counting(b.size, |src|, numBlocks, tail, i, off, |rest|)
    && |iv0| == b.size && |v| == b.size && |src| <= |d0|
    && (i < numBlocks - 1 ==>
         && |out| == off
         && EncryptLayout(b, iv0, src) == out + EncryptLayout(b, v, rest)
         && FinalInput(b, iv0, src) == FinalInput(b, v, rest)
         && d == Write(d0, 0, out))
    && (i == numBlocks - 1 ==>
         && |out| + b.size == off
         && EncryptLayout(b, iv0, src) == out + Encipher(b, Xor(ZeroPad(rest, b.size), v)) + v
         && FinalInput(b, iv0, src) == Xor(ZeroPad(rest, b.size), v)
         && d == Write(Write(d0, 0, out), off, v))
  }

  /** The encrypting loop starts in its invariant. */
  lemma {:induction false} EncryptStart(b: Cipher, iv0: seq<byte>, src: seq<byte>, d0: seq<byte>,
    numBlocks: nat, tail: nat)
    requires |iv0| == b.size && b.size < |src| <= |d0|
    requires numBlocks == NumBlocks(|src|, b.size) && tail == Tail(|src|, b.size)
    ensures Encrypting(b, iv0, src, d0, numBlocks, tail, 0, 0, src, [], iv0, d0)
  {
    CountStart(|src|, b.size, numBlocks, tail);
    WriteEmpty(d0, EncryptLayout(b, iv0, src));
  }

  /** An iteration of the encrypting loop before the last one keeps its
      invariant: the block at the head of `rest` is chained into `v'` and
      stored at `off`. */
  lemma {:induction false} EncryptRound(b: Cipher, iv0: seq<byte>, src: seq<byte>, d0: seq<byte>,
    numBlocks: nat, tail: nat, i: nat, off: nat, rest: seq<byte>, out: seq<byte>, v: seq<byte>, d: seq<byte>,
    v': seq<byte>, d': seq<byte>)
    requires Encrypting(b, iv0, src, d0, numBlocks, tail, i, off, rest, out, v, d)
    requires i + 2 < numBlocks
    requires v' == Encipher(b, Xor(rest[..b.size], v)) && d' == Write(d, off, v')
    ensures Encrypting(b, iv0, src, d0, numBlocks, tail, i + 1, off + b.size, rest[b.size..], out + v', v', d')
  {
    CountStep(b.size, |src|, numBlocks, tail, i, off, |rest|);
    CbcEncryptStep(b, iv0, src, d0, rest, out, v, d, v', d');
  }

  /** A block of standard CBC encryption: with more than two blocks left in
      `rest`, encrypting its head into `v'` moves `v'` from the layout of
      `rest` to the output, and leaves the final input unchanged. */
  lemma {:induction false} CbcEncryptStep(b: Cipher, iv0: seq<byte>, src: seq<byte>, d0: seq<byte>,
    rest: seq<byte>, out: seq<byte>, v: seq<byte>, d: seq<byte>, v': seq<byte>, d': seq<byte>)
    requires |iv0| == b.size && |v| == b.size && b.size < |src| && |rest| > 2 * b.size
    requires |out| + b.size <= |d0|
    requires EncryptLayout(b, iv0, src) == out + EncryptLayout(b, v, rest)
    requires FinalInput(b, iv0, src) == FinalInput(b, v, rest)
    requires d == Write(d0, 0, out)
    requires v' == Encipher(b, Xor(rest[..b.size], v)) && d' == Write(d, |out|, v')
    ensures EncryptLayout(b, iv0, src) == out + v' + EncryptLayout(b, v', rest[b.size..])
    ensures FinalInput(b, iv0, src) == FinalInput(b, v', rest[b.size..])
    ensures d' == Write(d0, 0, out + v')
  {
    var n := b.size;
    assert EncryptLayout(b, v, rest) == v' + EncryptLayout(b, v', rest[n..]);
    ConcatAssoc(out, v', EncryptLayout(b, v', rest[n..]));
    WriteAdjacent(d0, out, v');
  }

  /** The last iteration of the encrypting loop keeps its invariant: the
      second-to-last block is chained into the stolen block `v'`, which is
      stored one block further on, where the final block starts. */
  lemma {:induction false} EncryptStolen(b: Cipher, iv0: seq<byte>, src: seq<byte>, d0: seq<byte>,
    numBlocks: nat, tail: nat, i: nat, off: nat, rest: seq<byte>, out: seq<byte>, v: seq<byte>, d: seq<byte>,
    v': seq<byte>, d': seq<byte>)
    requires Encrypting(b, iv0, src, d0, numBlocks, tail, i, off, rest, out, v, d)
    requires i + 2 == numBlocks
    requires v' == Encipher(b, Xor(rest[..b.size], v)) && d' == Write(d, off + b.size, v')
    ensures Encrypting(b, iv0, src, d0, numBlocks, tail, i + 1, off + b.size, rest[b.size..], out, v', d')
  {
    var n := b.size;
    CountStep(n, |src|, numBlocks, tail, i, off, |rest|);
    ConcatAssoc(out, Encipher(b, Xor(ZeroPad(rest[n..], n), v')), v');
  }

  /** After the loop and the final block, the encrypter's output holds the
      whole ciphertext layout and its chaining value is the last one. */
  lemma {:induction false} EncryptFinish(b: Cipher, iv0: seq<byte>, src: seq<byte>, d0: seq<byte>,
    numBlocks: nat, tail: nat, off: nat, rest: seq<byte>, out: seq<byte>, v: seq<byte>, d: seq<byte>,
    t: seq<byte>, v': seq<byte>, d': seq<byte>)
    requires numBlocks >= 1
    requires Encrypting(b, iv0, src, d0, numBlocks, tail, numBlocks - 1, off, rest, out, v, d)
    requires t == Xor(ZeroPad(rest, b.size), v) && v' == Encipher(b, t)
    requires d' == Write(d, off - b.size, v')
    ensures t == FinalInput(b, iv0, src) && v' == EncryptNextIV(b, iv0, src)
    ensures d' == Write(d0, 0, EncryptLayout(b, iv0, src))
    ensures d'[..|src|] == Encrypt(b, iv0, src)
  {
    WriteTriple(d0, out, v', v);
    EncryptIsLayoutPrefix(b, iv0, src);
    WritePrefix(d0, EncryptLayout(b, iv0, src), |src|);
  }

  /** The state of the decrypting loop before iteration `i`, whose block
      starts at `off` and is the head of `rest`, the input not yet read:
      `dst` holds the plaintext `out` so far, the rest of the plaintext is
      the decryption of `rest` under the chaining value `v`, and the last
      two blocks are those of `rest`. */
  ghost predicate Decrypting(b: Cipher, iv0: seq<byte>, src: seq<byte>, d0: seq<byte>, numBlocks: nat,
    tail: nat, i: nat, off: nat, rest: seq<byte>, out: seq<byte>, v: seq<byte>, d: seq<byte>)
  {
    && Counting(b.size, |src|, numBlocks, tail, i, off, |rest|) && i + 2 <= numBlocks
    && |iv0| == b.size && |v| == b.size && |src| <= |d0| && |out| == off
    && Decrypt(b, iv0, src) == out + Decrypt(b, v, rest)
    && DecryptNextIV(b, src) == DecryptNextIV(b, rest)
    && Penultimate(src, b.size) == Penultimate(rest, b.size)
    && d == Write(d0, 0, out)
  }

  /** The decrypting loop starts in its invariant. */
  lemma {:induction false} DecryptStart(b: Cipher, iv0: seq<byte>, src: seq<byte>, d0: seq<byte>,
    numBlocks: nat, tail: nat)
    requires |iv0| == b.size && b.size < |src| <= |d0|
    requires numBlocks == NumBlocks(|src|, b.size) && tail == Tail(|src|, b.size)
    ensures Decrypting(b, iv0, src, d0, numBlocks, tail, 0, 0, src, [], iv0, d0)
  {
    CountStart(|src|, b.size, numBlocks, tail);
    WriteEmpty(d0, Decrypt(b, iv0, src));
  }

  /** One iteration of the decrypting loop keeps its invariant: the block
      at the head of `rest` is decrypted, chained and stored at `off`, and
      becomes the chaining value. */
  lemma {:induction false} DecryptRound(b: Cipher, iv0: seq<byte>, src: seq<byte>, d0: seq<byte>,
    numBlocks: nat, tail: nat, i: nat, off: nat, rest: seq<byte>, out: seq<byte>, v: seq<byte>, d: seq<byte>,
    x: seq<byte>, d': seq<byte>)
    requires Decrypting(b, iv0, src, d0, numBlocks, tail, i, off, rest, out, v, d)
    requires i < numBlocks - 2
    requires x == Xor(Decipher(b, rest[..b.size]), v) && d' == Write(d, off, x)
    ensures Decrypting(b, iv0, src, d0, numBlocks, tail, i + 1, off + b.size, rest[b.size..], out + x,
      rest[..b.size], d')
  {
    CountStep(b.size, |src|, numBlocks, tail, i, off, |rest|);
    CbcStep(b, iv0, src, d0, rest, out, v, d, x, d');
  }

  /** A block of standard CBC decryption: with more than two blocks left in
      `rest`, decrypting its head into `x` moves `x` from the decryption of
      `rest` to the output, and leaves the last two blocks in place. */
  lemma {:induction false} CbcStep(b: Cipher, iv0: seq<byte>, src: seq<byte>, d0: seq<byte>, rest: seq<byte>,
    out: seq<byte>, v: seq<byte>, d: seq<byte>, x: seq<byte>, d': seq<byte>)
    requires |iv0| == b.size && |v| == b.size && b.size < |src| && |rest| > 2 * b.size
    requires |out| + b.size <= |d0|
    requires Decrypt(b, iv0, src) == out + Decrypt(b, v, rest)
    requires DecryptNextIV(b, src) == DecryptNextIV(b, rest)
    requires Penultimate(src, b.size) == Penultimate(rest, b.size)
    requires d == Write(d0, 0, out)
    requires x == Xor(Decipher(b, rest[..b.size]), v) && d' == Write(d, |out|, x)
    ensures Decrypt(b, iv0, src) == out + x + Decrypt(b, rest[..b.size], rest[b.size..])
    ensures DecryptNextIV(b, src) == DecryptNextIV(b, rest[b.size..])
    ensures Penultimate(src, b.size) == Penultimate(rest[b.size..], b.size)
    ensures d' == Write(d0, 0, out + x)
  {
    var n := b.size;
    assert Decrypt(b, v, rest) == x + Decrypt(b, rest[..n], rest[n..]);
    ConcatAssoc(out, x, Decrypt(b, rest[..n], rest[n..]));
    WriteAdjacent(d0, out, x);
  }

  /** After the loop and the last two blocks, the decrypter's output holds
      the whole plaintext. */
  lemma {:induction false} DecryptFinish(b: Cipher, iv0: seq<byte>, src: seq<byte>, d0: seq<byte>,
    numBlocks: nat, tail: nat, off: nat, rest: seq<byte>, out: seq<byte>, v: seq<byte>, d: seq<byte>,
    d': seq<byte>)
    requires numBlocks >= 2
    requires Decrypting(b, iv0, src, d0, numBlocks, tail, numBlocks - 2, off, rest, out, v, d)
    requires d' == Write(Write(d, off, Xor(Decipher(b, Rebuilt(b, rest)), v)), off + b.size,
      FinalOutput(b, rest)[..tail])
    ensures Rebuilt(b, rest) == DecryptNextIV(b, src)
    ensures FinalOutput(b, rest) == Xor(Decipher(b, Penultimate(src, b.size)), DecryptNextIV(b, src))
    ensures d' == Write(d0, 0, Decrypt(b, iv0, src))
    ensures d'[..|src|] == Decrypt(b, iv0, src)
  {
    var x, y := Xor(Decipher(b, Rebuilt(b, rest)), v), FinalOutput(b, rest)[..tail];
    LastTwo(b, iv0, src, out, v, rest, tail);
    assert off == |out| && off + b.size == |out| + |x|;
    WriteTwoAfter(d0, out, x, y);
    WriteFull(d0, out + x + y);
  }

  /** The last two blocks `rest` of the input, decrypted under the chaining
      value `v` after the plaintext `out`, end the plaintext; the block
      rebuilt from them is the final chaining value. */
  lemma {:induction false} LastTwo(b: Cipher, iv0: seq<byte>, src: seq<byte>, out: seq<byte>, v: seq<byte>,
    rest: seq<byte>, tail: nat)
    requires |iv0| == b.size && |v| == b.size && b.size < |src|
    requires b.size < |rest| <= 2 * b.size && tail == |rest| - b.size
    requires Decrypt(b, iv0, src) == out + Decrypt(b, v, rest)
    requires DecryptNextIV(b, src) == DecryptNextIV(b, rest)
    requires Penultimate(src, b.size) == Penultimate(rest, b.size)
    ensures Rebuilt(b, rest) == DecryptNextIV(b, src)
    ensures FinalOutput(b, rest) == Xor(Decipher(b, Penultimate(src, b.size)), DecryptNextIV(b, src))
    ensures Decrypt(b, iv0, src) == out + Xor(Decipher(b, Rebuilt(b, rest)), v) + FinalOutput(b, rest)[..tail]
  {
    ConcatAssoc(out, Xor(Decipher(b, Rebuilt(b, rest)), v), FinalOutput(b, rest)[..tail]);
  }

  /** `ctsEncrypter`: the mode state, used to encrypt. */
  class CtsEncrypter {
    const st: Cts

    constructor (st: Cts)
      ensures this.st == st
    {
      this.st := st;
    }

    /** `ctsEncrypter.CryptBlocks`: CBC over all but the last block, the last
        CBC block moved to the end (cut by `copy` to the space left), and the
        zero-padded last block encrypted into the place before it. */
    method CryptBlocks(dst: array<byte>, src: seq<byte>) returns (r: Outcome)
      requires st.Valid()
      requires dst != st.iv && dst != st.tmp && dst != st.tmp2
      modifies dst, st.iv, st.tmp, st.tmp2
      ensures |src| <= st.b.size ==> r == Panic(InputTooShort)
      ensures |src| > st.b.size && dst.Length < |src| ==> r == Panic(OutputTooSmall)
      ensures r == Done <==> |src| > st.b.size && dst.Length >= |src|
      ensures r.Panic? ==> unchanged(dst) && unchanged(st.iv) && unchanged(st.tmp) && unchanged(st.tmp2)
      ensures r == Done ==>
        && dst[..] == Write(old(dst[..]), 0, EncryptLayout(st.b, old(st.iv[..]), src))
        && dst[..|src|] == Encrypt(st.b, old(st.iv[..]), src)
        && st.iv[..] == EncryptNextIV(st.b, old(st.iv[..]), src)
        && st.tmp[..] == FinalInput(st.b, old(st.iv[..]), src)
        && unchanged(st.tmp2)
    {
      var n := st.b.size;
      var numBlocks := |src| / n;
      var tail := |src| % n;
      if tail != 0 {
        numBlocks := numBlocks + 1;
      } else {
        tail := n;
      }
      ModeBlocks(|src|, n);
      if numBlocks < 2 {
        return Panic(InputTooShort);
      }
      if dst.Length < |src| {
        return Panic(OutputTooSmall);
      }
      ghost var iv0, d0 := st.iv[..], dst[..];
      EncryptStart(st.b, iv0, src, d0, numBlocks, tail);
      var off, rest, out := CbcBlocks(dst, src, numBlocks, tail);
      LastBlock(dst, src, numBlocks, tail, off, rest, iv0, d0, out);
      return Done;
    }

    /** The CBC loop over the first `numBlocks-1` blocks: each block
        is chained into `iv`; all but the last are stored in place, and the
        last one one block further on, the place of the final, partial
        block. The offset `i*x.blockSize` of block `i` is kept in `off`,
        and the input from there on in `rest`. */
    method CbcBlocks(dst: array<byte>, src: seq<byte>, numBlocks: nat, tail: nat)
      returns (off: nat, rest: seq<byte>, ghost out: seq<byte>)
      requires st.Valid()
      requires dst != st.iv && dst != st.tmp && dst != st.tmp2
      requires Encrypting(st.b, st.iv[..], src, dst[..], numBlocks, tail, 0, 0, src, [], st.iv[..], dst[..])
      modifies dst, st.iv, st.tmp
      ensures Encrypting(st.b, old(st.iv[..]), src, old(dst[..]), numBlocks, tail, numBlocks - 1, off, rest, out,
        st.iv[..], dst[..])
    {
      var n := st.b.size;
      ghost var iv0, d0 := st.iv[..], dst[..];
      off, rest, out := 0, src, [];
      for i := 0 to numBlocks - 1
        invariant Encrypting(st.b, iv0, src, d0, numBlocks, tail, i, off, rest, out, st.iv[..], dst[..])
      {
        ghost var v, d := st.iv[..], dst[..];
        if i < numBlocks - 2 {
          // An ordinary CBC block goes to its own place.
          st.EncryptStore(dst, off, rest);
          EncryptRound(st.b, iv0, src, d0, numBlocks, tail, i, off, rest, out, v, d, st.iv[..], dst[..]);
          out := out + st.iv[..];
        } else {
          // The last CBC block goes one place further on, to the final block.
          st.EncryptStore(dst, off + n, rest);
          EncryptStolen(st.b, iv0, src, d0, numBlocks, tail, i, off, rest, out, v, d, st.iv[..], dst[..]);
        }
        off, rest := off + n, rest[n..];
      }
    }

    /** The final block, which starts at `off` and makes up `rest`, after
        the loop: it completes the ciphertext layout and leaves its
        encryption as the chaining value. */
    method LastBlock(dst: array<byte>, src: seq<byte>, numBlocks: nat, tail: nat, off: nat, rest: seq<byte>,
      ghost iv0: seq<byte>, ghost d0: seq<byte>, ghost out: seq<byte>)
      requires st.Valid()
      requires dst != st.iv && dst != st.tmp && dst != st.tmp2
      requires numBlocks >= 1
      requires Encrypting(st.b, iv0, src, d0, numBlocks, tail, numBlocks - 1, off, rest, out, st.iv[..], dst[..])
      modifies dst, st.iv, st.tmp
      ensures dst[..] == Write(d0, 0, EncryptLayout(st.b, iv0, src))
      ensures dst[..|src|] == Encrypt(st.b, iv0, src)
      ensures st.iv[..] == EncryptNextIV(st.b, iv0, src)
      ensures st.tmp[..] == FinalInput(st.b, iv0, src)
    {
      ghost var v, d := st.iv[..], dst[..];
      st.EncryptLast(dst, off - st.b.size, rest, tail);
      EncryptFinish(st.b, iv0, src, d0, numBlocks, tail, off, rest, out, v, d, st.tmp[..], st.iv[..], dst[..]);
    }
  }

  /** `ctsDecrypter`: the mode state, used to decrypt. */
  class CtsDecrypter {
    const st: Cts

    constructor (st: Cts)
      ensures this.st == st
    {
      this.st := st;
    }

    /** `ctsDecrypter.CryptBlocks`: CBC decryption of all but the last two
        blocks, then the stolen block rebuilt in `tmp2` from the transmitted
        tail and the decrypted block before it. */
    method CryptBlocks(dst: array<byte>, src: seq<byte>) returns (r: Outcome)
      requires st.Valid()
      requires dst != st.iv && dst != st.tmp && dst != st.tmp2
      modifies dst, st.iv, st.tmp, st.tmp2
      ensures |src| <= st.b.size ==> r == Panic(InputTooShort)
      ensures |src| > st.b.size && dst.Length < |src| ==> r == Panic(OutputTooSmall)
      ensures r == Done <==> |src| > st.b.size && dst.Length >= |src|
      ensures r.Panic? ==> unchanged(dst) && unchanged(st.iv) && unchanged(st.tmp) && unchanged(st.tmp2)
      ensures r == Done ==>
        && dst[..] == Write(old(dst[..]), 0, Decrypt(st.b, old(st.iv[..]), src))
        && dst[..|src|] == Decrypt(st.b, old(st.iv[..]), src)
        && st.iv[..] == DecryptNextIV(st.b, src)
        && st.tmp2[..] == DecryptNextIV(st.b, src)
        && st.tmp[..] == Xor(Decipher(st.b, Penultimate(src, st.b.size)), DecryptNextIV(st.b, src))
    {
      var n := st.b.size;
      var numBlocks := |src| / n;
      var tail := |src| % n;
      if tail != 0 {
        numBlocks := numBlocks + 1;
      } else {
        tail := n;
      }
      ModeBlocks(|src|, n);
      if numBlocks < 2 {
        return Panic(InputTooShort);
      }
      if dst.Length < |src| {
        return Panic(OutputTooSmall);
      }
      ghost var iv0, d0 := st.iv[..], dst[..];
      DecryptStart(st.b, iv0, src, d0, numBlocks, tail);
      var off, rest, out := CbcBlocks(dst, src, numBlocks, tail);
      LastBlocks(dst, src, numBlocks, tail, off, rest, iv0, d0, out);
      return Done;
    }

    /** The CBC loop over the first `numBlocks-2` blocks: each block
        is decrypted in place and becomes the chaining value. The offset
        `i*x.blockSize` of block `i` is kept in `off`, and the input from
        there on in `rest`. */
    method CbcBlocks(dst: array<byte>, src: seq<byte>, numBlocks: nat, tail: nat)
      returns (off: nat, rest: seq<byte>, ghost out: seq<byte>)
      requires st.Valid()
      requires dst != st.iv && dst != st.tmp && dst != st.tmp2
      requires Decrypting(st.b, st.iv[..], src, dst[..], numBlocks, tail, 0, 0, src, [], st.iv[..], dst[..])
      modifies dst, st.iv
      ensures Decrypting(st.b, old(st.iv[..]), src, old(dst[..]), numBlocks, tail, numBlocks - 2, off, rest, out,
        st.iv[..], dst[..])
    {
      var n := st.b.size;
      ghost var iv0, d0 := st.iv[..], dst[..];
      off, rest, out := 0, src, [];
      for i := 0 to numBlocks - 2
        invariant Decrypting(st.b, iv0, src, d0, numBlocks, tail, i, off, rest, out, st.iv[..], dst[..])
      {
        ghost var v, d := st.iv[..], dst[..];
        st.DecryptChain(dst, off, rest);
        Load(st.iv, rest);
        ghost var x := Xor(Decipher(st.b, rest[..n]), v);
        DecryptRound(st.b, iv0, src, d0, numBlocks, tail, i, off, rest, out, v, d, x, dst[..]);
        off, rest, out := off + n, rest[n..], out + x;
      }
    }

    /** The last two blocks, which start at `off` and make up `rest`, after
        the loop: they complete the plaintext and leave the rebuilt block as
        the chaining value. */
    method LastBlocks(dst: array<byte>, src: seq<byte>, numBlocks: nat, tail: nat, off: nat, rest: seq<byte>,
      ghost iv0: seq<byte>, ghost d0: seq<byte>, ghost out: seq<byte>)
      requires st.Valid()
      requires dst != st.iv && dst != st.tmp && dst != st.tmp2
      requires numBlocks >= 2
      requires Decrypting(st.b, iv0, src, d0, numBlocks, tail, numBlocks - 2, off, rest, out, st.iv[..], dst[..])
      modifies dst, st.iv, st.tmp, st.tmp2
      ensures dst[..] == Write(d0, 0, Decrypt(st.b, iv0, src))
      ensures dst[..|src|] == Decrypt(st.b, iv0, src)
      ensures st.iv[..] == DecryptNextIV(st.b, src)
      ensures st.tmp2[..] == DecryptNextIV(st.b, src)
      ensures st.tmp[..] == Xor(Decipher(st.b, Penultimate(src, st.b.size)), DecryptNextIV(st.b, src))
    {
      ghost var v, d := st.iv[..], dst[..];
      st.DecryptLast(dst, off, rest, tail);
      DecryptFinish(st.b, iv0, src, d0, numBlocks, tail, off, rest, out, v, d, dst[..]);
    }

    /** `CryptBlocks` with the chaining value corrected: after the last two
        blocks, `iv` is ciphertext block `numBlocks-2`, the block the
        encrypter ends on, rather than the rebuilt block. */
    method CryptBlocksChained(dst: array<byte>, src: seq<byte>) returns (r: Outcome)
      requires st.Valid()
      requires dst != st.iv && dst != st.tmp && dst != st.tmp2
      modifies dst, st.iv, st.tmp, st.tmp2
      ensures |src| <= st.b.size ==> r == Panic(InputTooShort)
      ensures |src| > st.b.size && dst.Length < |src| ==> r == Panic(OutputTooSmall)
      ensures r == Done <==> |src| > st.b.size && dst.Length >= |src|
      ensures r.Panic? ==> unchanged(dst) && unchanged(st.iv) && unchanged(st.tmp) && unchanged(st.tmp2)
      ensures r == Done ==>
        && dst[..] == Write(old(dst[..]), 0, Decrypt(st.b, old(st.iv[..]), src))
        && dst[..|src|] == Decrypt(st.b, old(st.iv[..]), src)
        && st.iv[..] == Penultimate(src, st.b.size)
        && st.tmp2[..] == DecryptNextIV(st.b, src)
        && st.tmp[..] == Xor(Decipher(st.b, Penultimate(src, st.b.size)), DecryptNextIV(st.b, src))
    {
      r := CryptBlocks(dst, src);
      if r == Done {
        ChainPenultimate(src);
      }
    }

    /** `copy(x.iv, src[(numBlocks-2)*x.blockSize:])`: the chaining value
        becomes ciphertext block `numBlocks-2`. */
    method ChainPenultimate(src: seq<byte>)
      requires st.Valid() && |src| > st.b.size
      modifies st.iv
      ensures st.iv[..] == Penultimate(src, st.b.size)
    {
      var n := st.b.size;
      var numBlocks := |src| / n;
      if |src| % n != 0 {
        numBlocks := numBlocks + 1;
      }
      PenultimateBlock(src, n, numBlocks);
      Load(st.iv, src[(numBlocks - 2) * n..]);
    }
  }

  /** `NewCTSEncrypter`: rejects an IV that is not one block long; otherwise
      an encrypter over a private copy of the IV. */
  method NewCtsEncrypter(b: Cipher, ivIn: array<byte>) returns (r: Result<CtsEncrypter, Error>)
    ensures r.Failure? <==> ivIn.Length != b.size
    ensures r.Failure? ==> r.error == InvalidIvLength
    ensures r.Success? ==>
      && fresh(r.value) && fresh(r.value.st) && r.value.st.Valid() && r.value.st.b == b
      && fresh(r.value.st.iv) && fresh(r.value.st.tmp) && fresh(r.value.st.tmp2)
      && r.value.st.iv[..] == ivIn[..]
  {
    if ivIn.Length != b.size {
      return Failure(InvalidIvLength);
    }
    var st := new Cts(b, ivIn);
    var e := new CtsEncrypter(st);
    return Success(e);
  }

  /** `NewCTSDecrypter`: rejects an IV that is not one block long; otherwise
      a decrypter over a private copy of the IV. */
  method NewCtsDecrypter(b: Cipher, ivIn: array<byte>) returns (r: Result<CtsDecrypter, Error>)
    ensures r.Failure? <==> ivIn.Length != b.size
    ensures r.Failure? ==> r.error == InvalidIvLength
    ensures r.Success? ==>
      && fresh(r.value) && fresh(r.value.st) && r.value.st.Valid() && r.value.st.b == b
      && fresh(r.value.st.iv) && fresh(r.value.st.tmp) && fresh(r.value.st.tmp2)
      && r.value.st.iv[..] == ivIn[..]
  {
    if ivIn.Length != b.size {
      return Failure(InvalidIvLength);
    }
    var st := new Cts(b, ivIn);
    var d := new CtsDecrypter(st);
    return Success(d);
  }

  /** A caller that encrypts a message with one instance and decrypts the
      ciphertext with another built from the same IV gets the message back:
      the first instance works on its own copy of the IV. With the corrected
      decrypter both instances also end on the same chaining value, so a
      following message would be chained alike on both sides. */
  method EncryptThenDecrypt(b: Cipher, ivIn: array<byte>, plaintext: seq<byte>)
    returns (recovered: seq<byte>, encIV: seq<byte>, decIV: seq<byte>)
    requires Invertible(b) && ivIn.Length == b.size && |plaintext| > b.size
    ensures recovered == plaintext
    ensures encIV == EncryptNextIV(b, ivIn[..], plaintext)
    ensures decIV == encIV
  {
    var enc := NewCtsEncrypter(b, ivIn);
    var dec := NewCtsDecrypter(b, ivIn);
    var ciphertext := new byte[|plaintext|](_ => 0);
    var output := new byte[|plaintext|](_ => 0);
    ghost var iv0 := ivIn[..];
    var _ := enc.value.CryptBlocks(ciphertext, plaintext);
    assert ciphertext[..] == Encrypt(b, iv0, plaintext) by {
      assert ciphertext[..] == ciphertext[..|plaintext|];
    }
    encIV := enc.value.st.iv[..];
    assert dec.value.st.iv[..] == iv0;
    var _ := dec.value.CryptBlocksChained(output, ciphertext[..]);
    RoundTrip(b, iv0, plaintext);
    EncryptNextIVIsPenultimate(b, iv0, plaintext);
    assert output[..] == output[..|plaintext|];
    recovered := output[..];
    decIV := dec.value.st.iv[..];
  }
}
