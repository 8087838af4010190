/** What the CTS-3 (Kerberos) ciphertext-stealing mode computes, as functions
    of the block cipher, the IV and the message: the block count, the
    ciphertext layout the encrypter produces, and what the decrypter makes of
    a ciphertext. The imperative encrypter and decrypter are proved against
    these functions, and the round trips are proved about them. */
module CtsSpec {
  import opened Bytes
  import opened BlockCipher
  import opened Cbc

  // ---- Block counting -----------------------------------------------------

  /** The number of blocks as the mode computes it: `length / n`, plus one
      when there is a partial last block. */
  function NumBlocks(length: nat, n: nat): (r: nat)
    requires n > 0
    ensures length / n <= r <= length / n + 1
    ensures r == 0 <==> length == 0
    ensures length <= r * n
  {
    if length % n != 0 then length / n + 1 else length / n
  }

  /** The number of bytes in the last block as the mode computes it: the
      remainder, or `n` when the length is a multiple of `n`. */
  function Tail(length: nat, n: nat): (r: nat)
    requires n > 0
    ensures 1 <= r <= n
    ensures length > 0 ==> r <= length
  {
    if length % n != 0 then length % n else n
  }

  /** Where the last block of a `length`-byte message starts: the largest
      block boundary strictly below `length`. */
  function LastStart(length: nat, n: nat): (mid: nat)
    requires n > 0
    ensures Aligned(mid, n)
    ensures length > 0 ==> mid < length <= mid + n
    ensures length > n ==> mid >= n && Aligned(mid - n, n)
    decreases length
  {
    if length <= n then 0 else n + LastStart(length - n, n)
  }

  /** Neighbouring block boundaries are one block apart. */
  lemma {:induction false} Offsets(i: nat, n: nat)
    ensures (i + 1) * n == i * n + n
    ensures i > 0 ==> (i - 1) * n == i * n - n && i * n >= n
  {
  }


  lemma {:induction false} MulAtLeast(m: int, n: nat)
    requires m >= 1
    ensures m * n >= n
  {
  }

  lemma {:induction false} MulDiff(q: int, q': int, n: int)
    ensures q * n - q' * n == (q - q') * n
  {
  }

  /** Integer division is determined by quotient and remainder. */
  lemma {:induction false} DivUnique(a: nat, n: nat, q: nat, r: nat)
    requires n > 0 && a == q * n + r && r < n
    ensures a / n == q && a % n == r
  {
    var q', r' := a / n, a % n;
    assert q' * n + r' == q * n + r;
    MulDiff(q, q', n);
    if q' < q {
      MulAtLeast(q - q', n);
    } else if q' > q {
      MulDiff(q', q, n);
      MulAtLeast(q' - q, n);
    }
  }

  /** At most one block boundary lies in the last block before `length`. */
  lemma {:induction false} LastBoundaryUnique(x: nat, y: nat, length: nat, n: nat)
    requires n > 0 && Aligned(x, n) && Aligned(y, n)
    requires x < length <= x + n && y < length <= y + n
    ensures x == y
    decreases x
  {
    if x > 0 && y > 0 {
      LastBoundaryUnique(x - n, y - n, length - n, n);
    }
  }

  /** The last block is after `numBlocks - 1` full blocks and holds `tail`
      bytes, between 1 and `n`. */
  lemma {:induction false} BlocksAndTail(length: nat, n: nat)
    requires n > 0
    ensures 1 <= Tail(length, n) <= n
    ensures (NumBlocks(length, n) - 1) * n + Tail(length, n) == length
  {
    var q, r := length / n, length % n;
    assert length == q * n + r;
    if r == 0 {
      if q > 0 { Offsets(q - 1, n); }
    } else {
      assert NumBlocks(length, n) - 1 == q;
    }
  }

  /** The block count is the length divided by `n`, rounded up. */
  lemma {:induction false} BlocksRoundUp(length: nat, n: nat)
    requires n > 0
    ensures NumBlocks(length, n) == (length + n - 1) / n
  {
    var q, r := length / n, length % n;
    assert length == q * n + r;
    var m := length + n - 1;
    if r == 0 {
      assert m == q * n + (n - 1);
      DivUnique(m, n, q, n - 1);
    } else {
      Offsets(q, n);
      assert m == (q + 1) * n + (r - 1);
      DivUnique(m, n, q + 1, r - 1);
    }
  }

  /** There are at least two blocks exactly when the message is longer than
      one block. */
  lemma {:induction false} TwoBlocks(length: nat, n: nat)
    requires n > 0
    ensures NumBlocks(length, n) >= 2 <==> length > n
  {
    BlocksAndTail(length, n);
    var nb, t := NumBlocks(length, n), Tail(length, n);
    if nb >= 2 {
      MulAtLeast(nb - 1, n);
    } else if nb == 1 {
      assert length == t;
    } else {
      assert length == t - n;
    }
  }

  /** The block count and tail the mode computes describe the message
      exactly: a last block of `tail` bytes in `1..n` after `numBlocks - 1`
      full blocks, with no extra block for an exact multiple of `n`; and
      there are at least two blocks exactly when the message is longer than
      one block. */
  lemma {:induction false} BlockCount(length: nat, n: nat)
    requires n > 0
    ensures 1 <= Tail(length, n) <= n
    ensures (NumBlocks(length, n) - 1) * n + Tail(length, n) == length
    ensures NumBlocks(length, n) == (length + n - 1) / n
    ensures NumBlocks(length, n) >= 2 <==> length > n
  {
    BlocksAndTail(length, n);
    BlocksRoundUp(length, n);
    TwoBlocks(length, n);
  }

  /** The block boundaries the mode computes with `/` and `%` are the ones
      the specification uses: the last block starts at `(numBlocks - 1) * n`
      and holds `tail` bytes. */
  lemma {:induction false} LastStartIsLastBlock(length: nat, n: nat)
    requires n > 0 && length > 0
    ensures LastStart(length, n) == (NumBlocks(length, n) - 1) * n
    ensures Tail(length, n) == length - LastStart(length, n)
  {
    BlocksAndTail(length, n);
    var nb := NumBlocks(length, n);
    AlignedBlocks(nb - 1, n);
    LastBoundaryUnique(LastStart(length, n), (nb - 1) * n, length, n);
  }

  /** `k * n`, by repeated addition: the offset `i*x.blockSize` of block `i`,
      in a form the verifier reasons about without multiplication. */
  function Mul(k: nat, n: nat): nat
    decreases k
  {
    if k == 0 then 0 else Mul(k - 1, n) + n
  }

  /** `Mul` is multiplication. */
  lemma {:induction false} MulIsProduct(k: nat, n: nat)
    ensures Mul(k, n) == k * n
    decreases k
  {
    if k > 0 {
      MulIsProduct(k - 1, n);
      Offsets(k - 1, n);
    }
  }

  /** Later blocks start further on. */
  lemma {:induction false} MulMonotone(a: nat, b: nat, n: nat)
    requires a <= b
    ensures Mul(a, n) <= Mul(b, n)
    decreases b
  {
    if a < b {
      MulMonotone(a, b - 1, n);
    }
  }

  /** The step from block `i` to block `i + 1`, which is block `k` or
      lies before it. */
  lemma {:induction false} MulStep(i: nat, k: nat, n: nat)
    requires n > 0 && i < k
    ensures Mul(i + 1, n) == Mul(i, n) + n && Mul(i + 1, n) <= Mul(k, n)
    ensures i + 1 < k <==> Mul(i + 1, n) < Mul(k, n)
  {
    MulMonotone(i + 1, k, n);
    if i + 1 < k {
      MulMonotone(i + 2, k, n);
    }
  }

  /** What the mode derives from its block count: at least two blocks
      exactly when the message is longer than one block, and then the last
      block starts at block `numBlocks - 1` and holds `tail` bytes. */
  lemma {:induction false} ModeBlocks(length: nat, n: nat)
    requires n > 0
    ensures NumBlocks(length, n) >= 2 <==> length > n
    ensures length > n ==> Mul(NumBlocks(length, n) - 1, n) == LastStart(length, n)
    ensures length > n ==> (NumBlocks(length, n) - 1) * n == LastStart(length, n)
    ensures length > n ==> Tail(length, n) == length - LastStart(length, n)
  {
    TwoBlocks(length, n);
    if length > n {
      LastStartIsLastBlock(length, n);
      MulIsProduct(NumBlocks(length, n) - 1, n);
    }
  }

  /** A message of exactly `k` blocks has `k` blocks and a full last block. */
  lemma {:induction false} ExactMultiple(k: nat, n: nat)
    requires n > 0
    ensures NumBlocks(k * n, n) == k && Tail(k * n, n) == n
  {
    DivUnique(k * n, n, k, 0);
  }

  /** A whole number of blocks has a full last block. */
  lemma {:induction false} LastStartOfAligned(length: nat, n: nat)
    requires n > 0 && length > 0 && Aligned(length, n)
    ensures LastStart(length, n) == length - n
    decreases length
  {
    if length > n {
      LastStartOfAligned(length - n, n);
    }
  }

  // ---- Encryption ---------------------------------------------------------

  /** The chaining value stolen from: the CBC output for plaintext block
      `numBlocks-2`, reached by standard CBC over the blocks before it. */
  function StolenBlock(b: Cipher, iv: seq<byte>, p: seq<byte>): (r: seq<byte>)
    requires |iv| == b.size && |p| > b.size
    ensures |r| == b.size
    decreases |p|
  {
    var c0 := Encipher(b, Xor(p[..b.size], iv));
    if |p| > 2 * b.size then StolenBlock(b, c0, p[b.size..]) else c0
  }

  /** The input to the last encryption: the last `tail` plaintext bytes,
      zero-padded to a block and xored with the stolen block. */
  function FinalInput(b: Cipher, iv: seq<byte>, p: seq<byte>): (r: seq<byte>)
    requires |iv| == b.size && |p| > b.size
    ensures |r| == b.size
    decreases |p|
  {
    var c0 := Encipher(b, Xor(p[..b.size], iv));
    if |p| > 2 * b.size then FinalInput(b, c0, p[b.size..])
    else Xor(ZeroPad(p[b.size..], b.size), c0)
  }

  /** The chaining value the encrypter ends on: the encryption of the final
      input. */
  function EncryptNextIV(b: Cipher, iv: seq<byte>, p: seq<byte>): (r: seq<byte>)
    requires |iv| == b.size && |p| > b.size
    ensures |r| == b.size
  {
    Encipher(b, FinalInput(b, iv, p))
  }

  /** The `numBlocks` full blocks the encrypter writes from the start of the
      output: standard CBC while more than two blocks remain, then the final
      encrypted block, then the whole stolen block. */
  function EncryptLayout(b: Cipher, iv: seq<byte>, p: seq<byte>): (r: seq<byte>)
    requires |iv| == b.size && |p| > b.size
    ensures |p| <= |r| < |p| + b.size
    decreases |p|
  {
    var c0 := Encipher(b, Xor(p[..b.size], iv));
    if |p| > 2 * b.size then c0 + EncryptLayout(b, c0, p[b.size..])
    else Encipher(b, Xor(ZeroPad(p[b.size..], b.size), c0)) + c0
  }

  /** The ciphertext, exactly as long as the plaintext: standard CBC while
      more than two blocks remain, then the final encrypted block, then the
      first `tail` bytes of the stolen block. */
  function Encrypt(b: Cipher, iv: seq<byte>, p: seq<byte>): (c: seq<byte>)
    requires |iv| == b.size && |p| > b.size
    ensures |c| == |p|
    decreases |p|
  {
    var c0 := Encipher(b, Xor(p[..b.size], iv));
    if |p| > 2 * b.size then c0 + Encrypt(b, c0, p[b.size..])
    else Encipher(b, Xor(ZeroPad(p[b.size..], b.size), c0)) + c0[..|p| - b.size]
  }

  // ---- Decryption ---------------------------------------------------------

  /** The block the decrypter rebuilds (`tmp2`) from the last two blocks `c`:
      the transmitted tail followed by the bytes of the decrypted first block
      that follow the tail. */
  function Rebuilt(b: Cipher, c: seq<byte>): (r: seq<byte>)
    requires b.size < |c| <= 2 * b.size
    ensures |r| == b.size
  {
    c[b.size..] + Decipher(b, c[..b.size])[|c| - b.size..]
  }

  /** The decryption of the first of the last two blocks `c` xored with the
      rebuilt block (`tmp` at the end): its first `tail` bytes end the
      plaintext. */
  function FinalOutput(b: Cipher, c: seq<byte>): (r: seq<byte>)
    requires b.size < |c| <= 2 * b.size
    ensures |r| == b.size
  {
    Xor(Decipher(b, c[..b.size]), Rebuilt(b, c))
  }

  /** The chaining value the decrypter ends on: the block it rebuilds. */
  function DecryptNextIV(b: Cipher, c: seq<byte>): (r: seq<byte>)
    requires |c| > b.size
    ensures |r| == b.size
    decreases |c|
  {
    if |c| > 2 * b.size then DecryptNextIV(b, c[b.size..]) else Rebuilt(b, c)
  }

  /** The plaintext the decrypter produces: standard CBC decryption while
      more than two blocks remain; then the decryption of the rebuilt block
      xored with the chaining value, and the first `tail` bytes of the final
      output. */
  function Decrypt(b: Cipher, iv: seq<byte>, c: seq<byte>): (p: seq<byte>)
    requires |iv| == b.size && |c| > b.size
    ensures |p| == |c|
    decreases |c|
  {
    if |c| > 2 * b.size then Xor(Decipher(b, c[..b.size]), iv) + Decrypt(b, c[..b.size], c[b.size..])
    else Xor(Decipher(b, Rebuilt(b, c)), iv) + FinalOutput(b, c)[..|c| - b.size]
  }

  /** Ciphertext block `numBlocks-2`, the one before the last. */
  function Penultimate(c: seq<byte>, n: nat): (r: seq<byte>)
    requires 0 < n < |c|
    ensures |r| == n
    decreases |c|
  {
    if |c| > 2 * n then Penultimate(c[n..], n) else c[..n]
  }

  // ---- Properties ---------------------------------------------------------

  /** The ciphertext is the layout cut to the message length. */
  lemma {:induction false} EncryptIsLayoutPrefix(b: Cipher, iv: seq<byte>, p: seq<byte>)
    requires |iv| == b.size && |p| > b.size
    ensures Encrypt(b, iv, p) == EncryptLayout(b, iv, p)[..|p|]
    decreases |p|
  {
    var n := b.size;
    var c0 := Encipher(b, Xor(p[..n], iv));
    if |p| > 2 * n {
      EncryptIsLayoutPrefix(b, c0, p[n..]);
      var l := EncryptLayout(b, c0, p[n..]);
      TakeAppend(c0, l, |p|);
    } else {
      var e := Encipher(b, Xor(ZeroPad(p[n..], n), c0));
      TakeAppend(e, c0, |p|);
    }
  }

  /** The encrypter ends on the penultimate ciphertext block, as CBC ends on
      the last. */
  lemma {:induction false} EncryptNextIVIsPenultimate(b: Cipher, iv: seq<byte>, p: seq<byte>)
    requires |iv| == b.size && |p| > b.size
    ensures EncryptNextIV(b, iv, p) == Penultimate(Encrypt(b, iv, p), b.size)
    decreases |p|
  {
    var n := b.size;
    var c0 := Encipher(b, Xor(p[..n], iv));
    var c := Encrypt(b, iv, p);
    if |p| > 2 * n {
      assert c[n..] == Encrypt(b, c0, p[n..]);
      EncryptNextIVIsPenultimate(b, c0, p[n..]);
    }
  }

  /** Ciphertext block `numBlocks-2` is the block just before the last
      block boundary, `src[(numBlocks-2)*n:(numBlocks-1)*n]`. */
  lemma {:induction false} PenultimateAt(c: seq<byte>, n: nat)
    requires 0 < n < |c|
    ensures n <= LastStart(|c|, n) <= |c|
    ensures Penultimate(c, n) == c[LastStart(|c|, n) - n..LastStart(|c|, n)]
    decreases |c|
  {
    var l, m := LastStart(|c|, n), LastStart(|c| - n, n);
    assert l == n + m;
    if |c| > 2 * n {
      PenultimateAt(c[n..], n);
      SliceOfSuffix(c, n, m - n, m);
    }
  }

  /** In the mode's own terms, ciphertext block `numBlocks-2` starts at
      `(numBlocks-2)*n`. */
  lemma {:induction false} PenultimateBlock(c: seq<byte>, n: nat, numBlocks: nat)
    requires 0 < n < |c| && numBlocks == NumBlocks(|c|, n)
    ensures numBlocks >= 2 && 0 <= (numBlocks - 2) * n && (numBlocks - 2) * n + n <= |c|
    ensures Penultimate(c, n) == c[(numBlocks - 2) * n..][..n]
  {
    ModeBlocks(|c|, n);
    PenultimateAt(c, n);
    Offsets(numBlocks - 2, n);
  }

  /** A slice of a suffix is a slice of the whole. */
  lemma {:induction false} SliceOfSuffix<T>(c: seq<T>, k: nat, i: nat, j: nat)
    requires k <= |c| && i <= j <= |c| - k
    ensures c[k..][i..j] == c[k + i..k + j]
  {
  }

  /** The identity permutation on one-byte blocks. */
  const Identity: Cipher := Block(1, x => x, x => x)

  /** As written, the decrypter ends on the rebuilt block and the encrypter
      on ciphertext block `numBlocks-2`, so the two chaining values differ
      after a round trip: with one-byte identity blocks, IV `[0]` and
      message `[1, 2]`, the ciphertext is `[3, 1]`, the encrypter ends on
      `[3]` and the decrypter on `[1]`. */
  lemma {:induction false} NextIVMismatch()
    ensures Encrypt(Identity, [0], [1, 2]) == [3, 1]
    ensures EncryptNextIV(Identity, [0], [1, 2]) == [3]
    ensures DecryptNextIV(Identity, [3, 1]) == [1]
    ensures EncryptNextIV(Identity, [0], [1, 2]) != DecryptNextIV(Identity, Encrypt(Identity, [0], [1, 2]))
  {
    var b := Identity;
    var c0 := Encipher(b, Xor([1], [0]));
    assert Xor([1], [0]) == [1] by {
      assert (1 as byte) ^ (0 as byte) == 1;
    }
    assert c0 == [1];
    assert ZeroPad([2], 1) == [2];
    assert Xor([2], [1]) == [3] by {
      assert (2 as byte) ^ (1 as byte) == 3;
    }
    assert FinalInput(b, [0], [1, 2]) == [3];
    assert Encrypt(b, [0], [1, 2]) == [3] + [1];
    var c: seq<byte> := [3, 1];
    assert c[1..] == [1] && c[..1] == [3];
    assert Rebuilt(b, c) == [1] + Decipher(b, [3])[1..];
  }

  /** The message with its last block zero-padded to a full block. */
  function PadMessage(p: seq<byte>, n: nat): (s: seq<byte>)
    requires 0 < n && 0 < |p|
    ensures |s| == LastStart(|p|, n) + n && Aligned(|s|, n)
    decreases |p|
  {
    if |p| <= n then ZeroPad(p, n) else p[..n] + PadMessage(p[n..], n)
  }

  /** Whole blocks `c`, at least two of them, with the last two exchanged. */
  function SwapLastTwo(c: seq<byte>, n: nat): (r: seq<byte>)
    requires n > 0 && Aligned(|c|, n) && |c| > n
    ensures |r| == |c|
    decreases |c|
  {
    if |c| <= 2 * n then c[n..] + c[..n] else c[..n] + SwapLastTwo(c[n..], n)
  }

  /** The encrypter's layout is CBC over the zero-padded message with the
      last two blocks exchanged; its chaining value is the last CBC chaining
      value. */
  lemma {:induction false} EncryptIsSwappedCbc(b: Cipher, iv: seq<byte>, p: seq<byte>)
    requires |iv| == b.size && |p| > b.size
    ensures EncryptLayout(b, iv, p) == SwapLastTwo(CbcEncrypt(b, iv, PadMessage(p, b.size)), b.size)
    ensures EncryptNextIV(b, iv, p) == CbcChain(b, iv, PadMessage(p, b.size))
    decreases |p|
  {
    var n := b.size;
    var c0 := Encipher(b, Xor(p[..n], iv));
    var s, s' := PadMessage(p, n), PadMessage(p[n..], n);
    assert s[..n] == p[..n] && s[n..] == s';
    var c := CbcEncrypt(b, iv, s);
    var c' := CbcEncrypt(b, c0, s');
    assert c[..n] == c0 && c[n..] == c';
    if |p| > 2 * n {
      EncryptIsSwappedCbc(b, c0, p[n..]);
    } else {
      assert s' == ZeroPad(p[n..], n);
      assert |s'| == n && s'[..n] == s';
      var c1, e := Encipher(b, Xor(s'[..n], c0)), s'[n..];
      assert |e| == 0;
      assert CbcEncrypt(b, c1, e) == [] && CbcChain(b, c1, e) == c1;
      assert c' == c1 + [] && CbcChain(b, c0, s') == c1;
    }
  }

  /** A message of whole blocks is its own padding. */
  lemma {:induction false} PadAligned(p: seq<byte>, n: nat)
    requires 0 < n && 0 < |p| && Aligned(|p|, n)
    ensures PadMessage(p, n) == p
    decreases |p|
  {
    if |p| > n {
      PadAligned(p[n..], n);
      assert p == p[..n] + p[n..];
    } else {
      assert ZeroPad(p, n) == p;
    }
  }

  /** For a message of exactly `k >= 2` blocks the ciphertext is plain CBC
      with the last two blocks exchanged, and the chaining value is CBC's. */
  lemma {:induction false} EncryptExactMultiple(b: Cipher, iv: seq<byte>, p: seq<byte>, k: nat)
    requires |iv| == b.size && k >= 2 && |p| == k * b.size
    ensures Aligned(|p|, b.size) && |p| >= 2 * b.size
    ensures Encrypt(b, iv, p) == SwapLastTwo(CbcEncrypt(b, iv, p), b.size)
    ensures EncryptNextIV(b, iv, p) == CbcChain(b, iv, p)
  {
    var n := b.size;
    AlignedBlocks(k, n);
    MulAtLeast(k - 1, n);
    Offsets(k - 1, n);
    PadAligned(p, n);
    EncryptIsSwappedCbc(b, iv, p);
    EncryptIsLayoutPrefix(b, iv, p);
  }

  /** The round trip on the last two blocks. */
  lemma {:induction false} RoundTripLast(b: Cipher, iv: seq<byte>, p: seq<byte>)
    requires Invertible(b) && |iv| == b.size && b.size < |p| <= 2 * b.size
    ensures Decrypt(b, iv, Encrypt(b, iv, p)) == p
    ensures DecryptNextIV(b, Encrypt(b, iv, p)) == StolenBlock(b, iv, p)
  {
    var n := b.size;
    var t := |p| - n;
    var c0 := Encipher(b, Xor(p[..n], iv));
    var z := ZeroPad(p[n..], n);
    var e := Encipher(b, Xor(z, c0));
    var c := Encrypt(b, iv, p);
    assert c[..n] == e && c[n..] == c0[..t];
    StealTail(p[n..], c0);
    assert Rebuilt(b, c) == c0;
    XorTwice(p[..n], iv);
    XorTwice(z, c0);
    assert p == p[..n] + p[n..];
  }

  /** Round trip: the decrypter, started from the same IV, gives back the
      plaintext from the encrypter's output, and ends on the stolen block. */
  lemma {:induction false} RoundTrip(b: Cipher, iv: seq<byte>, p: seq<byte>)
    requires Invertible(b) && |iv| == b.size && |p| > b.size
    ensures Decrypt(b, iv, Encrypt(b, iv, p)) == p
    ensures DecryptNextIV(b, Encrypt(b, iv, p)) == StolenBlock(b, iv, p)
    decreases |p|
  {
    var n := b.size;
    if |p| > 2 * n {
      var c0 := Encipher(b, Xor(p[..n], iv));
      var c := Encrypt(b, iv, p);
      assert c[..n] == c0 && c[n..] == Encrypt(b, c0, p[n..]);
      RoundTrip(b, c0, p[n..]);
      XorTwice(p[..n], iv);
      assert p == p[..n] + p[n..];
    } else {
      RoundTripLast(b, iv, p);
    }
  }

  /** The reverse round trip on the last two blocks. */
  lemma {:induction false} DecryptRoundTripLast(b: Cipher, iv: seq<byte>, c: seq<byte>)
    requires Surjective(b) && |iv| == b.size && b.size < |c| <= 2 * b.size
    ensures Encrypt(b, iv, Decrypt(b, iv, c)) == c
    ensures StolenBlock(b, iv, Decrypt(b, iv, c)) == DecryptNextIV(b, c)
  {
    var n := b.size;
    var t := |c| - n;
    var r, d := Rebuilt(b, c), Decipher(b, c[..n]);
    var p := Decrypt(b, iv, c);
    assert p[..n] == Xor(Decipher(b, r), iv) && p[n..] == Xor(d, r)[..t];
    XorTwice(Decipher(b, r), iv);
    assert r[t..] == d[t..];
    UnstealTail(d, r, t);
    assert c == c[..n] + c[n..];
  }

  /** The reverse round trip, when the block cipher is a permutation: the
      encrypter, started from the same IV, gives back any ciphertext from the
      decrypter's output, and steals from the block the decrypter rebuilt. */
  lemma {:induction false} DecryptRoundTrip(b: Cipher, iv: seq<byte>, c: seq<byte>)
    requires Surjective(b) && |iv| == b.size && |c| > b.size
    ensures Encrypt(b, iv, Decrypt(b, iv, c)) == c
    ensures StolenBlock(b, iv, Decrypt(b, iv, c)) == DecryptNextIV(b, c)
    decreases |c|
  {
    var n := b.size;
    if |c| > 2 * n {
      var p := Decrypt(b, iv, c);
      assert p[..n] == Xor(Decipher(b, c[..n]), iv) && p[n..] == Decrypt(b, c[..n], c[n..]);
      XorTwice(Decipher(b, c[..n]), iv);
      DecryptRoundTrip(b, c[..n], c[n..]);
      assert c == c[..n] + c[n..];
    } else {
      DecryptRoundTripLast(b, iv, c);
    }
  }

  /** The decrypter is plain CBC decryption over the blocks before a block
      boundary `m` that leaves more than one and at most two blocks (the
      first `numBlocks-2` blocks), followed by the last two blocks decrypted
      from the chaining value CBC ends on; its final chaining value depends
      on the last two blocks alone. */
  lemma {:induction false} DecryptIsCbcThenLastTwo(b: Cipher, iv: seq<byte>, c: seq<byte>, m: nat)
    requires |iv| == b.size && b.size > 0 && Aligned(m, b.size) && m + b.size < |c| <= m + 2 * b.size
    ensures Decrypt(b, iv, c) == CbcDecrypt(b, iv, c[..m]) + Decrypt(b, DecryptChain(iv, c[..m], b.size), c[m..])
    ensures DecryptNextIV(b, c) == DecryptNextIV(b, c[m..])
  {
    assert c == c[..m] + c[m..];
    DecryptAppend(b, iv, c[..m], c[m..]);
    NextIVAppend(b, c[..m], c[m..]);
  }

  /** The plaintext half of `DecryptIsCbcThenLastTwo`, for whole blocks `h`
      followed by the last two blocks `r`. */
  lemma {:induction false} DecryptAppend(b: Cipher, iv: seq<byte>, h: seq<byte>, r: seq<byte>)
    requires |iv| == b.size && b.size > 0 && Aligned(|h|, b.size) && b.size < |r| <= 2 * b.size
    ensures Decrypt(b, iv, h + r) == CbcDecrypt(b, iv, h) + Decrypt(b, DecryptChain(iv, h, b.size), r)
    decreases |h|
  {
    var n := b.size;
    if |h| == 0 {
      assert h + r == r;
    } else {
      assert Aligned(|h| - n, n);
      var x := Xor(Decipher(b, h[..n]), iv);
      var y := CbcDecrypt(b, h[..n], h[n..]);
      var z := Decrypt(b, DecryptChain(h[..n], h[n..], n), r);
      AppendParts(h, r, n);
      DecryptAppend(b, h[..n], h[n..], r);
      ConcatAssoc(x, y, z);
    }
  }

  /** The chaining-value half of `DecryptIsCbcThenLastTwo`. */
  lemma {:induction false} NextIVAppend(b: Cipher, h: seq<byte>, r: seq<byte>)
    requires b.size > 0 && Aligned(|h|, b.size) && b.size < |r|
    ensures DecryptNextIV(b, h + r) == DecryptNextIV(b, r)
    decreases |h|
  {
    var n := b.size;
    if |h| == 0 {
      assert h + r == r;
    } else {
      assert Aligned(|h| - n, n);
      AppendParts(h, r, n);
      NextIVAppend(b, h[n..], r);
    }
  }

  /** Cutting `h + r` within `h`. */
  lemma {:induction false} AppendParts<T>(h: seq<T>, r: seq<T>, n: nat)
    requires n <= |h|
    ensures (h + r)[..n] == h[..n] && (h + r)[n..] == h[n..] + r
  {
  }
}
