/** The block cipher the modes are built on (Go's `cipher.Block`). It is an
    external collaborator: a block size and two functions on blocks of that
    size, about which nothing is known except what `WellFormed` and
    `Invertible` say. */
module BlockCipher {
  import opened Bytes

  datatype Block = Block(size: nat, encrypt: seq<byte> -> seq<byte>, decrypt: seq<byte> -> seq<byte>)

  /** One application of the cipher, as a function of the cipher value
      alone, so that every contract mentions it independently of the heap. */
  function Encipher(b: Block, x: seq<byte>): seq<byte>
  {
    b.encrypt(x)
  }

  /** The inverse direction, likewise. */
  function Decipher(b: Block, x: seq<byte>): seq<byte>
  {
    b.decrypt(x)
  }

  /** A positive block size, and both directions map blocks to blocks. */
  ghost predicate WellFormed(b: Block)
  {
    && b.size > 0
    && (forall x :: |x| == b.size ==> |Encipher(b, x)| == b.size)
    && (forall x :: |x| == b.size ==> |Decipher(b, x)| == b.size)
  }

  type Cipher = b: Block | WellFormed(b) witness Block(1, x => x, x => x)

  /** Decryption undoes encryption: the hypothesis of every round trip. */
  ghost predicate Invertible(b: Cipher)
  {
    forall x {:trigger Encipher(b, x)} :: |x| == b.size ==> Decipher(b, Encipher(b, x)) == x
  }

  /** Encryption undoes decryption: the block cipher is a permutation. */
  ghost predicate Surjective(b: Cipher)
  {
    forall x {:trigger Decipher(b, x)} :: |x| == b.size ==> Encipher(b, Decipher(b, x)) == x
  }

  /** `b.Encrypt(dst[off:], src)`: the first block of `src` is encrypted into
      the block of `dst` at `off`. */
  method EncryptBlock(b: Cipher, dst: array<byte>, off: nat, src: seq<byte>)
    requires b.size <= |src| && off + b.size <= dst.Length
    modifies dst
    ensures dst[..] == Write(old(dst[..]), off, Encipher(b, src[..b.size]))
  {
    var _ := Copy(dst, off, Encipher(b, src[..b.size]));
  }

  /** `b.Decrypt(dst[off:], src)`. */
  method DecryptBlock(b: Cipher, dst: array<byte>, off: nat, src: seq<byte>)
    requires b.size <= |src| && off + b.size <= dst.Length
    modifies dst
    ensures dst[..] == Write(old(dst[..]), off, Decipher(b, src[..b.size]))
  {
    var _ := Copy(dst, off, Decipher(b, src[..b.size]));
  }
}
