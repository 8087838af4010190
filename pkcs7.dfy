/** PKCS #7 padding (section 6.3 of RFC 5652): a message is extended to a
    whole number of blocks by `k` bytes of value `k`, with `1 <= k <= block
    size`, so that the padding can be recognised and stripped again. */
module Pkcs7 {
  import opened Wrappers
  import opened Bytes

  /** The one error the unpadding functions report, `ErrInvalidPadding`. */
  datatype Error = InvalidPadding

  /** Go's `%` on `int`: the remainder of the division truncated toward zero,
      which takes the sign of the dividend. */
  function GoRem(a: int, b: int): (r: int)
    requires b != 0
    ensures a >= 0 ==> 0 <= r < if b > 0 then b else -b
    ensures a < 0 ==> -(if b > 0 then b else -b) < r <= 0
    ensures a >= 0 && b > 0 ==> r == a % b
    ensures (a - r) % (if b > 0 then b else -b) == 0
  {
    var m := if b > 0 then b else -b;
    TruncatedRemainder(a, m);
    if a >= 0 then a % m else -((-a) % m)
  }

  /** The dividend minus its truncated remainder is a multiple of the
      divisor. */
  lemma {:induction false} TruncatedRemainder(a: int, m: int)
    requires m > 0
    ensures (a - (if a >= 0 then a % m else -((-a) % m))) % m == 0
  {
    if a >= 0 {
      Multiple(a / m, m);
      assert a - a % m == (a / m) * m;
    } else {
      Multiple(-((-a) / m), m);
      assert a + (-a) % m == -((-a) / m) * m;
    }
  }

  /** A multiple of `m` leaves no remainder. */
  lemma {:induction false} Multiple(q: int, m: int)
    requires m > 0
    ensures (q * m) % m == 0
  {
    var k := q * m;
    var d, e := k / m, k % m;
    assert k == d * m + e && 0 <= e < m;
    assert (q - d) * m == e;
    if q - d > 0 {
      MulLess(1, q - d, m);
    } else if q - d < 0 {
      MulLess(q - d, -1, m);
    }
  }

  /** Go's conversion `byte(x)` of an `int`: its low eight bits. */
  function ToByte(x: int): (r: byte)
    ensures r as int == x % 256
  {
    Count(x % 256)
  }

  /** The byte of value `k`, counted up from zero one increment at a time. */
  function Count(k: nat): (r: byte)
    requires k < 256
    ensures r as int == k
  {
    if k == 0 then 0
    else
      var b := Count(k - 1);
      Increment(b);
      b + 1
  }

  /** Adding one to a byte below 255 adds one to its value. */
  lemma {:induction false} Increment(b: byte)
    requires b as int < 255
    ensures (b + 1) as int == b as int + 1
  {
  }

  /** `PadLen(length, blockSize)`: the number of padding bytes and the padded
      length. For a real length and block size the padding is one to
      `blockSize` bytes and the padded length is the first multiple of the
      block size beyond `length`. */
  function PadLen(length: int, blockSize: int): (r: (int, int))
    requires blockSize != 0
    ensures r.1 == length + r.0
    ensures length >= 0 && blockSize > 0 ==>
      && 1 <= r.0 <= blockSize
      && r.1 == (length / blockSize + 1) * blockSize
      && length < r.1 <= length + blockSize
  {
    var padLen := blockSize - GoRem(length, blockSize);
    var padLen := if padLen == 0 then blockSize else padLen;
    (padLen, length + padLen)
  }

  /** The `padLen == 0` correction in `PadLen` never applies: the remainder
      is always smaller in magnitude than the divisor. */
  lemma {:induction false} PadLenNeverZero(length: int, blockSize: int)
    requires blockSize != 0
    ensures blockSize - GoRem(length, blockSize) != 0
  {
  }

  /** A multiple `q * blockSize` strictly beyond `length` and at most one
      block beyond it is `PadLen`'s padded length: the padding is the least
      positive amount that reaches a block boundary. */
  lemma {:induction false} PadLenUnique(length: nat, blockSize: int, q: int)
    requires blockSize > 0
    requires length < q * blockSize <= length + blockSize
    ensures PadLen(length, blockSize).1 == q * blockSize
  {
    var q' := length / blockSize + 1;
    if q < q' {
      assert (q' - 1) * blockSize == q' * blockSize - blockSize;
      MulLess(q, q' - 1, blockSize);
    } else if q' < q {
      assert (q - 1) * blockSize == q * blockSize - blockSize;
      MulLess(q', q - 1, blockSize);
    }
  }

  /** Multiplying by a positive number keeps `<=`. */
  lemma {:induction false} MulLess(x: int, y: int, m: int)
    requires x <= y && m > 0
    ensures x * m <= y * m
  {
    assert y * m - x * m == (y - x) * m;
  }

  /** `k` copies of the byte `x`. */
  function Repeat(x: byte, k: nat): (r: seq<byte>)
    ensures |r| == k
    ensures forall i :: 0 <= i < k ==> r[i] == x
  {
    seq(k, _ => x)
  }

  /** What `Pad(buf, blockSize)` returns: `buf` followed by `padLen` copies of
      `byte(padLen)`, where `padLen` is `PadLen`'s padding length; a
      non-positive padding length appends nothing. */
  function Padded(buf: seq<byte>, blockSize: int): (r: seq<byte>)
    requires blockSize != 0
    ensures |buf| <= |r| && r[..|buf|] == buf
    ensures 0 < blockSize ==> |r| == PadLen(|buf|, blockSize).1
    ensures forall i :: |buf| <= i < |r| ==> r[i] == ToByte(|r| - |buf|)
  {
    var padLen := PadLen(|buf|, blockSize).0;
    buf + Repeat(ToByte(padLen), if padLen > 0 then padLen else 0)
  }

  /** `Pad`: the loop that appends `byte(padLen)` to `buf` `padLen` times. */
  method Pad(buf: seq<byte>, blockSize: int) returns (r: seq<byte>)
    requires blockSize != 0
    ensures r == Padded(buf, blockSize)
  {
    var padLen := PadLen(|buf|, blockSize).0;
    r := buf;
    var i := 0;
    while i < padLen
      invariant 0 <= i <= if padLen > 0 then padLen else 0
      invariant r == buf + Repeat(ToByte(padLen), i)
    {
      r := r + [ToByte(padLen)];
      i := i + 1;
    }
  }

  /** For a block size a byte can hold, the padded string has a length that
      is a multiple of the block size, at most one block longer than `buf`,
      and it ends in `k` copies of `k`, for its `k` padding bytes. */
  lemma {:induction false} PaddedShape(buf: seq<byte>, blockSize: int)
    requires 0 < blockSize <= 255
    ensures var r := Padded(buf, blockSize);
      && |r| == (|buf| / blockSize + 1) * blockSize
      && |buf| < |r| <= |buf| + blockSize
      && r[|r| - 1] as int == |r| - |buf|
      && forall i :: |buf| <= i < |r| ==> r[i] as int == |r| - |buf|
  {
  }

  /** `UnPad`: drop as many trailing bytes as the last byte says, after
      checking only that there are that many. */
  function UnPad(buf: seq<byte>): (r: Result<seq<byte>, Error>)
    ensures r.Success? <==> |buf| > 0 && buf[|buf| - 1] as int <= |buf|
    ensures r.Success? ==>
      && |r.value| <= |buf| && buf[..|r.value|] == r.value
      && |buf| - |r.value| == buf[|buf| - 1] as int
  {
    if |buf| == 0 then Failure(InvalidPadding)
    else
      var padLen := buf[|buf| - 1] as int;
      if padLen > |buf| then Failure(InvalidPadding)
      else Success(buf[..|buf| - padLen])
  }

  /** A well-formed padding as `UnPadCheck` checks it: a last byte `k` that
      is at most the length, and `k` trailing bytes that all equal `k`. */
  ghost predicate PaddingValid(buf: seq<byte>)
    ensures PaddingValid(buf) ==> UnPad(buf).Success?
  {
    && |buf| > 0
    && buf[|buf| - 1] as int <= |buf|
    && forall i :: |buf| - buf[|buf| - 1] as int <= i < |buf| ==> buf[i] == buf[|buf| - 1]
  }

  /** `UnPadCheck`: like `UnPad`, but it also ors together `b ^ padLen` over
      the padding bytes and fails unless that is zero. All the values are
      below 256, so an eight-bit accumulator holds what Go's `int` holds. */
  method UnPadCheck(buf: seq<byte>) returns (r: Result<seq<byte>, Error>)
    ensures r.Success? <==> PaddingValid(buf)
    ensures r.Success? ==> r == UnPad(buf)
  {
    if |buf| == 0 {
      return Failure(InvalidPadding);
    }
    var padLen := buf[|buf| - 1];
    if padLen as int > |buf| {
      return Failure(InvalidPadding);
    }
    var limit := |buf| - padLen as int;
    var check: byte := 0;
    var i := 0;
    while i < padLen as int
      invariant 0 <= i <= padLen as int
      invariant check == 0 <==> forall j :: limit <= j < limit + i ==> buf[j] == padLen
    {
      OrXorZero(check, buf[limit + i], padLen);
      check := check | (buf[limit + i] ^ padLen);
      i := i + 1;
    }
    if check != 0 {
      return Failure(InvalidPadding);
    }
    return Success(buf[..limit]);
  }

  /** One step of the accumulator: `c | (x ^ p)` is zero exactly when `c` is
      zero and `x` equals `p`. */
  lemma {:induction false} OrXorZero(c: byte, x: byte, p: byte)
    ensures c | (x ^ p) == 0 <==> c == 0 && x == p
  {
  }

  /** Padding with a block size a byte can hold and then unpadding gives
      back the original. */
  lemma {:induction false} UnPadPad(buf: seq<byte>, blockSize: int)
    requires 0 < blockSize <= 255
    ensures UnPad(Padded(buf, blockSize)) == Success(buf)
  {
    PaddedShape(buf, blockSize);
  }

  /** What `Pad` produces passes `UnPadCheck`'s test, so (with `UnPadPad` and
      `UnPadCheck`'s contract) checked unpadding also gives back the original. */
  lemma {:induction false} PaddedValid(buf: seq<byte>, blockSize: int)
    requires 0 < blockSize <= 255
    ensures PaddingValid(Padded(buf, blockSize))
  {
    PaddedShape(buf, blockSize);
  }

  /** A block size of 256 breaks the round trip: padding the empty string
      appends 256 bytes of `byte(256)`, which is zero, and unpadding then
      removes nothing. */
  lemma {:induction false} WideBlockBreaksRoundTrip()
    ensures |Padded([], 256)| == 256
    ensures UnPad(Padded([], 256)) == Success(Padded([], 256))
    ensures UnPad(Padded([], 256)) != Success([])
  {
    assert PadLen(0, 256).0 == 256;
    assert ToByte(256) == Count(0) == 0;
    var r := Padded([], 256);
    assert r == Repeat(0, 256);
    assert r[..|r|] == r;
  }

  /** As written, both unpadding functions accept a string whose last byte
      is zero and return it whole, although a PKCS #7 padding is never
      empty. */
  lemma {:induction false} ZeroPadAccepted(buf: seq<byte>)
    requires |buf| > 0 && buf[|buf| - 1] == 0
    ensures PaddingValid(buf)
    ensures UnPad(buf) == Success(buf)
  {
    assert buf[..|buf|] == buf;
  }

  /** A strict PKCS #7 padding: valid as `UnPadCheck` sees it and at least
      one byte long. */
  ghost predicate StrictPaddingValid(buf: seq<byte>)
  {
    PaddingValid(buf) && buf[|buf| - 1] != 0
  }

  /** `UnPadCheck` with the missing test that the padding length is not
      zero: it accepts exactly the strict paddings and always removes at
      least one byte. */
  method UnPadCheckStrict(buf: seq<byte>) returns (r: Result<seq<byte>, Error>)
    ensures r.Success? <==> StrictPaddingValid(buf)
    ensures r.Success? ==> r == UnPad(buf) && |r.value| < |buf|
  {
    if |buf| > 0 && buf[|buf| - 1] == 0 {
      return Failure(InvalidPadding);
    }
    r := UnPadCheck(buf);
  }

  /** What `Pad` produces with a block size a byte can hold is a strict
      padding, so the strict check keeps the round trip. */
  lemma {:induction false} PaddedStrictValid(buf: seq<byte>, blockSize: int)
    requires 0 < blockSize <= 255
    ensures StrictPaddingValid(Padded(buf, blockSize))
  {
    PaddedShape(buf, blockSize);
  }

  /** The round trip the padding tests exercise: `Pad`, then `UnPad`,
      `UnPadCheck` or the strict check, gives back the original for every
      block size from 1 to 255. */
  method PadRoundTrip(buf: seq<byte>, blockSize: int)
    returns (plain: Result<seq<byte>, Error>, checked: Result<seq<byte>, Error>, strict: Result<seq<byte>, Error>)
    requires 0 < blockSize <= 255
    ensures plain == Success(buf) && checked == Success(buf) && strict == Success(buf)
  {
    var padded := Pad(buf, blockSize);
    UnPadPad(buf, blockSize);
    PaddedValid(buf, blockSize);
    PaddedStrictValid(buf, blockSize);
    plain := UnPad(padded);
    checked := UnPadCheck(padded);
    strict := UnPadCheckStrict(padded);
  }
}
