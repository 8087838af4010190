/** Byte strings and the few slice primitives of Go that the modes use:
    exclusive or of two blocks, zero padding, and the built-in `copy`,
    which copies as many bytes as fit in both slices. */
module Bytes {

  type byte = bv8

  function Min(a: int, b: int): int
  {
    if a < b then a else b
  }

  /** Bitwise exclusive or of two equally long byte strings. */
  function Xor(a: seq<byte>, b: seq<byte>): (r: seq<byte>)
    requires |a| == |b|
    ensures |r| == |a|
    ensures forall i {:trigger r[i]} :: 0 <= i < |r| ==> r[i] == a[i] ^ b[i]
  {
    seq(|a|, i requires 0 <= i < |a| => a[i] ^ b[i])
  }

  /** Xoring twice with the same mask gives back the original. */
  lemma {:induction false} XorTwice(a: seq<byte>, m: seq<byte>)
    requires |a| == |m|
    ensures Xor(Xor(a, m), m) == a
  {
    assert forall i | 0 <= i < |a| :: Xor(Xor(a, m), m)[i] == a[i];
  }

  /** `k` zero bytes. */
  function Zeros(k: nat): (r: seq<byte>)
    ensures |r| == k
    ensures forall i :: 0 <= i < k ==> r[i] == 0
  {
    seq(k, _ => 0)
  }

  /** `s` extended on the right with zero bytes to `n` bytes. */
  function ZeroPad(s: seq<byte>, n: nat): (r: seq<byte>)
    requires |s| <= n
    ensures |r| == n && r[..|s|] == s
    ensures forall i :: |s| <= i < n ==> r[i] == 0
  {
    s + Zeros(n - |s|)
  }

  /** The contents of `d` after Go's `copy(d[off:], s)`: byte `off + i` of `d`
      becomes `s[i]` for every `i` that is inside both `s` and `d[off:]`, and
      every other byte keeps its value. */
  function Write(d: seq<byte>, off: nat, s: seq<byte>): (r: seq<byte>)
    requires off <= |d|
    ensures |r| == |d|
    ensures forall i {:trigger r[i]} :: 0 <= i < |d| ==> r[i] == if off <= i < off + |s| then s[i - off] else d[i]
  {
    seq(|d|, i requires 0 <= i < |d| => if off <= i < off + |s| then s[i - off] else d[i])
  }

  /** Two adjacent writes are one write of the concatenation. */
  lemma {:induction false} WriteAdjacent(d: seq<byte>, a: seq<byte>, b: seq<byte>)
    requires |a| <= |d|
    ensures Write(Write(d, 0, a), |a|, b) == Write(d, 0, a + b)
  {
    var lhs, rhs := Write(Write(d, 0, a), |a|, b), Write(d, 0, a + b);
    assert forall i | 0 <= i < |d| :: lhs[i] == rhs[i];
  }

  /** Writing nothing changes nothing, and nothing in front of `s` is `s`. */
  lemma {:induction false} WriteEmpty(d: seq<byte>, s: seq<byte>)
    ensures Write(d, 0, []) == d && [] + s == s
  {
  }

  /** Concatenation is associative. */
  lemma {:induction false} ConcatAssoc(a: seq<byte>, e: seq<byte>, s: seq<byte>)
    ensures a + (e + s) == a + e + s
  {
  }

  /** Writing `a` from the start and then `e` and `s` one after the other
      behind it is one write of `a + e + s`. */
  lemma {:induction false} WriteTwoAfter(d: seq<byte>, a: seq<byte>, e: seq<byte>, s: seq<byte>)
    requires |a| + |e| <= |d|
    ensures Write(Write(Write(d, 0, a), |a|, e), |a| + |e|, s) == Write(d, 0, a + e + s)
  {
    WriteAdjacent(d, a, e);
    WriteAdjacent(d, a + e, s);
  }

  /** A write from the start of at least as many bytes as `d` holds
      replaces all of `d`. */
  lemma {:induction false} WriteWhole(d: seq<byte>, s: seq<byte>)
    requires |s| >= |d|
    ensures Write(d, 0, s) == s[..|d|]
  {
  }

  /** What a write that fits is found where it was written. */
  lemma {:induction false} WriteSlice(d: seq<byte>, off: nat, s: seq<byte>)
    requires off + |s| <= |d|
    ensures Write(d, off, s)[off..off + |s|] == s
  {
  }

  /** A second write of as many bytes at the same place hides the first. */
  lemma {:induction false} WriteTwice(d: seq<byte>, off: nat, s: seq<byte>, s': seq<byte>)
    requires off + |s| <= |d| && |s'| == |s|
    ensures Write(Write(d, off, s), off, s') == Write(d, off, s')
  {
    var lhs, rhs := Write(Write(d, off, s), off, s'), Write(d, off, s');
    assert forall i | 0 <= i < |d| :: lhs[i] == rhs[i];
  }

  /** Writing `a`, then `s` after a gap of `|e|` bytes, then `e` into the
      gap, is one write of `a + e + s`. */
  lemma {:induction false} WriteTriple(d: seq<byte>, a: seq<byte>, e: seq<byte>, s: seq<byte>)
    requires |a| + |e| <= |d|
    ensures Write(Write(Write(d, 0, a), |a| + |e|, s), |a|, e) == Write(d, 0, a + e + s)
  {
    var lhs, rhs := Write(Write(Write(d, 0, a), |a| + |e|, s), |a|, e), Write(d, 0, a + e + s);
    assert forall i | 0 <= i < |d| :: lhs[i] == rhs[i];
  }

  /** The bytes of a write from the start, as far as both reach. */
  lemma {:induction false} WritePrefix(d: seq<byte>, s: seq<byte>, k: nat)
    requires k <= |s| && k <= |d|
    ensures Write(d, 0, s)[..k] == s[..k]
  {
  }

  /** A write that fits, from the start, leaves exactly what was written
      in front. */
  lemma {:induction false} WriteFull(d: seq<byte>, s: seq<byte>)
    requires |s| <= |d|
    ensures Write(d, 0, s)[..|s|] == s
  {
  }

  /** `copy(a, s)` filling all of `a` from a source at least as long. */
  method Load(a: array<byte>, s: seq<byte>)
    requires a.Length <= |s|
    modifies a
    ensures a[..] == s[..a.Length]
  {
    ghost var a0 := a[..];
    var _ := Copy(a, 0, s);
    WriteWhole(a0, s);
  }

  /** Go's `copy(dst[off:], src)`; returns the number of bytes copied. */
  method Copy(dst: array<byte>, off: nat, src: seq<byte>) returns (k: nat)
    requires off <= dst.Length
    modifies dst
    ensures k == Min(dst.Length - off, |src|)
    ensures dst[..] == Write(old(dst[..]), off, src)
  {
    k := Min(dst.Length - off, |src|);
    forall i | off <= i < off + k {
      dst[i] := src[i - off];
    }
  }

  /** Go's `bytes.Clone`: a new array with the same contents. */
  method Clone(a: array<byte>) returns (c: array<byte>)
    ensures fresh(c) && c[..] == a[..]
  {
    c := new byte[a.Length](i => 0);
    forall i | 0 <= i < a.Length {
      c[i] := a[i];
    }
  }

  /** The loop `for j, b := range mask { dst[off+j] ^= b }`. */
  method XorInto(dst: array<byte>, off: nat, mask: seq<byte>)
    requires off + |mask| <= dst.Length
    modifies dst
    ensures dst[..] == Write(old(dst[..]), off, Xor(old(dst[off..off + |mask|]), mask))
  {
    ghost var d0 := dst[..];
    for j := 0 to |mask|
      invariant forall i :: 0 <= i < dst.Length ==>
        dst[i] == if off <= i < off + j then d0[i] ^ mask[i - off] else d0[i]
    {
      dst[off + j] := dst[off + j] ^ mask[j];
    }
    ghost var x := Xor(d0[off..off + |mask|], mask);
    assert forall i | 0 <= i < dst.Length :: dst[..][i] == Write(d0, off, x)[i];
  }

  /** The loop `for j := range a { a[j] ^= mask[j] }` over all of `a`. */
  method XorBlock(a: array<byte>, mask: seq<byte>)
    requires |mask| == a.Length
    modifies a
    ensures a[..] == Xor(old(a[..]), mask)
  {
    ghost var a0 := a[..];
    XorInto(a, 0, mask);
    assert a0[0..|mask|] == a0;
    WriteWhole(a0, Xor(a0, mask));
  }

  /** A prefix of `a + l` that covers `a` is `a` followed by a prefix of `l`. */
  lemma {:induction false} TakeAppend(a: seq<byte>, l: seq<byte>, k: nat)
    requires |a| <= k <= |a| + |l|
    ensures (a + l)[..k] == a + l[..k - |a|]
  {
  }

  /** If `r` agrees with `d` from `t` on, then zero-padding the first `t`
      bytes of `d xor r` and xoring with `r` gives back `d`. */
  lemma {:induction false} UnstealTail(d: seq<byte>, r: seq<byte>, t: nat)
    requires |d| == |r| && t <= |d| && r[t..] == d[t..]
    ensures Xor(ZeroPad(Xor(d, r)[..t], |d|), r) == d
  {
    var f, x := Xor(d, r), Xor(ZeroPad(Xor(d, r)[..t], |d|), r);
    forall i | 0 <= i < |d|
      ensures x[i] == d[i]
    {
      if i >= t {
        assert r[i] == r[t..][i - t];
      }
    }
  }

  /** Xoring `s` with `x` zero-padded to `|s|` bytes leaves the bytes of `s`
      after `|x|` alone, so they can be recovered from the result. */
  lemma {:induction false} StealTail(x: seq<byte>, s: seq<byte>)
    requires |x| <= |s|
    ensures s[..|x|] + Xor(ZeroPad(x, |s|), s)[|x|..] == s
  {
    var d, r := Xor(ZeroPad(x, |s|), s), s[..|x|] + Xor(ZeroPad(x, |s|), s)[|x|..];
    forall i | 0 <= i < |s|
      ensures r[i] == s[i]
    {
      if i >= |x| {
        assert r[i] == d[i];
      }
    }
  }
}
