/** Bytes and big-endian 32-bit words, as the C sources use them. */
module Bytes {
  type byte = bv8
  type word = bv32

  /** GETU32: four bytes, the first one most significant. */
  function Word(a: byte, b: byte, c: byte, d: byte): word {
    (a as word << 24) ^ (b as word << 16) ^ (c as word << 8) ^ (d as word)
  }

  // Exclusive or as named functions, so that proofs about sums need not look at single bits.
  function Xor(a: byte, b: byte): byte { a ^ b }
  function WXor(v: word, w: word): word { v ^ w }

  lemma XorLaws(a: byte, b: byte)
    ensures Xor(a, b) == Xor(b, a) && Xor(Xor(a, b), b) == a && Xor(a, 0) == a == Xor(0, a)
  {
  }

  lemma PlainXorRegroups(a: byte, b: byte, c: byte, d: byte)
    ensures (a ^ b) ^ (c ^ d) == (a ^ c) ^ (b ^ d) && (a ^ b) ^ c == a ^ (b ^ c)
  {
  }

  lemma XorRegroups(a: byte, b: byte, c: byte, d: byte)
    ensures Xor(Xor(a, b), Xor(c, d)) == Xor(Xor(a, c), Xor(b, d)) && Xor(Xor(a, b), c) == Xor(a, Xor(b, c))
  {
    PlainXorRegroups(a, b, c, d);
  }

  // Identities that are decided by bit-blasting are stated with a byte added on both sides: the solver then looks
  // at their bits at once, instead of first moving terms across the equation.
  lemma SameSum(p: byte, q: byte, x: byte)
    requires p + x == q + x
    ensures p == q
  {
  }

  // Doubling in a field of bytes is linear: the shift and the reduction are.
  lemma ShiftXor(x: byte, y: byte)
    ensures (x ^ y) << 1 == (x << 1) ^ (y << 1)
  {
  }

  lemma TopBitXor(x: byte, y: byte, r: byte)
    ensures (if (x ^ y) & 0x80 != 0 then r else 0)
         == (if x & 0x80 != 0 then r else 0) ^ (if y & 0x80 != 0 then r else 0)
  {
  }

  lemma PlainWordXor(u: word, v: word, w: word)
    ensures (u ^ v) ^ w == u ^ (v ^ w) && u ^ v == v ^ u
  {
  }

  lemma WXorAssociates(u: word, v: word, w: word)
    ensures WXor(WXor(u, v), w) == WXor(u, WXor(v, w))
  {
    PlainWordXor(u, v, w);
  }

  lemma WXorCommutes(u: word, v: word)
    ensures WXor(u, v) == WXor(v, u)
  {
  }

  lemma WXorCancels(v: word, w: word)
    ensures WXor(WXor(v, w), w) == v
  {
  }

  function B0(w: word): byte { (w >> 24) as byte }
  function B1(w: word): byte { ((w >> 16) & 0xff) as byte }
  function B2(w: word): byte { ((w >> 8) & 0xff) as byte }
  function B3(w: word): byte { (w & 0xff) as byte }

  lemma BytesOfWord(a: byte, b: byte, c: byte, d: byte)
    ensures B0(Word(a, b, c, d)) == a && B1(Word(a, b, c, d)) == b
    ensures B2(Word(a, b, c, d)) == c && B3(Word(a, b, c, d)) == d
  {
  }

  lemma WordOfBytes(w: word)
    ensures Word(B0(w), B1(w), B2(w), B3(w)) == w
  {
  }

  lemma WordXor(a: byte, b: byte, c: byte, d: byte, e: byte, f: byte, g: byte, h: byte)
    ensures WXor(Word(a, b, c, d), Word(e, f, g, h)) == Word(Xor(a, e), Xor(b, f), Xor(c, g), Xor(d, h))
  {
  }

  lemma BytesOfSum(v: word, w: word)
    ensures B0(v ^ w) == B0(v) ^ B0(w) && B1(v ^ w) == B1(v) ^ B1(w)
    ensures B2(v ^ w) == B2(v) ^ B2(w) && B3(v ^ w) == B3(v) ^ B3(w)
  {
  }

  lemma BytesXor(v: word, w: word)
    ensures B0(WXor(v, w)) == Xor(B0(v), B0(w)) && B1(WXor(v, w)) == Xor(B1(v), B1(w))
    ensures B2(WXor(v, w)) == Xor(B2(v), B2(w)) && B3(WXor(v, w)) == Xor(B3(v), B3(w))
  {
    hide B0, B1, B2, B3;
    BytesOfSum(v, w);
  }

  function XorSeq(a: seq<byte>, b: seq<byte>): (r: seq<byte>)
    requires |a| == |b|
    ensures |r| == |a|
  {
    seq(|a|, i requires 0 <= i < |a| => Xor(a[i], b[i]))
  }

  function Zeros(n: nat): (r: seq<byte>)
    ensures |r| == n
  {
    seq(n, i => 0)
  }

  lemma XorSeqAssociates(a: seq<byte>, b: seq<byte>, c: seq<byte>)
    requires |a| == |b| == |c|
    ensures XorSeq(XorSeq(a, b), c) == XorSeq(a, XorSeq(b, c))
  {
    hide Xor;
    forall i | 0 <= i < |a|
      ensures Xor(Xor(a[i], b[i]), c[i]) == Xor(a[i], Xor(b[i], c[i]))
    {
      XorRegroups(a[i], b[i], c[i], c[i]);
    }
  }

  // ----- Buffers

  /** The buffer s with p written over it at offset at. */
  function Splice<T>(s: seq<T>, at: nat, p: seq<T>): (r: seq<T>)
    requires at + |p| <= |s|
    ensures |r| == |s|
  {
    s[..at] + p + s[at + |p|..]
  }

  lemma SpliceTwice<T>(s: seq<T>, at: nat, p: seq<T>, q: seq<T>)
    requires at + |p| + |q| <= |s|
    ensures Splice(Splice(s, at, p), at + |p|, q) == Splice(s, at, p + q)
  {
  }

  lemma SpliceRead<T>(s: seq<T>, at: nat, p: seq<T>)
    requires at + |p| <= |s|
    ensures Splice(s, at, p)[at..at + |p|] == p
    ensures Splice(Splice(s, at, p), at, s[at..at + |p|]) == s
  {
  }

  lemma SpliceSwap<T>(s: seq<T>, a: nat, p: seq<T>, b: nat, q: seq<T>)
    requires a + |p| <= b && b + |q| <= |s|
    ensures Splice(Splice(s, a, p), b, q) == Splice(Splice(s, b, q), a, p)
  {
  }

  lemma SpliceSame<T>(s: seq<T>, at: nat, p: seq<T>)
    requires at + |p| <= |s| && s[at..at + |p|] == p
    ensures Splice(s, at, p) == s
  {
  }

  lemma SpliceWhole<T>(s: seq<T>, p: seq<T>)
    requires |p| == |s|
    ensures Splice(s, 0, p) == p
  {
  }

  /** Writing inside an earlier piece rewrites that piece. */
  lemma SpliceInside<T>(s: seq<T>, at: nat, p: seq<T>, i: nat, q: seq<T>)
    requires at + |p| <= |s| && i + |q| <= |p|
    ensures Splice(Splice(s, at, p), at + i, q) == Splice(s, at, Splice(p, i, q))
  {
  }

  lemma SliceOfSlice<T>(s: seq<T>, i: nat, n: nat, j: nat, l: nat)
    requires i + n <= |s| && j + l <= n
    ensures s[i..i + n][j..j + l] == s[i + j..i + j + l]
  {
    var whole, part := s[i..i + n], s[i + j..i + j + l];
    forall k | 0 <= k < l
      ensures whole[j..j + l][k] == part[k]
    {
      assert whole[j + k] == s[i + (j + k)];
    }
  }

  lemma SliceOfPrefix<T>(s: seq<T>, t: seq<T>, i: nat, n: nat)
    requires i + n <= |s|
    ensures (s + t)[i..i + n] == s[i..i + n]
  {
  }

  lemma SliceOfSuffix<T>(s: seq<T>, t: seq<T>, i: nat, n: nat)
    requires i + n <= |t|
    ensures (s + t)[|s| + i..|s| + i + n] == t[i..i + n]
  {
  }

  lemma SpliceElsewhere<T>(s: seq<T>, at: nat, p: seq<T>, i: nat, j: nat)
    requires at + |p| <= |s| && i <= j <= |s|
    requires j <= at || at + |p| <= i
    ensures Splice(s, at, p)[i..j] == s[i..j]
  {
  }

  lemma SpliceAgain<T>(s: seq<T>, at: nat, p: seq<T>, q: seq<T>)
    requires at + |p| <= |s| && |q| == |p|
    ensures Splice(Splice(s, at, p), at, q) == Splice(s, at, q)
  {
  }

  /** memcpy between different buffers. */
  method Copy<T>(src: array<T>, s: nat, dst: array<T>, d: nat, n: nat)
    requires s + n <= src.Length && d + n <= dst.Length && src != dst
    modifies dst
    ensures dst[..] == Splice(old(dst[..]), d, src[s..s + n])
  {
    for j := 0 to n
      invariant forall k | 0 <= k < dst.Length :: dst[k] == if d <= k < d + j then src[s + k - d] else old(dst[k])
    {
      dst[d + j] := src[s + j];
    }
  }

  /** memset. */
  method Fill<T>(dst: array<T>, d: nat, n: nat, x: T)
    requires d + n <= dst.Length
    modifies dst
    ensures dst[..] == Splice(old(dst[..]), d, seq(n, i => x))
  {
    for j := 0 to n
      invariant forall k | 0 <= k < dst.Length :: dst[k] == if d <= k < d + j then x else old(dst[k])
    {
      dst[d + j] := x;
    }
  }

  /** Bytes given by value, written one by one. */
  method PutBytes<T>(out: array<T>, o: nat, p: seq<T>)
    requires o + |p| <= out.Length
    modifies out
    ensures out[..] == Splice(old(out[..]), o, p)
  {
    for i := 0 to |p|
      invariant forall k | 0 <= k < out.Length :: out[k] == if o <= k < o + i then p[k - o] else old(out[k])
    {
      out[o + i] := p[i];
    }
  }

  function WordBytes(w: word): (b: seq<byte>)
    ensures |b| == 4
  {
    [B0(w), B1(w), B2(w), B3(w)]
  }

  /** GETU32 at an offset. */
  function WordAt(s: seq<byte>, at: nat): word
    requires at + 4 <= |s|
  {
    Word(s[at], s[at + 1], s[at + 2], s[at + 3])
  }

  /** PUTU32. */
  method PutU32(out: array<byte>, at: nat, w: word)
    requires at + 4 <= out.Length
    modifies out
    ensures out[..] == Splice(old(out[..]), at, WordBytes(w))
  {
    hide B0, B1, B2, B3;
    out[at] := B0(w);
    out[at + 1] := B1(w);
    out[at + 2] := B2(w);
    out[at + 3] := B3(w);
  }
}
