/** AES-CMAC as RFC 4493 defines it, and the function EncryptRegion of modules/idsregeneration/main.c
    that computes it. */
module Cmac {
  import opened Bytes
  import opened Fips197
  import opened AesCore

  // ----- Section 2.3: subkeys

  /** A byte shifted left by one bit, taking in the top bit of the next. */
  function ShiftIn(x: byte, next: byte): byte { (x << 1) | (next >> 7) }

  /** A block shifted left by one bit. */
  function ShiftedLeft(b: seq<byte>): (r: seq<byte>)
    requires Block(b)
    ensures Block(r)
  {
    seq(16, i requires 0 <= i < 16 => ShiftIn(b[i], if i < 15 then b[i + 1] else 0))
  }

  /** Multiplication by x: shift, and add the constant if the bit shifted out was set. */
  function Double(b: seq<byte>): (r: seq<byte>)
    requires Block(b)
    ensures Block(r)
  {
    if b[0] & 0x80 == 0 then ShiftedLeft(b) else ShiftedLeft(b)[15 := ShiftedLeft(b)[15] ^ 0x87]
  }

  predicate BitOf(x: byte, i: nat) requires i < 8 { (x >> (7 - i)) & 1 == 1 }

  /** The bits of a buffer, most significant first. */
  function Bits(b: seq<byte>): (r: seq<bool>)
    ensures |r| == 8 * |b|
  {
    seq(8 * |b|, i requires 0 <= i < 8 * |b| => BitOf(b[i / 8], i % 8))
  }

  lemma BitsAt(b: seq<byte>, j: nat, c: nat)
    requires j < |b| && c < 8
    ensures Bits(b)[8 * j + c] == BitOf(b[j], c)
  {
    hide BitOf;
    assert (8 * j + c) / 8 == j && (8 * j + c) % 8 == c;
  }

  lemma ShiftedBit(x: byte, y: byte, i: nat)
    requires i < 8
    ensures BitOf(ShiftIn(x, y), i) == if i < 7 then BitOf(x, i + 1) else BitOf(y, 0)
  {
    if i == 0 {} else if i == 1 {} else if i == 2 {} else if i == 3 {}
    else if i == 4 {} else if i == 5 {} else if i == 6 {} else {}
  }

  lemma NoBits()
    ensures forall i: nat | i < 8 :: !BitOf(0, i)
  {
  }

  /** The byte-wise shift really is the shift of the 128-bit string. */
  lemma ShiftedLeftIsShift(b: seq<byte>)
    requires Block(b)
    ensures Bits(ShiftedLeft(b)) == Bits(b)[1..] + [false]
  {
    hide Bits, ShiftedLeft;
    forall i: nat | i < 128
      ensures Bits(ShiftedLeft(b))[i] == (i < 127 && Bits(b)[i + 1])
    {
      assert i == 8 * (i / 8) + i % 8;
      BitArrives(b, i / 8, i % 8);
    }
  }

  lemma BitArrives(b: seq<byte>, j: nat, c: nat)
    requires Block(b) && j < 16 && c < 8
    ensures Bits(ShiftedLeft(b))[8 * j + c] == (8 * j + c < 127 && Bits(b)[8 * j + c + 1])
  {
    hide Bits, ShiftedLeft, BitOf;
    BitMoves(b, j, c);
    BitsAt(ShiftedLeft(b), j, c);
    if c < 7 {
      BitsAt(b, j, c + 1);
    } else if j < 15 {
      BitsAt(b, j + 1, 0);
    }
  }

  lemma BitMoves(b: seq<byte>, j: nat, c: nat)
    requires Block(b) && j < 16 && c < 8
    ensures BitOf(ShiftedLeft(b)[j], c) == if c < 7 then BitOf(b[j], c + 1) else j < 15 && BitOf(b[j + 1], 0)
  {
    hide BitOf, ShiftIn;
    ShiftedBit(b[j], if j < 15 then b[j + 1] else 0, c);
    NoBits();
  }

  // ----- Section 2.4: the MAC

  function NumBlocks(size: nat): (n: nat)
    ensures 1 <= n && 16 * (n - 1) <= size <= 16 * n && (size != 0 ==> 16 * (n - 1) < size)
  {
    if size == 0 then 1 else (size + 15) / 16
  }

  /** padding(x): a one bit and zeros up to a whole block. */
  function Padded(m: seq<byte>): (r: seq<byte>)
    requires |m| < 16
    ensures Block(r)
  {
    m + [0x80] + Zeros(15 - |m|)
  }

  /** The chaining value after n whole blocks. */
  function Chain(k: seq<byte>, m: seq<byte>, n: nat): (r: seq<byte>)
    requires UserKey(k) && 16 * n <= |m|
    ensures Block(r)
  {
    if n == 0 then Zeros(16) else Encrypt(k, XorSeq(Chain(k, m, n - 1), m[16 * n - 16..16 * n]))
  }

  function MLast(k: seq<byte>, m: seq<byte>): (r: seq<byte>)
    requires UserKey(k)
    ensures Block(r)
  {
    var last := m[16 * (NumBlocks(|m|) - 1)..];
    var k1 := Double(Encrypt(k, Zeros(16)));
    if |last| == 16 then XorSeq(last, k1) else XorSeq(Padded(last), Double(k1))
  }

  /** AES-CMAC(k, m). */
  function Mac(k: seq<byte>, m: seq<byte>): (r: seq<byte>)
    requires UserKey(k)
    ensures Block(r)
  {
    Encrypt(k, XorSeq(Chain(k, m, NumBlocks(|m|) - 1), MLast(k, m)))
  }

  // ----- The pieces of EncryptRegion

  predicate Apart(a: array<byte>, i: nat, m: nat, b: array<byte>, j: nat, n: nat) {
    a != b || i + m <= j || j + n <= i
  }

  /** out[j] ^= src[j], sixteen times. */
  method XorInto(out: array<byte>, o: nat, src: array<byte>, s: nat)
    requires o + 16 <= out.Length && s + 16 <= src.Length && Apart(out, o, 16, src, s, 16)
    modifies out
    ensures out[..] == Splice(old(out[..]), o, XorSeq(old(out[o..o + 16]), old(src[s..s + 16])))
  {
    for j := 0 to 16
      invariant forall k | 0 <= k < out.Length :: out[k]
                  == if o <= k < o + j then Xor(old(out[k]), old(src[s + k - o])) else old(out[k])
      invariant forall k | s <= k < s + 16 :: src[k] == old(src[k])
    {
      out[o + j] := Xor(out[o + j], src[s + j]);
    }
  }

  method ShiftLeftInPlace(k2: array<byte>)
    requires k2.Length == 16
    modifies k2
    ensures k2[..] == ShiftedLeft(old(k2[..]))
  {
    hide ShiftIn, ShiftedLeft;
    ghost var was := k2[..];
    for j := 0 to 15
      invariant forall i | 0 <= i < j :: k2[i] == ShiftIn(was[i], was[i + 1])
      invariant forall i | j <= i < 16 :: k2[i] == was[i]
    {
      k2[j] := ShiftIn(k2[j], k2[j + 1]);
    }
    ShiftsOut(was[15]);
    k2[15] := k2[15] << 1;
    EveryByteShifted(was, k2[..]);
  }

  lemma EveryByteShifted(was: seq<byte>, now: seq<byte>)
    requires Block(was) && Block(now) && now[15] == ShiftIn(was[15], 0)
    requires forall i | 0 <= i < 15 :: now[i] == ShiftIn(was[i], was[i + 1])
    ensures now == ShiftedLeft(was)
  {
    hide ShiftIn;
  }

  /** The subkey doubling, in place. */
  method DoubleInPlace(k2: array<byte>)
    requires k2.Length == 16
    modifies k2
    ensures k2[..] == Double(old(k2[..]))
  {
    hide ShiftedLeft;
    var x := k2[0] & 0x80 != 0;
    ShiftLeftInPlace(k2);
    if x {
      k2[15] := k2[15] ^ 0x87;
    }
  }

  lemma ShiftsOut(x: byte)
    ensures ShiftIn(x, 0) == x << 1
  {
  }

  /** The last, partial block with its padding. */
  method PadLast(k1: array<byte>, input: array<byte>, at: nat, a: nat)
    requires k1.Length == 16 && a < 16 && at + a <= input.Length && k1 != input
    modifies k1
    ensures k1[..] == Padded(input[at..at + a])
  {
    var i := 0;
    while i < a
      invariant 0 <= i <= a && k1[..i] == input[at..at + i]
    {
      k1[i] := input[at + i];
      i := i + 1;
    }
    k1[i] := 0x80;
    i := i + 1;
    while i < 16
      invariant a < i <= 16 && k1[..i] == input[at..at + a] + [0x80] + Zeros(i - a - 1)
    {
      k1[i] := 0;
      i := i + 1;
    }
    assert k1[..] == k1[..16];
  }

  /** What writing 16 bytes of one buffer leaves of another, or of a part of itself that lies apart. */
  lemma InputKept(inWas: seq<byte>, inNow: seq<byte>, same: bool, i: nat, n: nat, outWas: seq<byte>, o: nat,
                  p: seq<byte>)
    requires i + n <= |inWas| == |inNow| && o + |p| <= |outWas|
    requires if same then inWas == outWas && inNow == Splice(outWas, o, p) && (i + n <= o || o + |p| <= i)
             else inNow == inWas
    ensures inNow[i..i + n] == inWas[i..i + n]
  {
    hide Splice;
    if same {
      SpliceElsewhere(outWas, o, p, i, i + n);
    }
  }

  method ClearBlock(out: array<byte>, o: nat)
    requires o + 16 <= out.Length
    modifies out
    ensures out[..] == Splice(old(out[..]), o, Zeros(16))
  {
    for j := 0 to 16
      invariant forall k | 0 <= k < out.Length :: out[k] == if o <= k < o + j then 0 else old(out[k])
    {
      out[o + j] := 0;
    }
  }

  /** The chaining loop, over the first n blocks of the message. */
  method ChainBlocks(key: AesKey, ghost k: seq<byte>, input: array<byte>, i: nat, ghost size: nat, n: nat,
                     out: array<byte>, o: nat)
    requires UserKey(k) && key.EncryptsUnder(k) && 16 * n <= size && i + size <= input.Length && o + 16 <= out.Length
    requires Apart(input, i, size, out, o, 16)
    modifies out
    ensures out[..] == Splice(old(out[..]), o, Chain(k, old(input[i..i + size]), n))
    ensures input[i..i + size] == old(input[i..i + size])
  {
    hide AesKey.EncryptsUnder, Encrypt, XorSeq, Splice, Chain;
    ghost var m, was, inWas := input[i..i + size], out[..], input[..];
    ClearBlock(out, o);
    InputKept(inWas, input[..], input == out, i, size, was, o, Zeros(16));
    NoBlocks(k, m);
    for b := 0 to n
      invariant out[..] == Splice(was, o, Chain(k, m, b))
      invariant input[i..i + size] == m
    {
      ghost var inNow, outNow := input[..], out[..];
      BlockReady(Chain(k, m, b), m, b, inNow, i, size, was, o, outNow);
      NextLink(k, m, b);
      assert out[o..o + 16] == outNow[o..o + 16];
      assert input[i + 16 * b..i + 16 * b + 16] == inNow[i + 16 * b..i + 16 * b + 16];
      ChainBlock(key, k, input, i + 16 * b, out, o);
      InputKept(inNow, input[..], input == out, i, size, outNow, o, Chain(k, m, b + 1));
      SpliceAgain(was, o, Chain(k, m, b), Chain(k, m, b + 1));
    }
  }

  lemma NoBlocks(k: seq<byte>, m: seq<byte>)
    requires UserKey(k)
    ensures Chain(k, m, 0) == Zeros(16)
  {
  }

  ghost predicate Links(k: seq<byte>, m: seq<byte>, b: nat)
    requires UserKey(k) && 16 * b + 16 <= |m|
  {
    hide Chain, Encrypt, XorSeq;
    Chain(k, m, b + 1) == Encrypt(k, XorSeq(Chain(k, m, b), m[16 * b..16 * b + 16]))
  }

  lemma NextLink(k: seq<byte>, m: seq<byte>, b: nat)
    requires UserKey(k) && 16 * b + 16 <= |m|
    ensures Links(k, m, b)
  {
    hide Encrypt, XorSeq;
    assert 16 * (b + 1) - 16 == 16 * b && 16 * (b + 1) == 16 * b + 16;
  }

  /** The chaining value and the block stand where ChainBlock reads them. */
  lemma BlockReady(c: seq<byte>, m: seq<byte>, b: nat, inNow: seq<byte>, i: nat, size: nat, was: seq<byte>, o: nat,
                   outNow: seq<byte>)
    requires Block(c) && |m| == size && 16 * b + 16 <= size && i + size <= |inNow| && inNow[i..i + size] == m
    requires o + 16 <= |was| && outNow == Splice(was, o, c)
    ensures outNow[o..o + 16] == c
    ensures inNow[i + 16 * b..i + 16 * b + 16] == m[16 * b..16 * b + 16]
  {
    hide Splice;
    SpliceRead(was, o, c);
    SliceOfSlice(inNow, i, size, 16 * b, 16);
  }

  /** One iteration: the block is added to the chaining value, which is then enciphered in place. */
  method ChainBlock(key: AesKey, ghost k: seq<byte>, input: array<byte>, i: nat, out: array<byte>, o: nat)
    requires UserKey(k) && key.EncryptsUnder(k) && i + 16 <= input.Length && o + 16 <= out.Length
    requires Apart(input, i, 16, out, o, 16)
    modifies out
    ensures out[..] == Splice(old(out[..]), o, Encrypt(k, XorSeq(old(out[o..o + 16]), old(input[i..i + 16]))))
  {
    hide AesKey.EncryptsUnder, Encrypt, XorSeq;
    ghost var x := XorSeq(out[o..o + 16], input[i..i + 16]);
    XorInto(out, o, input, i);
    assert out[o..o + 16] == x;
    EncryptUnder(out, o, out, o, key, k);
  }

  /** The enciphered zero block, doubled times times: K1 for one, K2 for two. */
  method Subkey(key: AesKey, ghost k: seq<byte>, times: nat) returns (k2: array<byte>)
    requires UserKey(k) && key.EncryptsUnder(k) && 1 <= times <= 2
    ensures fresh(k2) && k2.Length == 16
    ensures k2[..] == var k1 := Double(Encrypt(k, Zeros(16))); if times == 1 then k1 else Double(k1)
  {
    hide AesKey.EncryptsUnder, Encrypt, Double;
    k2 := new byte[16];
    ClearBlock(k2, 0);
    assert k2[0..16] == Zeros(16);
    EncryptUnder(k2, 0, k2, 0, key, k);
    assert k2[..] == Encrypt(k, Zeros(16));
    ghost var l := k2[..];
    for i := 0 to times
      invariant k2[..] == if i == 0 then l else if i == 1 then Double(l) else Double(Double(l))
    {
      DoubleInPlace(k2);
    }
  }

  /** The last block as EncryptRegion adds it: the message's own, or the padded rest. */
  function LastBlock(m: seq<byte>): (r: seq<byte>)
    ensures Block(r)
  {
    var last := m[16 * (NumBlocks(|m|) - 1)..];
    if |last| == 16 then last else Padded(last)
  }

  function Doublings(size: nat): (n: nat)
    ensures 1 <= n <= 2
  {
    if size % 16 != 0 || size == 0 then 2 else 1
  }

  lemma MLastBySubkey(k: seq<byte>, m: seq<byte>)
    requires UserKey(k)
    ensures var k1 := Double(Encrypt(k, Zeros(16)));
            MLast(k, m) == XorSeq(LastBlock(m), if Doublings(|m|) == 1 then k1 else Double(k1))
  {
    hide Double, Encrypt, XorSeq, Padded;
    assert |m[16 * (NumBlocks(|m|) - 1)..]| == 16 <==> Doublings(|m|) == 1;
  }

  /** From the chaining value to the MAC: the last block, the subkey, one more encipherment. */
  method FinishMac(key: AesKey, ghost k: seq<byte>, ghost m: seq<byte>, r: array<byte>, rs: nat, times: nat,
                   out: array<byte>, o: nat)
    requires UserKey(k) && key.EncryptsUnder(k) && o + 16 <= out.Length && rs + 16 <= r.Length
    requires Apart(out, o, 16, r, rs, 16) && r[rs..rs + 16] == LastBlock(m) && times == Doublings(|m|)
    requires out[o..o + 16] == Chain(k, m, NumBlocks(|m|) - 1)
    modifies out
    ensures out[..] == Splice(old(out[..]), o, Mac(k, m))
  {
    hide AesKey.EncryptsUnder, Encrypt, Double, XorSeq, Splice, LastBlock, MLast, Chain, NumBlocks;
    ghost var was, chain := out[..], Chain(k, m, NumBlocks(|m|) - 1);
    XorInto(out, o, r, rs);
    ghost var x := XorSeq(chain, LastBlock(m));
    SpliceRead(was, o, x);
    assert out[o..o + 16] == out[..][o..o + 16];
    var k2 := Subkey(key, k, times);
    ghost var k2s := k2[..];
    assert k2[0..16] == k2s;
    XorInto(out, o, k2, 0);
    SpliceAgain(was, o, x, XorSeq(x, k2s));
    SpliceRead(was, o, XorSeq(x, k2s));
    assert out[o..o + 16] == out[..][o..o + 16];
    EncryptUnder(out, o, out, o, key, k);
    MLastBySubkey(k, m);
    XorSeqAssociates(chain, LastBlock(m), k2s);
    SpliceAgain(was, o, XorSeq(x, k2s), Mac(k, m));
  }

  lemma LastBlockIs(m: seq<byte>)
    ensures if |m| % 16 != 0 || |m| == 0 then LastBlock(m) == Padded(m[|m| - |m| % 16..])
            else 16 <= |m| && LastBlock(m) == m[|m| - 16..]
  {
    hide Padded;
  }

  lemma Counts(size: nat)
    ensures if size % 16 != 0 || size == 0 then NumBlocks(size) == size / 16 + 1 && Doublings(size) == 2
            else NumBlocks(size) == size / 16 && Doublings(size) == 1 && size / 16 * 16 == size
  {
  }

  lemma EndOfSlice(s: seq<byte>, i: nat, size: nat, a: nat)
    requires i + size <= |s| && a <= size
    ensures s[i..i + size][size - a..] == s[i + size - a..i + size]
  {
  }

  /** Where the last block is to be found, and how many blocks there are: a partial or empty last block is
      padded in a buffer of its own. */
  method PickLast(input: array<byte>, i: nat, size: nat) returns (r: array<byte>, rs: nat, v: nat, a: nat)
    requires i + size <= input.Length
    ensures v == NumBlocks(size) && (a != 0 <==> Doublings(size) == 2)
    ensures rs + 16 <= r.Length && r[rs..rs + 16] == LastBlock(input[..][i..i + size])
    ensures if a == 0 then r == input && i <= rs && rs + 16 <= i + size else fresh(r)
  {
    hide Padded, LastBlock, NumBlocks, Doublings;
    ghost var s := input[..];
    ghost var m := s[i..i + size];
    LastBlockIs(m);
    Counts(size);
    v := size / 16;
    a := size % 16;
    if a != 0 || size == 0 {
      EndOfSlice(s, i, size, a);
      r := PadRest(input, i + size - a, a, m);
      v := v + 1;
      a := 16;
      rs := 0;
    } else {
      r, rs := input, i + v * 16 - 16;
      EndOfSlice(s, i, size, 16);
      assert rs == i + size - 16;
      assert r[rs..rs + 16] == s[rs..rs + 16];
    }
  }

  method PadRest(input: array<byte>, at: nat, a: nat, ghost m: seq<byte>) returns (k1: array<byte>)
    requires a < 16 && at + a <= input.Length && LastBlock(m) == Padded(input[..][at..at + a])
    ensures fresh(k1) && k1.Length == 16 && k1[0..16] == LastBlock(m)
  {
    hide Padded, LastBlock;
    k1 := new byte[16];
    PadLast(k1, input, at, a);
    assert input[..][at..at + a] == input[at..at + a];
    assert k1[0..16] == k1[..];
  }

  lemma PartKept(s: seq<byte>, s': seq<byte>, i: nat, size: nat, j: nat)
    requires i + size <= |s| == |s'| && s[i..i + size] == s'[i..i + size] && i <= j && j + 16 <= i + size
    ensures s[j..j + 16] == s'[j..j + 16]
  {
    SliceOfSlice(s, i, size, j - i, 16);
    SliceOfSlice(s', i, size, j - i, 16);
  }

  /** EncryptRegion, with its mode bits fixed at 3 as in the source: start from a zero block and finish
      the MAC. The output lies apart from the input. */
  method EncryptRegion(scheck: array<byte>, ks: nat, input: array<byte>, i: nat, size: nat, out: array<byte>, o: nat)
    returns (res: int)
    requires ks + 16 <= scheck.Length && i + size <= input.Length && o + 16 <= out.Length
    requires Apart(input, i, size, out, o, 16)
    modifies out
    ensures res == 0
    ensures out[..] == Splice(old(out[..]), o, Mac(old(scheck[ks..ks + 16]), old(input[i..i + size])))
  {
    hide AesKey.EncryptsUnder, Encrypt, XorSeq, Splice, Mac, LastBlock, Padded, Chain, Doublings, NumBlocks;
    ghost var k, m, was := scheck[ks..ks + 16], input[i..i + size], out[..];
    var r, rs, v, a := PickLast(input, i, size);
    ghost var inWas, rWas := input[..], r[..];
    var ctx := new AesKey();
    var status := AES_set_encrypt_key(scheck, ks, 128, ctx);
    ChainBlocks(ctx, k, input, i, size, v - 1, out, o);
    if a == 0 {
      PartKept(inWas, input[..], i, size, rs);
    }
    assert r[rs..rs + 16] == r[..][rs..rs + 16] == rWas[rs..rs + 16];
    SpliceRead(was, o, Chain(k, m, v - 1));
    assert out[o..o + 16] == out[..][o..o + 16];
    FinishMac(ctx, k, m, r, rs, if a != 0 then 2 else 1, out, o);
    SpliceAgain(was, o, Chain(k, m, v - 1), Mac(k, m));
    res := 0;
  }
}
