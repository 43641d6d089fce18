/** Arithmetic in GF(2^8) modulo x^8+x^4+x^3+x+1 (section 4.2 of FIPS 197), the S-box built on it and
    the column matrices of MixColumns and its inverse. */
module AesField {
  import opened Bytes

  function XTime(x: byte): byte { (x << 1) ^ (if x & 0x80 != 0 then 0x1b else 0) }

  function Mul(x: byte, y: byte): byte {
    var y1 := XTime(y); var y2 := XTime(y1); var y3 := XTime(y2); var y4 := XTime(y3);
    var y5 := XTime(y4); var y6 := XTime(y5); var y7 := XTime(y6);
    (if x & 1 != 0 then y else 0) ^ (if x & 2 != 0 then y1 else 0)
    ^ (if x & 4 != 0 then y2 else 0) ^ (if x & 8 != 0 then y3 else 0)
    ^ (if x & 16 != 0 then y4 else 0) ^ (if x & 32 != 0 then y5 else 0)
    ^ (if x & 64 != 0 then y6 else 0) ^ (if x & 128 != 0 then y7 else 0)
  }

  /** x^254: the multiplicative inverse of every nonzero x, and 0 for 0. */
  function Inverse(x: byte): byte {
    var x2 := Mul(x, x); var x3 := Mul(x2, x);
    var x6 := Mul(x3, x3); var x7 := Mul(x6, x);
    var x14 := Mul(x7, x7); var x15 := Mul(x14, x);
    var x30 := Mul(x15, x15); var x31 := Mul(x30, x);
    var x62 := Mul(x31, x31); var x63 := Mul(x62, x);
    var x126 := Mul(x63, x63); var x127 := Mul(x126, x);
    Mul(x127, x127)
  }

  // Both facts about Inverse are decided by bit-blasting, an eighth of the field at a time. The first is stated
  // with x added on both sides, which keeps the solver from rewriting the product before it looks at its bits.
  lemma InverseIsInverse0(x: byte) requires x >> 5 == 0 && x != 0 ensures Mul(x, Inverse(x)) ^ x == x ^ 1 {}
  lemma InverseIsInverse1(x: byte) requires x >> 5 == 1 ensures Mul(x, Inverse(x)) ^ x == x ^ 1 {}
  lemma InverseIsInverse2(x: byte) requires x >> 5 == 2 ensures Mul(x, Inverse(x)) ^ x == x ^ 1 {}
  lemma InverseIsInverse3(x: byte) requires x >> 5 == 3 ensures Mul(x, Inverse(x)) ^ x == x ^ 1 {}
  lemma InverseIsInverse4(x: byte) requires x >> 5 == 4 ensures Mul(x, Inverse(x)) ^ x == x ^ 1 {}
  lemma InverseIsInverse5(x: byte) requires x >> 5 == 5 ensures Mul(x, Inverse(x)) ^ x == x ^ 1 {}
  lemma InverseIsInverse6(x: byte) requires x >> 5 == 6 ensures Mul(x, Inverse(x)) ^ x == x ^ 1 {}
  lemma InverseIsInverse7(x: byte) requires x >> 5 == 7 ensures Mul(x, Inverse(x)) ^ x == x ^ 1 {}

  lemma SameAdded(p: byte, q: byte, x: byte)
    requires p ^ x == x ^ q
    ensures p == q
  {
  }

  lemma InverseIsInverse(x: byte)
    requires x != 0
    ensures Mul(x, Inverse(x)) == 1
  {
    hide Mul, Inverse;
    if x >> 5 == 0 { InverseIsInverse0(x); }
    else if x >> 5 == 1 { InverseIsInverse1(x); }
    else if x >> 5 == 2 { InverseIsInverse2(x); }
    else if x >> 5 == 3 { InverseIsInverse3(x); }
    else if x >> 5 == 4 { InverseIsInverse4(x); }
    else if x >> 5 == 5 { InverseIsInverse5(x); }
    else if x >> 5 == 6 { InverseIsInverse6(x); }
    else { InverseIsInverse7(x); }
    SameAdded(Mul(x, Inverse(x)), 1, x);
  }

  lemma InverseTwice0(x: byte) requires x >> 5 == 0 ensures Inverse(Inverse(x)) == x {}
  lemma InverseTwice1(x: byte) requires x >> 5 == 1 ensures Inverse(Inverse(x)) == x {}
  lemma InverseTwice2(x: byte) requires x >> 5 == 2 ensures Inverse(Inverse(x)) == x {}
  lemma InverseTwice3(x: byte) requires x >> 5 == 3 ensures Inverse(Inverse(x)) == x {}
  lemma InverseTwice4(x: byte) requires x >> 5 == 4 ensures Inverse(Inverse(x)) == x {}
  lemma InverseTwice5(x: byte) requires x >> 5 == 5 ensures Inverse(Inverse(x)) == x {}
  lemma InverseTwice6(x: byte) requires x >> 5 == 6 ensures Inverse(Inverse(x)) == x {}
  lemma InverseTwice7(x: byte) requires x >> 5 == 7 ensures Inverse(Inverse(x)) == x {}

  lemma InverseTwice(x: byte)
    ensures Inverse(Inverse(x)) == x
  {
    hide Inverse;
    if x >> 5 == 0 { InverseTwice0(x); }
    else if x >> 5 == 1 { InverseTwice1(x); }
    else if x >> 5 == 2 { InverseTwice2(x); }
    else if x >> 5 == 3 { InverseTwice3(x); }
    else if x >> 5 == 4 { InverseTwice4(x); }
    else if x >> 5 == 5 { InverseTwice5(x); }
    else if x >> 5 == 6 { InverseTwice6(x); }
    else { InverseTwice7(x); }
  }

  /** The affine map of section 5.1.1 of FIPS 197 and its inverse, on whole bytes. */
  function Affine(x: byte): byte {
    x ^ x.RotateLeft(1) ^ x.RotateLeft(2) ^ x.RotateLeft(3) ^ x.RotateLeft(4) ^ 0x63
  }

  function InvAffine(x: byte): byte {
    x.RotateLeft(1) ^ x.RotateLeft(3) ^ x.RotateLeft(6) ^ 0x05
  }

  lemma AffineInverse(x: byte)
    ensures InvAffine(Affine(x)) == x
  {
  }

  function SBox(x: byte): byte { Affine(Inverse(x)) }

  function InvSBox(x: byte): byte { Inverse(InvAffine(x)) }

  lemma SBoxInverse(x: byte)
    ensures InvSBox(SBox(x)) == x
  {
    hide Inverse, Affine, InvAffine;
    AffineInverse(Inverse(x));
    InverseTwice(x);
  }

  // ----- The multiples used by the two matrices

  function Sum3(a: byte, b: byte, c: byte): byte { Xor(Xor(a, b), c) }
  function Sum4(a: byte, b: byte, c: byte, d: byte): byte { Xor(Xor(a, b), Xor(c, d)) }

  function M2(x: byte): byte { XTime(x) }
  function M3(x: byte): byte { Xor(XTime(x), x) }
  function M9(x: byte): byte { Xor(XTime(XTime(XTime(x))), x) }
  function M11(x: byte): byte { Sum3(XTime(XTime(XTime(x))), XTime(x), x) }
  function M13(x: byte): byte { Sum3(XTime(XTime(XTime(x))), XTime(XTime(x)), x) }
  function M14(x: byte): byte { Sum3(XTime(XTime(XTime(x))), XTime(XTime(x)), XTime(x)) }

  lemma Product2(x: byte) ensures M2(x) + x == Mul(2, x) + x {}
  lemma Product3(x: byte) ensures M3(x) + x == Mul(3, x) + x {}
  lemma Product9(x: byte) ensures M9(x) + x == Mul(9, x) + x {}
  lemma Product11(x: byte) ensures M11(x) + x == Mul(11, x) + x {}
  lemma Product13(x: byte) ensures M13(x) + x == Mul(13, x) + x {}
  lemma Product14(x: byte) ensures M14(x) + x == Mul(14, x) + x {}

  lemma MultiplesAreProducts(x: byte)
    ensures M2(x) == Mul(2, x) && M3(x) == Mul(3, x) && M9(x) == Mul(9, x)
    ensures M11(x) == Mul(11, x) && M13(x) == Mul(13, x) && M14(x) == Mul(14, x)
  {
    hide M2, M3, M9, M11, M13, M14, Mul;
    Product2(x);
    SameSum(M2(x), Mul(2, x), x);
    Product3(x);
    SameSum(M3(x), Mul(3, x), x);
    Product9(x);
    SameSum(M9(x), Mul(9, x), x);
    Product11(x);
    SameSum(M11(x), Mul(11, x), x);
    Product13(x);
    SameSum(M13(x), Mul(13, x), x);
    Product14(x);
    SameSum(M14(x), Mul(14, x), x);
  }

  lemma XTimeXor(x: byte, y: byte)
    ensures XTime(Xor(x, y)) == Xor(XTime(x), XTime(y))
  {
    hide XTime;
    PlainXTimeXor(x, y);
  }

  lemma PlainXTimeXor(x: byte, y: byte)
    ensures XTime(x ^ y) == XTime(x) ^ XTime(y)
  {
    ShiftXor(x, y);
    TopBitXor(x, y, 0x1b);
    PlainXorRegroups(x << 1, if x & 0x80 != 0 then 0x1b else 0, y << 1, if y & 0x80 != 0 then 0x1b else 0);
  }

  lemma SumXor(p: byte, q: byte, r: byte, p': byte, q': byte, r': byte)
    ensures Xor(Xor(p, p'), Xor(q, q')) == Xor(Xor(p, q), Xor(p', q'))
    ensures Sum3(Xor(p, p'), Xor(q, q'), Xor(r, r')) == Xor(Sum3(p, q, r), Sum3(p', q', r'))
  {
    hide Xor;
    XorRegroups(p, p', q, q');
    XorRegroups(Xor(p, q), Xor(p', q'), r, r');
  }

  lemma MultiplesXor(x: byte, y: byte)
    ensures M3(Xor(x, y)) == Xor(M3(x), M3(y)) && M9(Xor(x, y)) == Xor(M9(x), M9(y))
    ensures M11(Xor(x, y)) == Xor(M11(x), M11(y))
    ensures M13(Xor(x, y)) == Xor(M13(x), M13(y)) && M14(Xor(x, y)) == Xor(M14(x), M14(y))
  {
    hide XTime, Xor, Sum3;
    var x1, x2, x3 := XTime(x), XTime(XTime(x)), XTime(XTime(XTime(x)));
    var y1, y2, y3 := XTime(y), XTime(XTime(y)), XTime(XTime(XTime(y)));
    XTimeXor(x, y);
    XTimeXor(x1, y1);
    XTimeXor(x2, y2);
    SumXor(x1, x, x, y1, y, y);
    SumXor(x3, x, x, y3, y, y);
    SumXor(x3, x1, x, y3, y1, y);
    SumXor(x3, x2, x, y3, y2, y);
    SumXor(x3, x2, x1, y3, y2, y1);
  }

  /** A row of the MixColumns matrix (02 03 01 01), and of its inverse (0e 0b 0d 09). */
  function MixRow(a: byte, b: byte, c: byte, d: byte): byte { Sum4(M2(a), M3(b), c, d) }

  function InvMixRow(a: byte, b: byte, c: byte, d: byte): byte { Sum4(M14(a), M11(b), M13(c), M9(d)) }

  lemma Sum4Xor(a: byte, b: byte, c: byte, d: byte, e: byte, f: byte, g: byte, h: byte)
    ensures Sum4(Xor(a, e), Xor(b, f), Xor(c, g), Xor(d, h)) == Xor(Sum4(a, b, c, d), Sum4(e, f, g, h))
  {
    hide Xor;
    SumXor(a, b, a, e, f, e);
    SumXor(c, d, c, g, h, g);
    SumXor(Xor(a, b), Xor(c, d), a, Xor(e, f), Xor(g, h), a);
  }

  lemma InvMixRowXor(a: byte, b: byte, c: byte, d: byte, e: byte, f: byte, g: byte, h: byte)
    ensures InvMixRow(Xor(a, e), Xor(b, f), Xor(c, g), Xor(d, h))
         == Xor(InvMixRow(a, b, c, d), InvMixRow(e, f, g, h))
  {
    hide M9, M11, M13, M14, Xor, Sum4;
    MultiplesXor(a, e);
    MultiplesXor(b, f);
    MultiplesXor(c, g);
    MultiplesXor(d, h);
    Sum4Xor(M14(a), M11(b), M13(c), M9(d), M14(e), M11(f), M13(g), M9(h));
  }

  // The four columns of the matrix product, for one input byte each.
  lemma ProductColumn0(x: byte) ensures InvMixRow(M2(x), x, x, M3(x)) == x {}
  lemma ProductColumn1(x: byte) ensures InvMixRow(M3(x), M2(x), x, x) == 0 {}
  lemma ProductColumn2(x: byte) ensures InvMixRow(x, M3(x), M2(x), x) == 0 {}
  lemma ProductColumn3(x: byte) ensures InvMixRow(x, x, M3(x), M2(x)) == 0 {}

  lemma Sum4Turns(a: byte, b: byte, c: byte, d: byte)
    ensures Sum4(a, b, c, d) == Sum4(b, c, d, a)
  {
  }

  lemma InvMixRowSpread(a: byte, b: byte, c: byte, d: byte)
    ensures InvMixRow(MixRow(a, b, c, d), MixRow(b, c, d, a), MixRow(c, d, a, b), MixRow(d, a, b, c))
         == Sum4(InvMixRow(M2(a), a, a, M3(a)), InvMixRow(M3(b), M2(b), b, b),
                 InvMixRow(c, M3(c), M2(c), c), InvMixRow(d, d, M3(d), M2(d)))
  {
    hide InvMixRow, M2, M3, Xor;
    InvMixRowXor(M2(a), a, a, M3(a), M3(b), M2(b), b, b);
    InvMixRowXor(c, M3(c), M2(c), c, d, d, M3(d), M2(d));
    InvMixRowXor(Xor(M2(a), M3(b)), Xor(a, M2(b)), Xor(a, b), Xor(M3(a), b),
                 Xor(c, d), Xor(M3(c), d), Xor(M2(c), M3(d)), Xor(c, M2(d)));
    Sum4Turns(a, M2(b), M3(c), d);
    Sum4Turns(a, b, M2(c), M3(d));
    Sum4Turns(b, M2(c), M3(d), a);
    Sum4Turns(M3(a), b, c, M2(d));
    Sum4Turns(b, c, M2(d), M3(a));
    Sum4Turns(c, M2(d), M3(a), b);
  }

  /** The two matrices are inverse to each other: each row of the product picks one byte out. */
  lemma InvMixRowOfMixRows(a: byte, b: byte, c: byte, d: byte)
    ensures InvMixRow(MixRow(a, b, c, d), MixRow(b, c, d, a), MixRow(c, d, a, b), MixRow(d, a, b, c)) == a
  {
    hide M2, M3, MixRow, InvMixRow;
    InvMixRowSpread(a, b, c, d);
    ProductColumn0(a);
    ProductColumn1(b);
    ProductColumn2(c);
    ProductColumn3(d);
  }
}
