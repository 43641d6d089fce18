/** The field of the parity code: GF(2^8) modulo x^8+x^4+x^3+x^2+1 (0x11D), as powers of the generator
    acting on bytes. */
module ParityField {
  import opened Bytes

  // ----- The field: multiplication by the generator, and by a constant

  function Times2(y: byte): byte { (y << 1) ^ (if y & 0x80 != 0 then 0x1d else 0) }

  /** The product of the element whose bits are c with y. */
  function Times(c: nat, y: byte): byte {
    if c == 0 then 0 else Xor(if c % 2 == 1 then y else 0, Times(c / 2, Times2(y)))
  }

  /** The generator to the n-th, times y. */
  function Power(n: nat, y: byte): byte { if n == 0 then y else Times2(Power(n - 1, y)) }

  lemma Times2Xor(x: byte, y: byte)
    ensures Times2(Xor(x, y)) == Xor(Times2(x), Times2(y))
  {
    hide Times2;
    PlainTimes2Xor(x, y);
  }

  lemma PlainTimes2Xor(x: byte, y: byte)
    ensures Times2(x ^ y) == Times2(x) ^ Times2(y)
  {
    ShiftXor(x, y);
    TopBitXor(x, y, 0x1d);
    PlainXorRegroups(x << 1, if x & 0x80 != 0 then 0x1d else 0, y << 1, if y & 0x80 != 0 then 0x1d else 0);
  }

  lemma Times2Zero()
    ensures Times2(0) == 0
  {
  }

  lemma {:induction false} PowerXor(n: nat, x: byte, y: byte)
    ensures Power(n, Xor(x, y)) == Xor(Power(n, x), Power(n, y))
  {
    hide Xor, Times2;
    if n != 0 {
      PowerXor(n - 1, x, y);
      Times2Xor(Power(n - 1, x), Power(n - 1, y));
    }
  }

  lemma {:induction false} PowerZero(n: nat)
    ensures Power(n, 0) == 0
  {
    hide Times2;
    Times2Zero();
    if n != 0 {
      PowerZero(n - 1);
    }
  }

  lemma {:induction false} PowerSum(m: nat, n: nat, y: byte)
    ensures Power(m + n, y) == Power(m, Power(n, y))
  {
    hide Times2;
    if m != 0 {
      PowerSum(m - 1, n, y);
    }
  }

  // ----- No power of the generator below the 64th fixes a nonzero element

  // The generator's powers 8, 16, 32, 64 and 128, reduced: sums of its first eight powers.
  function Raised8(y: byte): byte { var y2 := Times2(Times2(y)); var y3 := Times2(y2); y ^ y2 ^ y3 ^ Times2(y3) }
  function Raised16(y: byte): byte {
    var y2 := Times2(Times2(y)); var y3 := Times2(y2);
    y2 ^ y3 ^ Times2(Times2(Times2(y3)))
  }
  function Raised32(y: byte): byte {
    var y2 := Times2(Times2(y)); var y3 := Times2(y2); var y4 := Times2(y3);
    y ^ y2 ^ y3 ^ y4 ^ Times2(Times2(Times2(y4)))
  }
  function Raised64(y: byte): byte {
    var y1 := Times2(y); var y2 := Times2(y1); var y3 := Times2(y2); var y4 := Times2(y3);
    y ^ y1 ^ y2 ^ y3 ^ y4 ^ Times2(Times2(y4))
  }
  function Raised128(y: byte): byte {
    var y2 := Times2(Times2(y));
    y ^ y2 ^ Times2(Times2(Times2(Times2(Times2(y2)))))
  }
  function Doubled8(y: byte): byte { Times2(Times2(Times2(Times2(Times2(Times2(Times2(Times2(y)))))))) }

  lemma Eighth(y: byte) ensures Doubled8(y) + y == Raised8(y) + y {}
  lemma Square8(y: byte) ensures Raised8(Raised8(y)) + y == Raised16(y) + y {}
  lemma Square16(y: byte) ensures Raised16(Raised16(y)) + y == Raised32(y) + y {}
  lemma Square32(y: byte) ensures Raised32(Raised32(y)) + y == Raised64(y) + y {}
  lemma Square64(y: byte) ensures Raised64(Raised64(y)) + y == Raised128(y) + y {}
  lemma Square128(y: byte) ensures Raised128(Raised128(y)) + y == Times2(y) + y {}

  lemma Power1(y: byte) ensures Power(1, y) == Times2(y) { assert Power(0, y) == y; }
  lemma Power2(y: byte) ensures Power(2, y) == Times2(Times2(y)) { hide Times2; Power1(y); }
  lemma Power4(y: byte)
    ensures Power(4, y) == Times2(Times2(Times2(Times2(y))))
  {
    hide Times2;
    Power2(y);
    assert Power(3, y) == Times2(Power(2, y));
  }
  lemma Power8(y: byte)
    ensures Power(8, y) == Raised8(y)
  {
    hide Times2, Raised8, Power;
    PowerSum(4, 4, y); Power4(y); Power4(Power(4, y)); Eighth(y);
    SameSum(Doubled8(y), Raised8(y), y);
  }
  lemma Power16(y: byte)
    ensures Power(16, y) == Raised16(y)
  {
    hide Raised8, Raised16, Power;
    PowerSum(8, 8, y); Power8(y); Power8(Power(8, y)); Square8(y);
    SameSum(Raised8(Raised8(y)), Raised16(y), y);
  }
  lemma Power32(y: byte)
    ensures Power(32, y) == Raised32(y)
  {
    hide Raised16, Raised32, Power;
    PowerSum(16, 16, y); Power16(y); Power16(Power(16, y)); Square16(y);
    SameSum(Raised16(Raised16(y)), Raised32(y), y);
  }
  lemma Power64(y: byte)
    ensures Power(64, y) == Raised64(y)
  {
    hide Raised32, Raised64, Power;
    PowerSum(32, 32, y); Power32(y); Power32(Power(32, y)); Square32(y);
    SameSum(Raised32(Raised32(y)), Raised64(y), y);
  }
  lemma Power128(y: byte)
    ensures Power(128, y) == Raised128(y)
  {
    hide Raised64, Raised128, Power;
    PowerSum(64, 64, y); Power64(y); Power64(Power(64, y)); Square64(y);
    SameSum(Raised64(Raised64(y)), Raised128(y), y);
  }
  lemma Power256(y: byte)
    ensures Power(256, y) == Times2(y)
  {
    hide Raised128, Power, Times2;
    PowerSum(128, 128, y); Power128(y); Power128(Power(128, y)); Square128(y);
    SameSum(Raised128(Raised128(y)), Times2(y), y);
  }

  lemma Times2Injective(x: byte, y: byte)
    requires Times2(x) == Times2(y)
    ensures x == y
  {
  }

  lemma Power255(y: byte)
    ensures Power(255, y) == y
  {
    hide Times2;
    Power256(y);
    Times2Injective(Power(255, y), y);
  }

  lemma Constant15(y: byte) requires Raised16(y) == Times2(y) ensures y == 0 {}
  lemma Constant51(y: byte) requires Raised32(Raised16(Times2(Times2(Times2(y))))) == y ensures y == 0 {}

  lemma Fixed15(y: byte)
    requires Power(15, y) == y
    ensures y == 0
  {
    hide Raised16, Raised32, Times2;
    Power16(y);
    Constant15(y);
  }

  lemma Fixed51(y: byte)
    requires Power(51, y) == y
    ensures y == 0
  {
    hide Raised16, Raised32, Times2, Power;
    Power1(y); Power2(Times2(y)); PowerSum(2, 1, y);
    var z := Power(3, y);
    Power16(z); Power32(Power(16, z));
    PowerSum(16, 3, y); PowerSum(32, 19, y);
    Constant51(y);
  }

  /** What two powers fix, a common divisor of the two fixes. */
  lemma {:induction false} FixedByDivisor(a: nat, b: nat, y: byte) returns (g: nat, p: nat, q: nat)
    requires 0 < a && Power(a, y) == y && Power(b, y) == y
    ensures a == g * p && b == g * q && Power(g, y) == y
    decreases a + b, a
  {
    hide Power;
    if b == 0 {
      g, p, q := a, 1, 0;
    } else if a < b {
      PowerSum(b - a, a, y);
      g, p, q := FixedByDivisor(a, b - a, y);
      assert b == g * p + g * q == g * (p + q);
      q := p + q;
    } else {
      PowerSum(a - b, b, y);
      g, q, p := FixedByDivisor(b, a - b, y);
      assert a == g * p + g * q == g * (p + q);
      p := p + q;
    }
  }

  lemma {:induction false} FixedByMultiple(g: nat, q: nat, y: byte)
    requires Power(g, y) == y
    ensures Power(g * q, y) == y
  {
    hide Power;
    if q == 0 {
      assert g * q == 0;
      PowerNothing(y);
    } else {
      FixedByMultiple(g, q - 1, y);
      assert g * q == g * (q - 1) + g;
      PowerSum(g * (q - 1), g, y);
    }
  }

  lemma PowerNothing(y: byte)
    ensures Power(0, y) == y
  {
  }

  lemma SmallDivisorsOf255(g: nat, q: nat)
    requires g < 64 && g * q == 255
    ensures g == 1 || g == 3 || g == 5 || g == 15 || g == 17 || g == 51
  {
    assert q == 255 / g && 255 % g == 0;
  }

  /** The first 64 powers of the generator act differently on every nonzero element. */
  lemma PowersDiffer(d: nat, y: byte)
    requires 0 < d < 64 && Power(d, y) == y
    ensures y == 0
  {
    hide Power;
    Power255(y);
    var g, p, q := FixedByDivisor(d, 255, y);
    assert g <= d;
    SmallDivisorsOf255(g, q);
    if g == 17 || g == 51 {
      FixedByMultiple(g, 51 / g, y);
      Fixed51(y);
    } else {
      FixedByMultiple(g, 15 / g, y);
      Fixed15(y);
    }
  }
}
