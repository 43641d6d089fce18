/** The parity code of P1 in modules/idsregeneration/main.c: 60 message bytes and four check bytes. */
module ReedSolomon {
  import opened Bytes
  import opened ParityField

  // ----- Polynomials: byte 0 is the highest coefficient

  /** The value of c at the k-th power of the generator. */
  function Eval(c: seq<byte>, k: nat): byte {
    if c == [] then 0 else Xor(Power(k * (|c| - 1), c[0]), Eval(c[1..], k))
  }

  lemma {:induction false} EvalXor(a: seq<byte>, b: seq<byte>, k: nat)
    requires |a| == |b|
    ensures Eval(XorSeq(a, b), k) == Xor(Eval(a, k), Eval(b, k))
  {
    hide Xor, Power;
    if a == [] {
      XorLaws(0, 0);
    } else {
      EvalXor(a[1..], b[1..], k);
      assert XorSeq(a, b)[1..] == XorSeq(a[1..], b[1..]);
      var e := k * (|a| - 1);
      PowerXor(e, a[0], b[0]);
      XorRegroups(Power(e, a[0]), Power(e, b[0]), Eval(a[1..], k), Eval(b[1..], k));
    }
  }

  lemma EvalAfterZero(c: seq<byte>, k: nat)
    ensures Eval([0] + c, k) == Eval(c, k)
  {
    hide Xor, Power;
    assert ([0] + c)[1..] == c;
    PowerZero(k * |c|);
    XorLaws(Eval(c, k), 0);
  }

  lemma {:induction false} EvalAfterZeros(n: nat, c: seq<byte>, k: nat)
    ensures Eval(Zeros(n) + c, k) == Eval(c, k)
  {
    hide Eval;
    if n == 0 {
      assert Zeros(0) + c == c;
    } else {
      EvalAfterZeros(n - 1, c, k);
      assert Zeros(n) + c == [0] + (Zeros(n - 1) + c);
      EvalAfterZero(Zeros(n - 1) + c, k);
    }
  }

  lemma Distributes(k: nat, a: nat, b: nat)
    ensures k * (a + b) == k * a + k * b
  {
  }

  lemma {:induction false} EvalShifted(c: seq<byte>, t: nat, k: nat)
    ensures Eval(c + Zeros(t), k) == Power(k * t, Eval(c, k))
  {
    hide Xor, Power;
    if c == [] {
      assert c + Zeros(t) == Zeros(t) + [];
      EvalAfterZeros(t, [], k);
      PowerZero(k * t);
    } else {
      EvalShifted(c[1..], t, k);
      assert (c + Zeros(t))[1..] == c[1..] + Zeros(t);
      Distributes(k, t, |c| - 1);
      PowerSum(k * t, k * (|c| - 1), c[0]);
      PowerXor(k * t, Power(k * (|c| - 1), c[0]), Eval(c[1..], k));
    }
  }

  // ----- A nonzero word of weight w cannot vanish at w consecutive powers

  function Weight(c: seq<byte>): (n: nat)
    ensures n <= |c|
  {
    if c == [] then 0 else (if c[0] != 0 then 1 else 0) + Weight(c[1..])
  }

  /** Each coefficient times the difference of its own point and the point of exponent e: the word whose
      values combine two consecutive values of c so that the coefficient at e drops out. */
  function Eliminate(c: seq<byte>, e: nat): (r: seq<byte>)
    ensures |r| == |c|
  {
    if c == [] then [] else [Xor(Power(|c| - 1, c[0]), Power(e, c[0]))] + Eliminate(c[1..], e)
  }

  lemma {:induction false} EvalEliminate(c: seq<byte>, e: nat, k: nat)
    ensures Eval(Eliminate(c, e), k) == Xor(Eval(c, k + 1), Power(e, Eval(c, k)))
  {
    hide Xor, Power;
    if c == [] {
      PowerZero(e);
      XorLaws(0, 0);
    } else {
      var x, n := c[0], |c| - 1;
      EvalEliminate(c[1..], e, k);
      PowerXor(k * n, Power(n, x), Power(e, x));
      PowerSum(k * n, n, x);
      PowerSum(k * n, e, x);
      PowerSum(e, k * n, x);
      assert (k + 1) * n == k * n + n;
      PowerXor(e, Power(k * n, x), Eval(c[1..], k));
      XorRegroups(Power(k * n + n, x), Power(e, Power(k * n, x)), Eval(c[1..], k + 1), Power(e, Eval(c[1..], k)));
    }
  }

  lemma PowersMeetOnlyAtZero(a: nat, b: nat, x: byte)
    requires a < 64 && b < 64 && a != b
    ensures Xor(Power(a, x), Power(b, x)) == 0 <==> x == 0
  {
    hide Power;
    if x == 0 {
      PowerZero(a);
      PowerZero(b);
    } else if Xor(Power(a, x), Power(b, x)) == 0 {
      XorToZero(Power(a, x), Power(b, x));
      if a < b { PowersEqual(a, b, x); } else { PowersEqual(b, a, x); }
    }
  }

  lemma XorToZero(x: byte, y: byte)
    ensures Xor(x, y) == 0 <==> x == y
  {
  }

  lemma {:induction false} PowerInjective(n: nat, x: byte, y: byte)
    requires Power(n, x) == Power(n, y)
    ensures x == y
  {
    hide Times2;
    if n != 0 {
      Times2Injective(Power(n - 1, x), Power(n - 1, y));
      PowerInjective(n - 1, x, y);
    }
  }

  lemma PowersEqual(a: nat, b: nat, x: byte)
    requires a < b < 64 && Power(a, x) == Power(b, x)
    ensures x == 0
  {
    hide Power;
    PowerSum(a, b - a, x);
    PowerInjective(a, x, Power(b - a, x));
    PowersDiffer(b - a, x);
  }

  /** Eliminating at a nonzero coefficient lowers the weight by exactly one. */
  lemma {:induction false} WeightEliminate(c: seq<byte>, e: nat)
    requires |c| <= 64 && e < 64
    ensures Weight(Eliminate(c, e)) == Weight(c) - (if e < |c| && c[|c| - 1 - e] != 0 then 1 else 0)
  {
    hide Xor, Power;
    if c != [] {
      WeightEliminate(c[1..], e);
      var x := c[0];
      if e == |c| - 1 {
        XorToZero(Power(e, x), Power(e, x));
      } else {
        PowersMeetOnlyAtZero(|c| - 1, e, x);
      }
    }
  }

  lemma {:induction false} SomewhereNonzero(c: seq<byte>) returns (j: nat)
    requires Weight(c) != 0
    ensures j < |c| && c[j] != 0
  {
    if c[0] != 0 {
      j := 0;
    } else {
      j := SomewhereNonzero(c[1..]);
      j := j + 1;
    }
  }

  lemma {:induction false} SingleCoefficient(c: seq<byte>)
    requires Weight(c) <= 1
    ensures Eval(c, 0) == 0 <==> Weight(c) == 0
  {
    hide Xor;
    if c != [] {
      SingleCoefficient(c[1..]);
      assert Eval(c, 0) == Xor(c[0], Eval(c[1..], 0)) by {
        assert 0 * (|c| - 1) == 0;
        PowerNothing(c[0]);
      }
      XorLaws(c[0], 0);
      XorLaws(Eval(c[1..], 0), 0);
    }
  }

  lemma {:induction false} Independent(c: seq<byte>, w: nat)
    requires |c| <= 64 && Weight(c) <= w
    requires forall k: nat | k < w :: Eval(c, k) == 0
    ensures Weight(c) == 0
    decreases w
  {
    hide Eval, Weight, Power, Xor;
    if w != 0 && Weight(c) != 0 {
      var j := SomewhereNonzero(c);
      var e := |c| - 1 - j;
      var d := Eliminate(c, e);
      WeightEliminate(c, e);
      forall k: nat | k < w - 1
        ensures Eval(d, k) == 0
      {
        EvalEliminate(c, e, k);
        PowerZero(e);
        XorLaws(0, 0);
      }
      Independent(d, w - 1);
      SingleCoefficient(c);
    }
  }

  // ----- The encoder

  const GENERATOR: seq<nat> := [0x01, 0x0F, 0x36, 0x78, 0x40]

  /** The generator polynomial times y. */
  function Feedback(y: byte): (r: seq<byte>)
    ensures |r| == 5
  {
    [Times(0x01, y), Times(0x0F, y), Times(0x36, y), Times(0x78, y), Times(0x40, y)]
  }

  /** The generator polynomial times y, moved i places down a word of 64. */
  function FeedbackAt(i: nat, y: byte): (r: seq<byte>)
    requires i < 60
    ensures |r| == 64
  {
    Zeros(i) + Feedback(y) + Zeros(59 - i)
  }

  /** n steps of the division of m by the generator polynomial: each clears one leading coefficient. */
  function Divided(m: seq<byte>, n: nat): (r: seq<byte>)
    requires |m| == 64 && n <= 60
    ensures |r| == 64
  {
    if n == 0 then m else var d := Divided(m, n - 1); XorSeq(d, FeedbackAt(n - 1, d[n - 1]))
  }

  predicate Message(d: seq<byte>) { |d| == 60 }

  function Parity(d: seq<byte>): (r: seq<byte>)
    requires Message(d)
    ensures |r| == 4
  {
    Divided(d + Zeros(4), 60)[60..]
  }

  function Encode(d: seq<byte>): (c: seq<byte>)
    requires Message(d)
    ensures |c| == 64
  {
    d + Parity(d)
  }

  /** The code: words of 64 that vanish at 1, 2, 4 and 8. */
  ghost predicate Codeword(c: seq<byte>) { |c| == 64 && forall k: nat | k < 4 :: Eval(c, k) == 0 }

  // ----- Every step keeps the values at the four points

  lemma TimesBits(c: nat, y: byte)
    ensures Times(2 * c, y) == Times(c, Times2(y))
    ensures Times(2 * c + 1, y) == Xor(y, Times(c, Times2(y)))
    ensures Times(1, y) == y
  {
    hide Times2, Xor;
    XorLaws(Times(c, Times2(y)), 0);
    XorLaws(y, 0);
    assert (2 * c) / 2 == c && (2 * c + 1) / 2 == c;
    assert Times(0, y) == 0 == Times(0, Times2(y));
  }

  // The five products as sums of doublings.
  function F1(y: byte): byte { Xor(y, Xor(Times2(y), Xor(Times2(Times2(y)), Times2(Times2(Times2(y)))))) }
  function F2(y: byte): byte {
    var y2 := Times2(Times2(y)); var y4 := Times2(Times2(y2));
    Xor(Times2(y), Xor(y2, Xor(y4, Times2(y4))))
  }
  function F3(y: byte): byte { F1(Times2(Times2(Times2(y)))) }
  function F4(y: byte): byte { Times2(Times2(Times2(Times2(Times2(Times2(y)))))) }

  lemma FeedbackByDoubling(y: byte)
    ensures Feedback(y) == [y, F1(y), F2(y), F3(y), F4(y)]
  {
    hide Times2, Xor, Times;
    var y1 := Times2(y); var y2 := Times2(y1); var y3 := Times2(y2);
    var y4 := Times2(y3); var y5 := Times2(y4); var y6 := Times2(y5);
    TimesBits(0, y);
    assert Times(0x0F, y) == F1(y) by {
      TimesBits(7, y); TimesBits(3, y1); TimesBits(1, y2); TimesBits(0, y3);
    }
    assert Times(0x36, y) == F2(y) by {
      TimesBits(27, y); TimesBits(13, y1); TimesBits(6, y2); TimesBits(3, y3); TimesBits(1, y4); TimesBits(0, y5);
    }
    assert Times(0x78, y) == F3(y) by {
      TimesBits(60, y); TimesBits(30, y1); TimesBits(15, y2); TimesBits(7, y3); TimesBits(3, y4);
      TimesBits(1, y5); TimesBits(0, y6);
    }
    assert Times(0x40, y) == F4(y) by {
      TimesBits(32, y); TimesBits(16, y1); TimesBits(8, y2); TimesBits(4, y3); TimesBits(2, y4);
      TimesBits(1, y5); TimesBits(0, y6);
    }
  }

  lemma EvalAppend(c: seq<byte>, x: byte, k: nat)
    ensures Eval(c + [x], k) == Xor(Power(k, Eval(c, k)), x)
  {
    hide Xor, Power, Eval;
    var z := Zeros(|c|) + [x];
    assert c + [x] == XorSeq(c + Zeros(1), z) by {
      assert forall i | 0 <= i < |c| + 1 :: (c + [x])[i] == Xor((c + Zeros(1))[i], z[i]) by {
        forall i | 0 <= i < |c| + 1
          ensures (c + [x])[i] == Xor((c + Zeros(1))[i], z[i])
        {
          XorLaws((c + [x])[i], 0);
        }
      }
    }
    EvalXor(c + Zeros(1), z, k);
    EvalShifted(c, 1, k);
    EvalAfterZeros(|c|, [x], k);
    EvalOne(x, k);
  }

  lemma EvalOne(x: byte, k: nat)
    ensures Eval([x], k) == x && Eval([], k) == 0
  {
    hide Xor;
    assert k * 0 == 0;
    assert [x][1..] == [];
    PowerNothing(x);
    XorLaws(x, 0);
  }

  /** Five coefficients by Horner's rule. */
  lemma EvalFive(f: seq<byte>, k: nat)
    requires |f| == 5
    ensures Eval(f, k) == Xor(Power(k, Xor(Power(k, Xor(Power(k, Xor(Power(k, f[0]), f[1])), f[2])), f[3])), f[4])
  {
    hide Xor, Power, Eval;
    EvalOne(f[0], k);
    EvalAppend([f[0]], f[1], k);
    EvalAppend([f[0]] + [f[1]], f[2], k);
    EvalAppend([f[0]] + [f[1]] + [f[2]], f[3], k);
    EvalAppend([f[0]] + [f[1]] + [f[2]] + [f[3]], f[4], k);
    assert f == [f[0]] + [f[1]] + [f[2]] + [f[3]] + [f[4]];
  }

  // The generator polynomial at each of its four roots, by Horner's rule.
  function D2(y: byte): byte { Times2(Times2(y)) }
  function D3(y: byte): byte { Times2(Times2(Times2(y))) }
  lemma XorTwice(a: byte, t: byte)
    ensures Xor(a, Xor(a, t)) == t && Xor(Xor(t, a), a) == t
  {
  }
  lemma RootAt0(y: byte)
    ensures Xor(Xor(Xor(Xor(y, F1(y)), F2(y)), F3(y)), F4(y)) == 0
  {
    hide Times2, Xor;
    var b := Times2(y); var c := Times2(b); var d := Times2(c);
    var e := Times2(d); var f := Times2(e); var g := Times2(f);
    var u := Xor(e, f);
    XorTwice(y, Xor(b, Xor(c, d)));                        // leaves b+(c+d)
    XorRegroups(b, Xor(c, d), b, Xor(c, u));
    XorToZero(b, b);
    XorRegroups(c, d, c, u);
    XorToZero(c, c);
    XorLaws(Xor(d, u), 0);                                 // leaves d+(e+f)
    XorRegroups(e, f, g, g);
    XorRegroups(d, u, d, Xor(u, g));
    XorToZero(d, d);
    XorTwice(u, g);
    XorLaws(g, 0);                                         // leaves g
    XorToZero(g, g);
  }
  // The point after it, one coefficient at a time.
  function G1(y: byte): byte { Xor(y, Xor(D2(y), D3(y))) }
  function G2(y: byte): byte { Xor(D2(y), Xor(D3(y), D2(D3(y)))) }
  function G3(y: byte): byte { D2(D3(y)) }

  lemma FoldFirst(y: byte) ensures Xor(Times2(y), F1(y)) + y == G1(y) + y {}
  lemma FoldSecond(y: byte) ensures Xor(Times2(G1(y)), F2(y)) + y == G2(y) + y {}
  lemma FoldThird(y: byte) ensures Xor(Times2(G2(y)), F3(y)) + y == G3(y) + y {}
  lemma FoldLast(y: byte) ensures Times2(G3(y)) == F4(y) {}

  lemma RootAt1(y: byte)
    ensures Xor(Times2(Xor(Times2(Xor(Times2(Xor(Times2(y), F1(y))), F2(y))), F3(y))), F4(y)) == 0
  {
    hide Xor, Times2, F1, F2, F3, F4, G1, G2, G3;
    FoldFirst(y);
    SameSum(Xor(Times2(y), F1(y)), G1(y), y);
    FoldSecond(y);
    SameSum(Xor(Times2(G1(y)), F2(y)), G2(y), y);
    FoldThird(y);
    SameSum(Xor(Times2(G2(y)), F3(y)), G3(y), y);
    FoldLast(y);
    XorToZero(F4(y), F4(y));
  }

  // The two others, by bit-blasting.
  function Folded2(y: byte): byte { Xor(D2(Xor(D2(Xor(D2(Xor(D2(y), F1(y))), F2(y))), F3(y))), F4(y)) }
  function Folded3(y: byte): byte { Xor(D3(Xor(D3(Xor(D3(Xor(D3(y), F1(y))), F2(y))), F3(y))), F4(y)) }

  lemma RootAt2(y: byte) ensures Folded2(y) + y == y {}
  lemma RootAt3(y: byte) ensures Folded3(y) + y == y {}

  lemma SmallPowers(y: byte)
    ensures Power(0, y) == y && Power(1, y) == Times2(y) && Power(2, y) == D2(y) && Power(3, y) == D3(y)
  {
    hide Times2;
    Power1(y);
    Power2(y);
  }

  lemma FeedbackVanishes(y: byte, k: nat)
    requires k < 4
    ensures Eval(Feedback(y), k) == 0
  {
    hide Eval, Xor, Power, Times2, D2, D3, F1, F2, F3, F4, Feedback;
    FeedbackByDoubling(y);
    var f := Feedback(y);
    EvalFive(f, k);
    var a1 := Xor(Power(k, y), f[1]);
    var a2 := Xor(Power(k, a1), f[2]);
    SmallPowers(y);
    SmallPowers(a1);
    SmallPowers(a2);
    SmallPowers(Xor(Power(k, a2), f[3]));
    RootAt0(y);
    RootAt1(y);
    RootAt2(y);
    RootAt3(y);
    SameSum(Folded2(y), 0, y);
    SameSum(Folded3(y), 0, y);
  }

  lemma {:induction false} DividedKeepsValues(m: seq<byte>, n: nat, k: nat)
    requires |m| == 64 && n <= 60 && k < 4
    ensures Eval(Divided(m, n), k) == Eval(m, k)
  {
    hide Eval, Xor, Feedback;
    if n != 0 {
      var d := Divided(m, n - 1);
      DividedKeepsValues(m, n - 1, k);
      var f := Feedback(d[n - 1]);
      EvalXor(d, FeedbackAt(n - 1, d[n - 1]), k);
      assert FeedbackAt(n - 1, d[n - 1]) == Zeros(n - 1) + (f + Zeros(60 - n));
      EvalAfterZeros(n - 1, f + Zeros(60 - n), k);
      EvalShifted(f, 60 - n, k);
      FeedbackVanishes(d[n - 1], k);
      PowerZero(k * (60 - n));
      XorLaws(Eval(d, k), 0);
    }
  }

  lemma FeedbackLeads(y: byte)
    ensures Feedback(y)[0] == y
  {
    hide Times2, F1, F2, F3, F4;
    FeedbackByDoubling(y);
  }

  /** After n steps the first n coefficients are gone. */
  lemma {:induction false} DividedClears(m: seq<byte>, n: nat)
    requires |m| == 64 && n <= 60
    ensures Divided(m, n)[..n] == Zeros(n)
  {
    hide Xor, Feedback;
    if n != 0 {
      var d := Divided(m, n - 1);
      DividedClears(m, n - 1);
      FeedbackLeads(d[n - 1]);
      XorToZero(d[n - 1], d[n - 1]);
      XorLaws(0, 0);
      var r := Divided(m, n);
      forall i | 0 <= i < n
        ensures r[i] == 0
      {
        assert i < n - 1 ==> d[i] == d[..n - 1][i] == 0;
      }
    }
  }

  /** The first result: what P1 stores is a codeword, for every message. */
  lemma EncodeIsCodeword(d: seq<byte>)
    requires Message(d)
    ensures Codeword(Encode(d))
  {
    hide Eval, Xor, Divided;
    var m := d + Zeros(4);
    var r := Divided(m, 60);
    DividedClears(m, 60);
    assert r == Zeros(60) + Parity(d);
    assert Encode(d) == XorSeq(m, r) by {
      forall i | 0 <= i < 64
        ensures Encode(d)[i] == Xor(m[i], r[i])
      {
        XorLaws(Encode(d)[i], 0);
      }
    }
    forall k: nat | k < 4
      ensures Eval(Encode(d), k) == 0
    {
      EvalXor(m, r, k);
      DividedKeepsValues(m, 60, k);
      XorToZero(Eval(m, k), Eval(m, k));
    }
  }

  /** Two codewords that agree on the first 60 bytes are equal: the message determines the parity. */
  lemma CodewordsByMessage(a: seq<byte>, b: seq<byte>)
    requires Codeword(a) && Codeword(b) && a[..60] == b[..60]
    ensures a == b
  {
    hide Eval, Xor;
    var x := XorSeq(a, b);
    assert x[..60] == Zeros(60) by {
      forall i | 0 <= i < 60
        ensures x[i] == 0
      {
        assert a[i] == a[..60][i] == b[..60][i] == b[i];
        XorToZero(a[i], b[i]);
      }
    }
    assert x == Zeros(60) + x[60..];
    WeightAfterZeros(60, x[60..]);
    VanishingDifference(a, b);
    Independent(x, 4);
    WeightlessDifference(a, b);
  }

  lemma VanishingDifference(a: seq<byte>, b: seq<byte>)
    requires Codeword(a) && Codeword(b)
    ensures Codeword(XorSeq(a, b))
  {
    hide Eval, Xor;
    forall k: nat | k < 4
      ensures Eval(XorSeq(a, b), k) == 0
    {
      EvalXor(a, b, k);
      XorToZero(0, 0);
    }
  }

  lemma {:induction false} WeightAfterZeros(n: nat, c: seq<byte>)
    ensures Weight(Zeros(n) + c) == Weight(c)
  {
    if n == 0 {
      assert Zeros(0) + c == c;
    } else {
      WeightAfterZeros(n - 1, c);
      assert (Zeros(n) + c)[1..] == Zeros(n - 1) + c;
    }
  }

  /** How many bytes two words differ in. */
  function Distance(a: seq<byte>, b: seq<byte>): nat
    requires |a| == |b|
  {
    if a == [] then 0 else (if a[0] != b[0] then 1 else 0) + Distance(a[1..], b[1..])
  }

  lemma {:induction false} DistanceIsWeight(a: seq<byte>, b: seq<byte>)
    requires |a| == |b|
    ensures Distance(a, b) == Weight(XorSeq(a, b))
  {
    hide Xor;
    if a != [] {
      DistanceIsWeight(a[1..], b[1..]);
      assert XorSeq(a, b)[1..] == XorSeq(a[1..], b[1..]);
      XorToZero(a[0], b[0]);
    }
  }

  lemma {:induction false} WeightlessDifference(a: seq<byte>, b: seq<byte>)
    requires |a| == |b| && Weight(XorSeq(a, b)) == 0
    ensures a == b
  {
    hide Xor;
    if a != [] {
      assert XorSeq(a, b)[1..] == XorSeq(a[1..], b[1..]);
      XorToZero(a[0], b[0]);
      WeightlessDifference(a[1..], b[1..]);
      assert a == [a[0]] + a[1..] && b == [b[0]] + b[1..];
    }
  }

  /** Minimum distance: different messages are stored as words that differ in at least five bytes. */
  lemma MinimumDistance(d: seq<byte>, d': seq<byte>)
    requires Message(d) && Message(d') && d != d'
    ensures 5 <= Distance(Encode(d), Encode(d'))
  {
    hide Eval, Xor, Parity, Weight;
    var a, b := Encode(d), Encode(d');
    EncodeIsCodeword(d);
    EncodeIsCodeword(d');
    DistanceIsWeight(a, b);
    VanishingDifference(a, b);
    assert d == a[..60] && d' == b[..60];
    if Weight(XorSeq(a, b)) <= 4 {
      Independent(XorSeq(a, b), 4);
      WeightlessDifference(a, b);
    }
  }

  /** The words P1 can store are exactly the codewords. */
  lemma CodewordsAreEncodings(c: seq<byte>)
    requires |c| == 64
    ensures Codeword(c) <==> c == Encode(c[..60])
  {
    hide Eval, Parity;
    EncodeIsCodeword(c[..60]);
    if Codeword(c) {
      assert Encode(c[..60])[..60] == c[..60];
      CodewordsByMessage(c, Encode(c[..60]));
    }
  }

  /** The parity of a sum is the sum of the parities. */
  lemma ParityIsLinear(d: seq<byte>, d': seq<byte>)
    requires Message(d) && Message(d')
    ensures Parity(XorSeq(d, d')) == XorSeq(Parity(d), Parity(d'))
  {
    hide Eval, Xor, Parity;
    EncodeIsCodeword(d);
    EncodeIsCodeword(d');
    var sum := XorSeq(Encode(d), Encode(d'));
    VanishingDifference(Encode(d), Encode(d'));
    CodewordsAreEncodings(sum);
    assert sum[..60] == XorSeq(d, d');
    assert sum[60..] == XorSeq(Parity(d), Parity(d'));
  }

  // ----- Divisibility: the codeword is a multiple of the generator polynomial

  /** The product of the generator polynomial and the polynomial of coefficients q, as a word of 64. */
  function Multiple(q: seq<byte>): (r: seq<byte>)
    requires |q| <= 60
    ensures |r| == 64
  {
    if q == [] then Zeros(64) else XorSeq(Multiple(q[..|q| - 1]), FeedbackAt(|q| - 1, q[|q| - 1]))
  }

  /** The leading coefficients the division meets. */
  function Quotient(m: seq<byte>, n: nat): (q: seq<byte>)
    requires |m| == 64 && n <= 60
    ensures |q| == n
  {
    if n == 0 then [] else Quotient(m, n - 1) + [Divided(m, n - 1)[n - 1]]
  }

  lemma {:induction false} DividedSubtractsMultiple(m: seq<byte>, n: nat)
    requires |m| == 64 && n <= 60
    ensures Divided(m, n) == XorSeq(m, Multiple(Quotient(m, n)))
  {
    hide Xor, FeedbackAt;
    var q := Quotient(m, n);
    if n == 0 {
      forall i | 0 <= i < 64
        ensures Xor(m[i], Zeros(64)[i]) == m[i]
      {
        XorLaws(m[i], 0);
      }
      assert Divided(m, 0) == XorSeq(m, Multiple(q));
    } else {
      DividedSubtractsMultiple(m, n - 1);
      assert q[..n - 1] == Quotient(m, n - 1);
      XorSeqAssociates(m, Multiple(q[..n - 1]), FeedbackAt(n - 1, q[n - 1]));
    }
  }

  /** What P1 stores is the generator polynomial times the quotient it finds. */
  lemma EncodeIsMultiple(d: seq<byte>)
    requires Message(d)
    ensures Encode(d) == Multiple(Quotient(d + Zeros(4), 60))
  {
    hide Xor, Divided, Multiple, Quotient;
    var m := d + Zeros(4);
    var p := Multiple(Quotient(m, 60));
    DividedSubtractsMultiple(m, 60);
    DividedClears(m, 60);
    var r := Divided(m, 60);
    forall i | 0 <= i < 64
      ensures Encode(d)[i] == p[i]
    {
      assert i < 60 ==> r[i] == r[..60][i] == 0;
      assert r[i] == Xor(m[i], p[i]);
      XorLaws(p[i], m[i]);
      XorLaws(m[i], p[i]);
      XorToZero(m[i], p[i]);
      XorLaws(p[i], 0);
    }
  }

  // ----- P1 itself

  /** The product loop of P1: c is a char holding a coefficient of the generator polynomial. */
  method TimesLoop(coefficient: nat, b: byte) returns (x: byte)
    requires coefficient < 128
    ensures x == Times(coefficient, b)
  {
    hide Times2, Xor;
    x := 0;
    var c := coefficient;
    var y: bv32 := b as bv32;
    ghost var t := b;
    XorLaws(Times(c, b), 0);
    while c != 0
      invariant y == t as bv32
      invariant Xor(x, Times(c, t)) == Times(coefficient, b)
    {
      var bit := if c % 2 == 1 then (y & 0xff) as byte else 0;
      XorRegroups(x, bit, Times(c / 2, Times2(t)), 0);
      LowByte(t);
      XorLaws(x, 0);
      if c % 2 == 1 {
        x := Xor(x, (y & 0xff) as byte);
      }
      ShiftAndReduce(t);
      y := y << 1;
      if y & 0x0100 != 0 {
        y := y ^ 0x11D;
      }
      t := Times2(t);
      c := c / 2;
    }
    XorLaws(x, 0);
  }

  lemma LowByte(t: byte)
    ensures ((t as bv32) & 0xff) as byte == t
  {
  }

  lemma ShiftAndReduce(t: byte)
    ensures var y := (t as bv32) << 1; (if y & 0x0100 != 0 then y ^ 0x11D else y) == Times2(t) as bv32
  {
  }

  /** The five products of one step. */
  method Products(y: byte) returns (ss: array<byte>)
    ensures fresh(ss) && ss[..] == Feedback(y)
  {
    hide Times;
    ss := new byte[5];
    var j := 0;
    while j < 5
      invariant 0 <= j <= 5
      invariant forall k | 0 <= k < j :: ss[k] == Times(GENERATOR[k], y)
    {
      ss[j] := TimesLoop(GENERATOR[j], y);
      j := j + 1;
    }
  }

  lemma StepIsXor(was: seq<byte>, now: seq<byte>, i: nat, f: seq<byte>)
    requires |was| == |now| == 64 && i < 60 && |f| == 5
    requires forall k | 0 <= k < 64 :: now[k] == if i <= k < i + 5 then Xor(was[k], f[k - i]) else was[k]
    ensures now == XorSeq(was, Zeros(i) + f + Zeros(59 - i))
  {
    hide Xor;
    var g := Zeros(i) + f + Zeros(59 - i);
    forall k | 0 <= k < 64
      ensures now[k] == Xor(was[k], g[k])
    {
      XorLaws(was[k], 0);
    }
  }

  /** One step of the division, in the scratch buffer. */
  method DivideStep(m: array<byte>, i: nat)
    requires m.Length == 64 && i < 60
    modifies m
    ensures m[..] == XorSeq(old(m[..]), FeedbackAt(i, old(m[i])))
  {
    hide Xor, XorSeq, Feedback;
    var ss := Products(m[i]);
    ghost var was, f := m[..], Feedback(m[i]);
    for j := 0 to 5
      invariant ss[..] == f
      invariant forall k | 0 <= k < 64 :: m[k] == if i <= k < i + j then Xor(was[k], f[k - i]) else was[k]
    {
      m[i + j] := Xor(m[i + j], ss[j]);
    }
    StepIsXor(was, m[..], i, f);
  }

  /** P1: replaces the last four of the 64 bytes by the parity of the first 60. */
  method P1(buf: array<byte>)
    requires 64 <= buf.Length
    modifies buf
    ensures buf[..] == Encode(old(buf[..60])) + old(buf[64..])
  {
    hide XorSeq, FeedbackAt;
    ghost var d, was := buf[..60], buf[..];
    var m := new byte[64];
    Fill(m, 0, 64, 0);
    Copy(buf, 0, m, 0, 60);
    assert m[..] == d + Zeros(4);
    for i := 0 to 60
      invariant buf[..] == was
      invariant m[..] == Divided(d + Zeros(4), i)
    {
      DivideStep(m, i);
    }
    ghost var p := Parity(d);
    assert m[60..] == p;
    StoreParity(m, buf, p);
  }

  /** The last loop: the four check bytes out, and the scratch buffer cleared behind them. */
  method StoreParity(m: array<byte>, buf: array<byte>, ghost p: seq<byte>)
    requires m.Length == 64 && 64 <= buf.Length && m != buf && |p| == 4 && m[60..] == p
    modifies m, buf
    ensures buf[..] == old(buf[..60]) + p + old(buf[64..])
  {
    var i := 60;
    while i < 64
      invariant 60 <= i <= 64
      invariant forall k | i <= k < 64 :: m[k] == p[k - 60]
      invariant forall k | 0 <= k < buf.Length :: buf[k] == if 60 <= k < i then p[k - 60] else old(buf[k])
    {
      buf[i] := m[i];
      m[i] := 0;
      i := i + 1;
    }
  }
}
