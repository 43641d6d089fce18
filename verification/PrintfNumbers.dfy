/** How ipl/common/printf.c spells an integer. */
module PrintfNumbers {
  import opened Octets
  import opened Words

  type text = seq<octet>

  /** The FLAGS_ bits. */
  datatype Flags = Flags(zeropad: bool, left: bool, plus: bool, space: bool, hash: bool, uppercase: bool,
                         short: bool, byteWide: bool, long: bool, longLong: bool, precision: bool)

  const NO_FLAGS := Flags(false, false, false, false, false, false, false, false, false, false, false)

  // ----- Digits

  function DigitChar(d: nat, upper: bool): octet
    requires d < 16
  {
    if d < 10 then '0' as octet + d as octet else (if upper then 'A' as octet else 'a' as octet) + (d - 10) as octet
  }

  /** The digit a character stands for; 16 if it is none. */
  function DigitValue(c: octet): (d: nat)
    ensures d <= 16
  {
    if '0' as octet <= c <= '9' as octet then (c - '0' as octet) as nat
    else if 'a' as octet <= c <= 'f' as octet then (c - 'a' as octet) as nat + 10
    else if 'A' as octet <= c <= 'F' as octet then (c - 'A' as octet) as nat + 10
    else 16
  }

  predicate Base(base: nat) { base == 2 || base == 8 || base == 10 || base == 16 }

  /** A number in a base, most significant digit first. */
  function Digits(v: nat, base: nat, upper: bool): (s: text)
    requires Base(base)
    ensures s != []
    decreases v
  {
    if v < base then [DigitChar(v, upper)] else Digits(v / base, base, upper) + [DigitChar(v % base, upper)]
  }

  /** The number that digits stand for. */
  function Value(s: text, base: nat): nat {
    if s == [] then 0 else Value(s[..|s| - 1], base) * base + DigitValue(s[|s| - 1])
  }

  lemma DigitReadBack(d: nat, upper: bool)
    requires d < 16
    ensures DigitValue(DigitChar(d, upper)) == d
  {
  }

  lemma {:induction false} DigitsReadBack(v: nat, base: nat, upper: bool)
    requires Base(base)
    ensures Value(Digits(v, base, upper), base) == v
    decreases v
  {
    hide DigitChar, DigitValue;
    DigitReadBack(v % base, upper);
    if v < base {
      assert Value([], base) == 0;
    } else {
      var s := Digits(v / base, base, upper);
      DigitsReadBack(v / base, base, upper);
      hide Digits, Value;
      OneMoreDigit(s, DigitChar(v % base, upper), base);
      QuotientAndRest(v, base);
    }
  }

  predicate AllDigits(s: text, base: nat) { forall i | 0 <= i < |s| :: DigitValue(s[i]) < base }

  lemma {:induction false} DigitsAreDigits(v: nat, base: nat, upper: bool)
    requires Base(base)
    ensures AllDigits(Digits(v, base, upper), base)
    decreases v
  {
    hide DigitChar, DigitValue;
    DigitReadBack(v % base, upper);
    if base <= v {
      DigitsAreDigits(v / base, base, upper);
    }
  }

  lemma OneMoreDigit(s: text, c: octet, base: nat)
    ensures Value(s + [c], base) == Value(s, base) * base + DigitValue(c)
  {
    assert (s + [c])[..|s|] == s;
  }

  lemma QuotientAndRest(v: nat, base: nat)
    requires Base(base)
    ensures v / base * base + v % base == v
  {
  }

  lemma {:induction false} DigitsAreFew(v: nat, base: nat, upper: bool, n: nat)
    requires Base(base) && v < Pow2(n) && 0 < n
    ensures |Digits(v, base, upper)| <= n
    decreases n
  {
    hide DigitChar;
    if base <= v {
      assert n != 1;
      assert v / base <= v / 2;
      DigitsAreFew(v / base, base, upper, n - 1);
    }
  }

  lemma WordDigits(v: nat, base: nat, upper: bool)
    requires Base(base) && v < 0x1_0000_0000
    ensures |Digits(v, base, upper)| <= 32
    ensures base == 10 ==> |Digits(v, base, upper)| <= 10
  {
    assert Pow2(8) == 0x100 && Pow2(16) == 0x10000 && Pow2(24) == 0x1000000 && Pow2(32) == 0x100000000;
    DigitsAreFew(v, base, upper, 32);
    if base == 10 {
      assert Pow10(5) == 100000 && Pow10(10) == 10000000000;
      TenDigits(v, upper, 10);
    }
  }

  /** In the larger bases there are half as many. */
  lemma {:induction false} LargeBase(v: nat, base: nat, upper: bool, n: nat)
    requires Base(base) && base != 2 && v < Pow2(2 * n) && 0 < n
    ensures |Digits(v, base, upper)| <= n
    decreases n
  {
    hide DigitChar;
    assert Pow2(0) == 1 && Pow2(2 * n) == 4 * Pow2(2 * (n - 1));
    if base <= v {
      assert v / base <= v / 4;
      LargeBase(v / base, base, upper, n - 1);
    }
  }

  lemma LargeBaseWord(v: nat, base: nat, upper: bool)
    requires Base(base) && base != 2 && v < 0x1_0000_0000
    ensures |Digits(v, base, upper)| <= 16
  {
    assert Pow2(8) == 0x100 && Pow2(16) == 0x10000 && Pow2(24) == 0x1000000 && Pow2(32) == 0x100000000;
    LargeBase(v, base, upper, 16);
  }

  function Pow10(n: nat): nat { if n == 0 then 1 else 10 * Pow10(n - 1) }

  lemma {:induction false} TenDigits(v: nat, upper: bool, n: nat)
    requires v < Pow10(n) && 0 < n
    ensures |Digits(v, 10, upper)| <= n
    decreases n
  {
    hide DigitChar;
    if 10 <= v {
      assert n != 1;
      TenDigits(v / 10, upper, n - 1);
    }
  }

  function Reverse(s: text): (r: text)
    ensures |r| == |s|
  {
    if s == [] then [] else Reverse(s[1..]) + [s[0]]
  }

  lemma {:induction false} ReverseJoins(a: text, b: text)
    ensures Reverse(a + b) == Reverse(b) + Reverse(a)
  {
    if a == [] {
      assert a + b == b;
    } else {
      ReverseJoins(a[1..], b);
      assert (a + b)[1..] == a[1..] + b;
    }
  }

  lemma {:induction false} ReverseTwice(s: text)
    ensures Reverse(Reverse(s)) == s
  {
    if s != [] {
      ReverseTwice(s[1..]);
      ReverseJoins(Reverse(s[1..]), [s[0]]);
      assert Reverse([s[0]]) == [s[0]];
      assert [s[0]] + s[1..] == s;
    }
  }

  function Many(n: int, c: octet): (s: text)
    ensures |s| == if n < 0 then 0 else n
  {
    seq(if n < 0 then 0 else n, i => c)
  }

  lemma {:induction false} ReverseMany(n: nat, c: octet)
    ensures Reverse(Many(n, c)) == Many(n, c)
  {
    if n != 0 {
      ReverseMany(n - 1, c);
      assert Many(n, c)[1..] == Many(n - 1, c);
    }
  }

  // ----- The conversion buffer, which holds the number backwards

  const NTOA_BUFFER_SIZE: nat := 32

  /** Zeros up to a length, as far as there is room. */
  function PadTo(s: text, n: nat): (r: text)
    requires |s| <= NTOA_BUFFER_SIZE
    ensures |r| <= NTOA_BUFFER_SIZE
  {
    s + Many((if n < NTOA_BUFFER_SIZE then n else NTOA_BUFFER_SIZE) - |s|, '0' as octet)
  }

  /** The width that is left for zeros when a sign will follow. */
  function WidthLeft(width: nat, negative: bool, f: Flags): nat {
    if !f.left && width != 0 && f.zeropad && (negative || f.plus || f.space) then width - 1 else width
  }

  function Filled(s: text, negative: bool, prec: nat, width: nat, f: Flags): (r: text)
    requires |s| <= NTOA_BUFFER_SIZE
    ensures |r| <= NTOA_BUFFER_SIZE
  {
    if f.left then s
    else if f.zeropad then PadTo(PadTo(s, prec), WidthLeft(width, negative, f))
    else PadTo(s, prec)
  }

  /** The prefix of '#' takes the place of padding zeros when there are any, or seem to be. */
  function Unfilled(s: text, base: nat, prec: nat, width: nat, f: Flags): (r: text)
    ensures |r| <= |s|
  {
    if !f.precision && s != [] && (|s| == prec || |s| == width)
    then if base == 16 && 1 < |s| then s[..|s| - 2] else s[..|s| - 1]
    else s
  }

  function Append(s: text, c: octet): (r: text)
    requires |s| <= NTOA_BUFFER_SIZE
    ensures |r| <= NTOA_BUFFER_SIZE
  {
    if |s| < NTOA_BUFFER_SIZE then s + [c] else s
  }

  function Prefixed(s: text, base: nat, prec: nat, width: nat, f: Flags): (r: text)
    requires |s| <= NTOA_BUFFER_SIZE
    ensures |r| <= NTOA_BUFFER_SIZE
  {
    if !f.hash then s else
    var t := Unfilled(s, base, prec, width, f);
    var u := if base == 16 then Append(t, if f.uppercase then 'X' as octet else 'x' as octet)
             else if base == 2 then Append(t, 'b' as octet) else t;
    Append(u, '0' as octet)
  }

  function SignText(negative: bool, f: Flags): (s: text)
    ensures |s| <= 1
  {
    if negative then ['-' as octet] else if f.plus then ['+' as octet] else if f.space then [' ' as octet] else []
  }

  function Signed(s: text, negative: bool, f: Flags): (r: text)
    requires |s| <= NTOA_BUFFER_SIZE
    ensures |r| <= NTOA_BUFFER_SIZE
  {
    if |s| < NTOA_BUFFER_SIZE then s + SignText(negative, f) else s
  }

  /** _ntoa_format up to the output. */
  function Dressed(s: text, negative: bool, base: nat, prec: nat, width: nat, f: Flags): (r: text)
    requires |s| <= NTOA_BUFFER_SIZE
    ensures |r| <= NTOA_BUFFER_SIZE
  {
    Signed(Prefixed(Filled(s, negative, prec, width, f), base, prec, WidthLeft(width, negative, f), f), negative, f)
  }

  /** A text in a field: spaces fill it up on one side, unless zeros already have. */
  function Field(t: text, width: nat, f: Flags): text {
    var spaces := Many(width - |t|, ' ' as octet);
    if f.left then t + spaces else if f.zeropad then t else spaces + t
  }

  /** _ntoa_format: what is printed for a conversion buffer. */
  function Finished(s: text, negative: bool, base: nat, prec: nat, width: nat, f: Flags): text
    requires |s| <= NTOA_BUFFER_SIZE
  {
    hide Dressed, Reverse, Field, WidthLeft;
    Field(Reverse(Dressed(s, negative, base, prec, width, f)), WidthLeft(width, negative, f), f)
  }

  /** The digits of a number; a zero with an explicit precision has none. */
  function DigitsShown(value: nat, base: nat, f: Flags): (s: text)
    requires Base(base) && value < 0x1_0000_0000
    ensures |s| <= NTOA_BUFFER_SIZE
  {
    WordDigits(value, base, f.uppercase);
    if f.precision && value == 0 then [] else Digits(value, base, f.uppercase)
  }

  /** _ntoa_long: what is printed for a number; '#' has no effect on zero. */
  function NumberText(value: nat, negative: bool, base: nat, prec: nat, width: nat, f: Flags): text
    requires Base(base) && value < 0x1_0000_0000
  {
    hide DigitsShown, Finished, Reverse;
    Finished(Reverse(DigitsShown(value, base, f)), negative, base, prec, width, f.(hash := f.hash && value != 0))
  }
}
