/** What a printed number looks like: sign, zeros, digits and spaces, and that it can be read back. */
module PrintfFields {
  import opened Octets
  import opened PrintfNumbers

  /** How many padding zeros n digits get. */
  function ZeroCount(n: nat, negative: bool, prec: nat, width: nat, f: Flags): nat {
    var wanted := if f.zeropad && prec < WidthLeft(width, negative, f) then WidthLeft(width, negative, f) else prec;
    var target := if wanted < 32 then wanted else 32;
    if f.left || target <= n then 0 else target - n
  }

  lemma PaddedTwice(s: text, m: nat, n: nat)
    requires |s| <= 32
    ensures PadTo(PadTo(s, m), n) == PadTo(s, if m < n then n else m)
  {
  }

  lemma FilledIs(s: text, negative: bool, prec: nat, width: nat, f: Flags)
    requires |s| <= 32
    ensures Filled(s, negative, prec, width, f) == s + Many(ZeroCount(|s|, negative, prec, width, f), '0' as octet)
  {
    hide WidthLeft;
    PaddedTwice(s, prec, WidthLeft(width, negative, f));
    PadToIs(s, prec);
    PadToIs(s, WidthLeft(width, negative, f));
    hide PadTo, Many;
    if f.left {
      NoneAfter('0' as octet, s);
    }
  }

  lemma PadToIs(s: text, n: nat)
    requires |s| <= 32
    ensures var target := if n < 32 then n else 32;
            PadTo(s, n) == s + Many(if target < |s| then 0 else target - |s|, '0' as octet)
  {
  }

  function SignShown(n: nat, negative: bool, f: Flags): text { if n < 32 then SignText(negative, f) else [] }

  lemma DressedIs(s: text, negative: bool, base: nat, prec: nat, width: nat, f: Flags)
    requires |s| <= 32 && !f.hash
    ensures var z := ZeroCount(|s|, negative, prec, width, f);
            Dressed(s, negative, base, prec, width, f)
            == s + Many(z, '0' as octet) + SignShown(|s| + z, negative, f)
  {
    hide ZeroCount, Filled, WidthLeft, Many;
    FilledIs(s, negative, prec, width, f);
  }

  /** The characters between the spaces. */
  function Spelt(digits: text, negative: bool, base: nat, prec: nat, width: nat, f: Flags): text
    requires |digits| <= 32
  {
    hide Dressed, Reverse;
    Reverse(Dressed(Reverse(digits), negative, base, prec, width, f))
  }

  lemma FinishedIs(digits: text, negative: bool, base: nat, prec: nat, width: nat, f: Flags)
    requires |digits| <= 32
    ensures Finished(Reverse(digits), negative, base, prec, width, f)
            == Field(Spelt(digits, negative, base, prec, width, f), WidthLeft(width, negative, f), f)
  {
    hide Dressed, Reverse, Field, WidthLeft;
  }

  /** The conversion buffer read in the order it is printed. */
  lemma Forwards(digits: text, negative: bool, base: nat, prec: nat, width: nat, f: Flags)
    requires |digits| <= 32 && !f.hash
    ensures var z := ZeroCount(|digits|, negative, prec, width, f);
            Spelt(digits, negative, base, prec, width, f)
            == SignShown(|digits| + z, negative, f) + (Many(z, '0' as octet) + digits)
  {
    hide Dressed, Reverse, ZeroCount, Many, SignShown;
    var r, z := Reverse(digits), ZeroCount(|digits|, negative, prec, width, f);
    DressedIs(r, negative, base, prec, width, f);
    var sign := SignShown(|digits| + z, negative, f);
    SignShownIsShort(|digits| + z, negative, f);
    ReverseThree(digits, z, sign);
  }

  lemma ReverseThree(digits: text, z: nat, sign: text)
    requires |sign| <= 1
    ensures Reverse(Reverse(digits) + Many(z, '0' as octet) + sign) == sign + (Many(z, '0' as octet) + digits)
  {
    hide Many, Reverse;
    var r, zeros := Reverse(digits), Many(z, '0' as octet);
    ReverseJoins(r + zeros, sign);
    ReverseJoins(r, zeros);
    ReverseMany(z, '0' as octet);
    ReverseTwice(digits);
    ReverseSign(sign);
  }

  lemma SignShownIsShort(n: nat, negative: bool, f: Flags)
    ensures |SignShown(n, negative, f)| <= 1
  {
  }

  lemma ReverseSign(s: text)
    requires |s| <= 1
    ensures Reverse(s) == s
  {
  }

  /** Zeros are the padding, and the width is more than the conversion buffer holds. */
  predicate Overfull(width: nat, f: Flags) { f.zeropad && !f.left && 32 < width }

  /** Only decimal numbers carry a sign. */
  predicate Plain(base: nat, negative: bool, f: Flags) {
    !f.hash && !f.precision && (negative || f.plus || f.space ==> base == 10)
  }

  /** The number without padding. */
  function Natural(value: nat, negative: bool, base: nat, f: Flags): text
    requires Base(base)
  {
    SignText(negative, f) + Digits(value, base, f.uppercase)
  }

  /** A number without '#' and without precision. Where zeros would have to fill more than the conversion buffer, they
      fill just that, and there is no sign. */
  lemma NumberLayout(value: nat, negative: bool, base: nat, width: nat, f: Flags)
    requires Base(base) && value < 0x1_0000_0000 && Plain(base, negative, f)
    ensures var d, natural := Digits(value, base, f.uppercase), Natural(value, negative, base, f);
            NumberText(value, negative, base, 0, width, f)
            == if Overfull(width, f) then Many(32 - |d|, '0' as octet) + d
               else if f.left then natural + Many(width - |natural|, ' ' as octet)
               else if f.zeropad then SignText(negative, f) + (Many(width - |natural|, '0' as octet) + d)
               else Many(width - |natural|, ' ' as octet) + natural
  {
    hide Digits, NumberText, Many, ZeroCount, WidthLeft;
    NumberForwards(value, negative, base, width, f);
    WordDigits(value, base, f.uppercase);
    var d := Digits(value, base, f.uppercase);
    if Overfull(width, f) {
      OverfullZeros(|d|, negative, width, f);
    } else {
      var natural := SignText(negative, f) + d;
      PlainZeros(|d|, negative, width, f);
      NoneIsNothing('0' as octet, d);
      if f.zeropad && !f.left {
        SameMany(ZeroCount(|d|, negative, 0, width, f), width - |natural|, '0' as octet);
      } else {
        PlainWidth(width, negative, f);
      }
    }
  }

  lemma NumberSpelt(value: nat, negative: bool, base: nat, prec: nat, width: nat, f: Flags)
    requires Base(base) && value < 0x1_0000_0000 && (f.hash ==> value != 0)
    ensures NumberText(value, negative, base, prec, width, f)
            == Field(Spelt(DigitsShown(value, base, f), negative, base, prec, width, f),
                     WidthLeft(width, negative, f), f)
  {
    hide DigitsShown, Reverse, Field, WidthLeft, Spelt, Finished, Base;
    assert f == f.(hash := f.hash && value != 0);
    FinishedIs(DigitsShown(value, base, f), negative, base, prec, width, f);
  }

  lemma NumberForwards(value: nat, negative: bool, base: nat, width: nat, f: Flags)
    requires Base(base) && value < 0x1_0000_0000 && !f.hash && !f.precision
    ensures var d := Digits(value, base, f.uppercase);
            var z := ZeroCount(|d|, negative, 0, width, f);
            NumberText(value, negative, base, 0, width, f)
            == Field(SignShown(|d| + z, negative, f) + (Many(z, '0' as octet) + d), WidthLeft(width, negative, f), f)
  {
    hide Digits, Spelt, Many, ZeroCount, WidthLeft, SignShown, Field, NumberText;
    WordDigits(value, base, f.uppercase);
    NumberSpelt(value, negative, base, 0, width, f);
    Forwards(Digits(value, base, f.uppercase), negative, base, 0, width, f);
  }

  /** The zeros make up the width together with sign and digits, and leave room for the sign. */
  lemma PlainZeros(n: nat, negative: bool, width: nat, f: Flags)
    requires n <= 32 && (SignText(negative, f) != [] ==> n <= 10) && !Overfull(width, f)
    ensures var z, sign := ZeroCount(n, negative, 0, width, f), SignText(negative, f);
            SignShown(n + z, negative, f) == sign
            && z == if f.zeropad && !f.left && n + |sign| < width then width - n - |sign| else 0
  {
  }

  lemma PlainWidth(width: nat, negative: bool, f: Flags)
    ensures f.left || !f.zeropad ==> WidthLeft(width, negative, f) == width
  {
  }

  lemma NoneAfter(c: octet, s: text)
    ensures s + Many(0, c) == s
  {
  }

  lemma NoneIsNothing(c: octet, s: text)
    ensures Many(0, c) + s == s
  {
  }

  lemma SameMany(n: nat, m: int, c: octet)
    requires n == if m < 0 then 0 else m
    ensures Many(n, c) == Many(m, c)
  {
  }

  /** The field is as wide as it should be exactly if the buffer can be filled that far with zeros. */
  lemma NumberWidth(value: nat, negative: bool, base: nat, width: nat, f: Flags)
    requires Base(base) && value < 0x1_0000_0000 && Plain(base, negative, f)
    ensures var natural := |Natural(value, negative, base, f)|;
            |NumberText(value, negative, base, 0, width, f)| == (if natural < width then width else natural)
            <==> !Overfull(width, f)
  {
    hide NumberText, Digits;
    WordDigits(value, base, f.uppercase);
    NumberLayout(value, negative, base, width, f);
  }

  lemma OverfullZeros(n: nat, negative: bool, width: nat, f: Flags)
    requires n <= 32 && Overfull(width, f)
    ensures ZeroCount(n, negative, 0, width, f) == 32 - n
  {
  }

  /** An integer with a precision: its digits with the zeros in front that the code gives them. */
  function PaddedDigits(value: nat, negative: bool, base: nat, prec: nat, width: nat, f: Flags): text
    requires Base(base) && value < 0x1_0000_0000
  {
    var d := DigitsShown(value, base, f);
    Many(ZeroCount(|d|, negative, prec, width, f), '0' as octet) + d
  }

  /** With a precision and without '#' and '0', a number is a sign and padded digits, in a field of spaces. There are
      as many digits as the precision asks for exactly if it asks for nothing, or for no more than the conversion
      buffer holds and the field is not left-adjusted. The sign is lost if the digits fill the buffer. */
  lemma NumberWithPrecision(value: nat, negative: bool, base: nat, prec: nat, width: nat, f: Flags)
    requires Base(base) && value < 0x1_0000_0000 && f.precision && !f.hash && !f.zeropad
    ensures var d, t := DigitsShown(value, base, f), PaddedDigits(value, negative, base, prec, width, f);
            NumberText(value, negative, base, prec, width, f)
            == Field((if |t| < 32 then SignText(negative, f) else []) + t, width, f)
            && (|t| == (if |d| < prec then prec else |d|) <==> prec <= |d| || (!f.left && prec <= 32))
  {
    hide DigitsShown, Spelt, Field, SignText, NumberText;
    NumberSpelt(value, negative, base, prec, width, f);
    Forwards(DigitsShown(value, base, f), negative, base, prec, width, f);
  }

  function PrefixText(base: nat, upper: bool): text {
    if base == 16 then ['0' as octet, if upper then 'X' as octet else 'x' as octet]
    else if base == 2 then ['0' as octet, 'b' as octet]
    else ['0' as octet]
  }

  /** How many characters '#' takes away again: if the digits, with their padding, are as long as the precision or the
      width, it takes them for padding zeros. */
  function Taken(length: nat, base: nat, prec: nat, width: nat, f: Flags): (n: nat)
    ensures n <= 2 && n <= length
  {
    if !f.precision && length != 0 && (length == prec || length == width)
    then if base == 16 && 1 < length then 2 else 1
    else 0
  }

  /** The conversion buffer with the prefix of '#', read in the order it is printed. */
  function HashText(d: text, negative: bool, base: nat, prec: nat, width: nat, f: Flags): text {
    var z := ZeroCount(|d|, negative, prec, width, f);
    var taken := Taken(|d| + z, base, prec, WidthLeft(width, negative, f), f);
    var body, prefix := LeftOver(d, z, taken), PrefixText(base, f.uppercase);
    Fitting(prefix, 32 - |body|) + body
  }

  /** As much of a prefix, from its end, as there is room for. */
  function Fitting(prefix: text, room: int): text
    requires 1 <= |prefix| <= 2
  {
    if |prefix| <= room then prefix else if room == 1 then [prefix[1]] else []
  }

  /** The prefix and all digits are there, perhaps with zeros between them. */
  ghost predicate Kept(t: text, prefix: text, d: text) { exists k: nat :: t == WithZeros(prefix, k, d) }

  function WithZeros(prefix: text, k: nat, d: text): text { prefix + (Many(k, '0' as octet) + d) }

  /** For n digits: '#' takes away padding zeros only, and then there is room for the prefix. A prefix of one zero is
      there if a padding zero is. */
  predicate HashFits(n: nat, negative: bool, base: nat, prec: nat, width: nat, f: Flags) {
    var z := ZeroCount(n, negative, prec, width, f);
    var taken := Taken(n + z, base, prec, WidthLeft(width, negative, f), f);
    taken <= z && (base == 8 || n + z - taken <= 30)
  }

  /** What '#' does to a number other than zero, for every width and precision; and exactly when all of the number
      and the prefix are printed. */
  lemma HashPrefix(value: nat, negative: bool, base: nat, prec: nat, width: nat, f: Flags)
    requires Base(base) && base != 10 && 0 < value < 0x1_0000_0000 && f.hash
    ensures var d := Digits(value, base, f.uppercase);
            var t := HashText(d, negative, base, prec, width, f);
            && NumberText(value, negative, base, prec, width, f)
               == Field(SignShown(|t|, negative, f) + t, WidthLeft(width, negative, f), f)
            && (Kept(t, PrefixText(base, f.uppercase), d) <==> HashFits(|d|, negative, base, prec, width, f))
  {
    hide Digits, HashText, HashFits, Kept, NumberText, Field, WidthLeft, SignShown;
    WordDigits(value, base, f.uppercase);
    var d := Digits(value, base, f.uppercase);
    HashForwards(value, negative, base, prec, width, f);
    DigitsAreDigits(value, base, f.uppercase);
    if base == 8 {
      LargeBaseWord(value, base, f.uppercase);
    }
    if HashFits(|d|, negative, base, prec, width, f) {
      HashKeeps(d, negative, base, prec, width, f);
    } else {
      HashLoses(d, negative, base, prec, width, f);
    }
  }

  lemma HashForwards(value: nat, negative: bool, base: nat, prec: nat, width: nat, f: Flags)
    requires Base(base) && base != 10 && 0 < value < 0x1_0000_0000 && f.hash
    ensures var t := HashText(Digits(value, base, f.uppercase), negative, base, prec, width, f);
            NumberText(value, negative, base, prec, width, f)
            == Field(SignShown(|t|, negative, f) + t, WidthLeft(width, negative, f), f)
  {
    hide Digits, HashText, Field, WidthLeft, SignShown, Spelt, NumberText;
    NumberSpelt(value, negative, base, prec, width, f);
    HashSpelt(DigitsShown(value, base, f), negative, base, prec, width, f);
  }

  lemma HashSpelt(d: text, negative: bool, base: nat, prec: nat, width: nat, f: Flags)
    requires |d| <= 32 && Base(base) && base != 10 && f.hash
    ensures var t := HashText(d, negative, base, prec, width, f);
            Spelt(d, negative, base, prec, width, f) == SignShown(|t|, negative, f) + t
  {
    hide HashText, Filled, Prefixed, Reverse, WidthLeft;
    var r, t := Reverse(d), HashText(d, negative, base, prec, width, f);
    PrefixedIs(d, negative, base, prec, width, f);
    var p := Prefixed(Filled(r, negative, prec, width, f), base, prec, WidthLeft(width, negative, f), f);
    var sign := SignShown(|t|, negative, f);
    ReverseTwice(t);
    assert Dressed(r, negative, base, prec, width, f) == p + sign;
    ReverseJoins(p, sign);
    ReverseSign(sign);
  }

  /** What is left of digits and padding, in the order in which it is printed. */
  function LeftOver(d: text, z: nat, taken: nat): text
    requires taken <= |d| + z
  {
    if taken <= z then Many(z - taken, '0' as octet) + d else d[taken - z..]
  }

  /** The buffer with its prefix is the printed text backwards. */
  lemma PrefixedIs(d: text, negative: bool, base: nat, prec: nat, width: nat, f: Flags)
    requires |d| <= 32 && Base(base) && base != 10 && f.hash
    ensures var w := WidthLeft(width, negative, f);
            var p := Prefixed(Filled(Reverse(d), negative, prec, width, f), base, prec, w, f);
            p == Reverse(HashText(d, negative, base, prec, width, f))
            && |p| == |HashText(d, negative, base, prec, width, f)|
  {
    hide Filled, Reverse, ZeroCount, WidthLeft, Many, Taken, Unfilled, LeftOver, PrefixText, Append;
    var w, z := WidthLeft(width, negative, f), ZeroCount(|d|, negative, prec, width, f);
    ZerosAreEnough(|d|, negative, prec, width, f);
    UnfilledHash(d, negative, base, prec, width, f);
    var taken := Taken(|d| + z, base, prec, w, f);
    var body := LeftOver(d, z, taken);
    LeftOverIs(d, z, taken);
    PrefixAdded(body, base, f.uppercase);
  }

  lemma LeftOverIs(d: text, z: nat, taken: nat)
    requires taken <= |d| + z
    ensures |LeftOver(d, z, taken)| == |d| + z - taken
    ensures LeftOver(d, z, taken) == if taken <= z then Many(z - taken, '0' as octet) + d else d[taken - z..]
  {
  }

  lemma UnfilledHash(d: text, negative: bool, base: nat, prec: nat, width: nat, f: Flags)
    requires |d| <= 32
    ensures var w, z := WidthLeft(width, negative, f), ZeroCount(|d|, negative, prec, width, f);
            Unfilled(Filled(Reverse(d), negative, prec, width, f), base, prec, w, f)
            == Reverse(LeftOver(d, z, Taken(|d| + z, base, prec, w, f)))
  {
    hide Filled, Reverse, ZeroCount, WidthLeft, Many;
    var w, z := WidthLeft(width, negative, f), ZeroCount(|d|, negative, prec, width, f);
    FilledIs(Reverse(d), negative, prec, width, f);
    UnfilledIs(d, z, Taken(|d| + z, base, prec, w, f));
    hide LeftOver;
    var s := Reverse(d) + Many(z, '0' as octet);
    assert s[..|s| - 0] == s;
  }

  /** Taking characters from the end of the buffer takes zeros, and then leading digits. */
  lemma UnfilledIs(d: text, z: nat, taken: nat)
    requires taken <= |d| + z
    ensures (Reverse(d) + Many(z, '0' as octet))[..|d| + z - taken] == Reverse(LeftOver(d, z, taken))
  {
    hide Reverse, Many;
    if taken <= z {
      TrailingZeros(d, z, taken, |d| + z - taken);
    } else {
      LeadingDigits(d, z, taken - z, |d| + z - taken);
    }
  }

  lemma TrailingZeros(d: text, z: nat, taken: nat, n: nat)
    requires taken <= z && n == |d| + z - taken
    ensures (Reverse(d) + Many(z, '0' as octet))[..n] == Reverse(Many(z - taken, '0' as octet) + d)
  {
    hide Reverse, Many;
    FewerZeros(Reverse(d), z, taken, n);
    ZerosInFront(d, z - taken);
  }

  lemma ZerosInFront(d: text, z: nat)
    ensures Reverse(d) + Many(z, '0' as octet) == Reverse(Many(z, '0' as octet) + d)
  {
    hide Reverse, Many;
    ReverseJoins(Many(z, '0' as octet), d);
    ReverseMany(z, '0' as octet);
  }

  lemma LeadingDigits(d: text, z: nat, cut: nat, n: nat)
    requires cut <= |d| && n == |d| - cut
    ensures (Reverse(d) + Many(z, '0' as octet))[..n] == Reverse(d[cut..])
  {
    hide Reverse, Many;
    var a, b := d[cut..], d[..cut];
    ReverseJoins(b, a);
    assert d == b + a && |Reverse(a)| == n;
    FewerDigits(Reverse(a), Reverse(b), Many(z, '0' as octet));
  }

  lemma FewerZeros(r: text, z: nat, taken: nat, n: nat)
    requires taken <= z && n == |r| + z - taken
    ensures (r + Many(z, '0' as octet))[..n] == r + Many(z - taken, '0' as octet)
  {
  }

  lemma FewerDigits(a: text, b: text, zeros: text)
    ensures ((a + b) + zeros)[..|a|] == a
  {
  }

  lemma AppendIs(t: text, c: octet)
    requires |t| <= 32
    ensures Append(Reverse(t), c) == Reverse(if |t| < 32 then [c] + t else t)
  {
    assert Reverse([c]) == [c];
    hide Reverse;
    ReverseJoins([c], t);
  }

  /** The prefix goes in as far as there is room, its last character first. */
  lemma PrefixAdded(body: text, base: nat, upper: bool)
    requires |body| <= 32 && Base(base) && base != 10
    ensures var shown := Fitting(PrefixText(base, upper), 32 - |body|);
            var u := if base == 16 then Append(Reverse(body), if upper then 'X' as octet else 'x' as octet)
                     else if base == 2 then Append(Reverse(body), 'b' as octet) else Reverse(body);
            Append(u, '0' as octet) == Reverse(shown + body)
  {
    hide Reverse, Append;
    var prefix := PrefixText(base, upper);
    Nothing(body);
    if base == 8 {
      AppendIs(body, '0' as octet);
    } else {
      var next := if |body| < 32 then [prefix[1]] + body else body;
      AppendIs(body, prefix[1]);
      AppendIs(next, '0' as octet);
      TwoInFront(prefix, body);
    }
  }

  lemma Nothing(s: text)
    ensures [] + s == s
  {
  }

  lemma TwoInFront(a: text, s: text)
    requires |a| == 2
    ensures [a[0]] + ([a[1]] + s) == a + s
  {
  }

  lemma HashKeeps(d: text, negative: bool, base: nat, prec: nat, width: nat, f: Flags)
    requires HashFits(|d|, negative, base, prec, width, f) && Base(base) && base != 10 && |d| <= 32
    requires base == 8 ==> |d| <= 16
    ensures Kept(HashText(d, negative, base, prec, width, f), PrefixText(base, f.uppercase), d)
  {
    hide ZeroCount, WidthLeft, Taken;
    var z := ZeroCount(|d|, negative, prec, width, f);
    var taken := Taken(|d| + z, base, prec, WidthLeft(width, negative, f), f);
    var prefix, t := PrefixText(base, f.uppercase), HashText(d, negative, base, prec, width, f);
    if |prefix| + |d| + z - taken <= 32 {
      assert t == WithZeros(prefix, z - taken, d);
    } else {
      ZerosAreEnough(|d|, negative, prec, width, f);
      assert Many(z - taken, '0' as octet) == prefix + Many(z - taken - 1, '0' as octet);
      assert t == WithZeros(prefix, z - taken - 1, d);
    }
  }

  lemma ZerosAreEnough(n: nat, negative: bool, prec: nat, width: nat, f: Flags)
    requires n <= 32
    ensures n + ZeroCount(n, negative, prec, width, f) <= 32
  {
  }

  lemma HashLoses(d: text, negative: bool, base: nat, prec: nat, width: nat, f: Flags)
    requires !HashFits(|d|, negative, base, prec, width, f) && Base(base) && base != 10 && |d| <= 32
    requires AllDigits(d, base)
    ensures !Kept(HashText(d, negative, base, prec, width, f), PrefixText(base, f.uppercase), d)
  {
    hide ZeroCount, WidthLeft, Taken;
    var z := ZeroCount(|d|, negative, prec, width, f);
    var taken := Taken(|d| + z, base, prec, WidthLeft(width, negative, f), f);
    var prefix, t := PrefixText(base, f.uppercase), HashText(d, negative, base, prec, width, f);
    ZerosAreEnough(|d|, negative, prec, width, f);
    hide Kept;
    if taken <= z {
      NoRoom(d, z - taken, base, f.uppercase);
    } else {
      TooShort(t, prefix, d);
    }
  }

  lemma NoRoom(d: text, k: nat, base: nat, upper: bool)
    requires Base(base) && base != 10 && base != 8 && 30 < k + |d| <= 32 && AllDigits(d, base)
    ensures var prefix := PrefixText(base, upper);
            !Kept(Fitting(prefix, 32 - (k + |d|)) + (Many(k, '0' as octet) + d), prefix, d)
  {
    hide Kept;
    var prefix, body := PrefixText(base, upper), Many(k, '0' as octet) + d;
    ZerosAreDigits(k, d, base);
    if |body| == 32 {
      assert DigitValue(body[1]) < base;
      Nothing(body);
      WrongStart(body, prefix, d);
    } else {
      WrongStart([prefix[1]] + body, prefix, d);
    }
  }

  lemma TooShort(t: text, prefix: text, d: text)
    requires |t| < |prefix| + |d|
    ensures !Kept(t, prefix, d)
  {
  }

  lemma WrongStart(t: text, prefix: text, d: text)
    requires 2 <= |t| && |prefix| == 2 && (t[0] != prefix[0] || t[1] != prefix[1])
    ensures !Kept(t, prefix, d)
  {
  }

  /** A hexadecimal number of four digits in a field of four: '#' takes two of them away. */
  lemma HashLosesDigits()
    ensures NumberText(0x1234, false, 16, 0, 4, NO_FLAGS.(hash := true))
            == ['0' as octet, 'x' as octet, '3' as octet, '4' as octet]
  {
    var d, f := Digits(0x1234, 16, false), NO_FLAGS.(hash := true);
    FourDigits();
    HashForwards(0x1234, false, 16, 0, 4, f);
    hide NumberText, Digits;
    assert HashText(d, false, 16, 0, 4, f) == ['0' as octet, 'x' as octet] + d[2..];
  }

  lemma FourDigits()
    ensures Digits(0x1234, 16, false) == ['1' as octet, '2' as octet, '3' as octet, '4' as octet]
  {
    assert Digits(1, 16, false) == ['1' as octet];
    assert Digits(0x12, 16, false) == ['1' as octet, '2' as octet];
    assert Digits(0x123, 16, false) == ['1' as octet, '2' as octet, '3' as octet];
  }

  // ----- Reading a number back

  function SkipSpaces(s: text): text {
    if s != [] && s[0] == ' ' as octet then SkipSpaces(s[1..]) else s
  }

  function TakeDigits(s: text, base: nat): text {
    if s == [] || base <= DigitValue(s[0]) then [] else [s[0]] + TakeDigits(s[1..], base)
  }

  function WithSign(value: nat, negative: bool): int { if negative then 0 - value else value }

  /** The number at the start of a text, as strtol reads it. */
  function ReadNumber(s: text, base: nat): int {
    var t := SkipSpaces(s);
    if t != [] && t[0] == '-' as octet then WithSign(Value(TakeDigits(t[1..], base), base), true)
    else if t != [] && t[0] == '+' as octet then Value(TakeDigits(t[1..], base), base)
    else Value(TakeDigits(t, base), base)
  }

  lemma {:induction false} SpacesSkipped(n: nat, s: text)
    ensures SkipSpaces(Many(n, ' ' as octet) + s) == SkipSpaces(s)
  {
    if n == 0 {
      assert Many(n, ' ' as octet) + s == s;
    } else {
      SpacesSkipped(n - 1, s);
      assert (Many(n, ' ' as octet) + s)[1..] == Many(n - 1, ' ' as octet) + s;
    }
  }

  lemma {:induction false} DigitsTaken(d: text, n: nat, base: nat)
    requires Base(base) && AllDigits(d, base)
    ensures TakeDigits(d + Many(n, ' ' as octet), base) == d
  {
    if d == [] {
      assert d + Many(n, ' ' as octet) == Many(n, ' ' as octet);
    } else {
      DigitsTaken(d[1..], n, base);
      assert (d + Many(n, ' ' as octet))[1..] == d[1..] + Many(n, ' ' as octet);
    }
  }

  lemma {:induction false} LeadingZeros(z: nat, d: text, base: nat)
    ensures Value(Many(z, '0' as octet) + d, base) == Value(d, base)
    decreases |d|, z
  {
    var s := Many(z, '0' as octet);
    if d != [] {
      assert (s + d)[..|s + d| - 1] == s + d[..|d| - 1];
      LeadingZeros(z, d[..|d| - 1], base);
    } else if z != 0 {
      assert (s + d)[..|s + d| - 1] == Many(z - 1, '0' as octet) + d;
      LeadingZeros(z - 1, d, base);
    } else {
      assert s + d == [];
    }
  }

  /** A sign, zeros, digits and spaces read as the number. */
  lemma SignedReadBack(value: nat, negative: bool, base: nat, z: nat, n: nat, f: Flags)
    requires Base(base)
    ensures ReadNumber(SignText(negative, f) + (Many(z, '0' as octet) + Digits(value, base, f.uppercase))
                       + Many(n, ' ' as octet), base)
            == WithSign(value, negative)
  {
    hide Digits, Many, Value, TakeDigits, AllDigits, SkipSpaces, DigitValue;
    var d, blanks := Digits(value, base, f.uppercase), Many(n, ' ' as octet);
    var body := Many(z, '0' as octet) + d;
    DigitsReadBack(value, base, f.uppercase);
    DigitsAreDigits(value, base, f.uppercase);
    ZerosAreDigits(z, d, base);
    LeadingZeros(z, d, base);
    DigitsTaken(body, n, base);
    NoSpaceNoSign(body, n, base);
    var sign := SignText(negative, f);
    assert sign + body + blanks == sign + (body + blanks);
    if sign != [] {
      assert (sign + (body + blanks))[1..] == body + blanks;
      SignNoted(sign[0], body + blanks);
    } else {
      assert sign + (body + blanks) == body + blanks;
    }
  }

  lemma ZerosAreDigits(z: nat, d: text, base: nat)
    requires Base(base) && AllDigits(d, base)
    ensures AllDigits(Many(z, '0' as octet) + d, base)
  {
  }

  lemma SignNoted(c: octet, s: text)
    requires SkipSpaces(s) == s
    ensures SkipSpaces([c] + s) == if c == ' ' as octet then s else [c] + s
  {
    assert ([c] + s)[1..] == s;
  }

  lemma NoSpaceNoSign(body: text, n: nat, base: nat)
    requires Base(base) && body != [] && AllDigits(body, base)
    ensures var s := body + Many(n, ' ' as octet);
            SkipSpaces(s) == s && s[0] != '-' as octet && s[0] != '+' as octet
  {
    assert DigitValue(body[0]) < base;
  }

  /** Reading what was printed gives the number back, with its sign; except for a negative number whose sign is lost
      because zeros have filled the conversion buffer. */
  lemma NumberReadBack(value: nat, negative: bool, base: nat, width: nat, f: Flags)
    requires Base(base) && value < 0x1_0000_0000 && Plain(base, negative, f)
    ensures ReadNumber(NumberText(value, negative, base, 0, width, f), base) == WithSign(value, negative)
            <==> !(Overfull(width, f) && negative && value != 0)
  {
    hide NumberText, Digits, ReadNumber, Plain;
    if Overfull(width, f) {
      NumberLayout(value, negative, base, width, f);
      WordDigits(value, base, f.uppercase);
      UnsignedReadBack(value, base, 32 - |Digits(value, base, f.uppercase)|, f);
    } else {
      FieldReadBack(value, negative, base, width, f);
    }
  }

  lemma FieldReadBack(value: nat, negative: bool, base: nat, width: nat, f: Flags)
    requires Base(base) && value < 0x1_0000_0000 && Plain(base, negative, f) && !Overfull(width, f)
    ensures ReadNumber(NumberText(value, negative, base, 0, width, f), base) == WithSign(value, negative)
  {
    NumberLayout(value, negative, base, width, f);
    hide NumberText, Digits, ReadNumber, SignText, Many;
    var fill := width - |Natural(value, negative, base, f)|;
    var n := if fill < 0 then 0 else fill;
    SameMany(n, fill, ' ' as octet);
    SameMany(n, fill, '0' as octet);
    LayoutReadBack(value, negative, base, n, f);
  }

  lemma UnsignedReadBack(value: nat, base: nat, z: nat, f: Flags)
    requires Base(base)
    ensures ReadNumber(Many(z, '0' as octet) + Digits(value, base, f.uppercase), base) == value
  {
    var g := f.(plus := false, space := false);
    var t := Many(z, '0' as octet) + Digits(value, base, g.uppercase);
    SignedReadBack(value, false, base, z, 0, g);
    hide Digits, ReadNumber;
    assert SignText(false, g) == [];
    Nothing(t);
    NoneAfter(' ' as octet, t);
  }

  lemma LayoutReadBack(value: nat, negative: bool, base: nat, n: nat, f: Flags)
    requires Base(base)
    ensures var d, sign := Digits(value, base, f.uppercase), SignText(negative, f);
            var natural := Natural(value, negative, base, f);
            && ReadNumber(natural + Many(n, ' ' as octet), base) == WithSign(value, negative)
            && ReadNumber(sign + (Many(n, '0' as octet) + d), base) == WithSign(value, negative)
            && ReadNumber(Many(n, ' ' as octet) + natural, base) == WithSign(value, negative)
  {
    hide Digits, ReadNumber, SignText;
    var d, sign, natural := Digits(value, base, f.uppercase), SignText(negative, f), Natural(value, negative, base, f);
    SignedReadBack(value, negative, base, 0, n, f);
    SignedReadBack(value, negative, base, n, 0, f);
    SignedReadBack(value, negative, base, 0, 0, f);
    BlanksSkipped(n, natural, base);
    assert Many(0, '0' as octet) + d == d;
    assert natural + Many(0, ' ' as octet) == natural;
    var padded := sign + (Many(n, '0' as octet) + d);
    assert padded + Many(0, ' ' as octet) == padded;
  }

  lemma BlanksSkipped(n: nat, s: text, base: nat)
    ensures ReadNumber(Many(n, ' ' as octet) + s, base) == ReadNumber(s, base)
  {
    SpacesSkipped(n, s);
  }
}
