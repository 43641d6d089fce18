/** The output of a format and its arguments, as ipl/common/printf.c produces it without floating point and without
    long long. */
module PrintfFormat {
  import opened Octets
  import opened PrintfNumbers
  import opened PrintfFields
  import opened Words

  type CStr = s: text | 0 !in s && |s| < 0x1_0000_0000 witness []
  type uint = x: nat | x < 0x1_0000_0000

  /** The arguments of a call: what the k-th one is when fetched as a word and when fetched as a string. */
  datatype VaList = VaList(asWord: nat -> uint, asString: nat -> CStr)

  /** The character at a position; a C string ends with zero. */
  function At(s: CStr, p: nat): octet { if p < |s| then s[p] else 0 }

  predicate IsDigit(c: octet) { '0' as octet <= c <= '9' as octet }

  // ----- Reading a directive

  predicate IsFlag(c: octet) {
    c == '0' as octet || c == '-' as octet || c == '+' as octet || c == ' ' as octet || c == '#' as octet
  }

  function WithFlag(f: Flags, c: octet): Flags {
    f.(zeropad := f.zeropad || c == '0' as octet, left := f.left || c == '-' as octet,
       plus := f.plus || c == '+' as octet, space := f.space || c == ' ' as octet, hash := f.hash || c == '#' as octet)
  }

  function ReadFlags(s: CStr, p: nat, f: Flags): (r: (Flags, nat))
    ensures p <= r.1
    ensures p <= |s| ==> r.1 <= |s|
    decreases |s| - p
  {
    if IsFlag(At(s, p)) then ReadFlags(s, p + 1, WithFlag(f, At(s, p))) else (f, p)
  }

  /** _atoi, which wraps around. */
  function ReadNat(s: CStr, p: nat, n: uint): (r: (uint, nat))
    ensures p <= r.1
    ensures p <= |s| ==> r.1 <= |s|
    decreases |s| - p
  {
    if IsDigit(At(s, p)) then ReadNat(s, p + 1, WithDigit(n, At(s, p))) else (n, p)
  }

  function WithDigit(n: uint, c: octet): uint
    requires IsDigit(c)
  {
    (n * 10 + (c - '0' as octet) as nat) % 0x1_0000_0000
  }

  /** A directive, read up to its conversion character, which is at position `at`; k arguments are used up. */
  datatype Directive = Directive(f: Flags, width: nat, prec: nat, at: nat, k: nat)

  function ReadWidth(s: CStr, va: VaList, d: Directive): (e: Directive)
    ensures d.at <= e.at
    ensures d.at <= |s| ==> e.at <= |s|
  {
    if IsDigit(At(s, d.at)) then var r := ReadNat(s, d.at, 0); d.(width := r.0, at := r.1)
    else if At(s, d.at) == '*' as octet then
      var w := AsInt(va.asWord(d.k));
      if w < 0 then Directive(d.f.(left := true), -w, d.prec, d.at + 1, d.k + 1)
      else Directive(d.f, w, d.prec, d.at + 1, d.k + 1)
    else d
  }

  function ReadPrecision(s: CStr, va: VaList, d: Directive): (e: Directive)
    ensures d.at <= e.at
    ensures d.at <= |s| ==> e.at <= |s|
  {
    if At(s, d.at) != '.' as octet then d else
    var g, p := d.f.(precision := true), d.at + 1;
    if IsDigit(At(s, p)) then var r := ReadNat(s, p, 0); Directive(g, d.width, r.0, r.1, d.k)
    else if At(s, p) == '*' as octet then
      var n := AsInt(va.asWord(d.k));
      Directive(g, d.width, if 0 < n then n else 0, p + 1, d.k + 1)
    else Directive(g, d.width, d.prec, p, d.k)
  }

  function ReadLength(s: CStr, d: Directive): (e: Directive)
    ensures d.at <= e.at
    ensures d.at <= |s| ==> e.at <= |s|
  {
    var c, next := At(s, d.at), At(s, d.at + 1);
    var twice := (c == 'l' as octet || c == 'h' as octet) && next == c;
    var f := d.f.(long := d.f.long || c == 'l' as octet || c == 'z' as octet,
                  short := d.f.short || c == 'h' as octet,
                  byteWide := d.f.byteWide || (twice && c == 'h' as octet),
                  longLong := d.f.longLong || (twice && c == 'l' as octet) || c == 'j' as octet);
    var known := c == 'l' as octet || c == 'h' as octet || c == 'j' as octet || c == 'z' as octet;
    d.(f := f, at := d.at + if twice then 2 else if known then 1 else 0)
  }

  /** The directive whose '%' is just before position p. */
  function ReadDirective(s: CStr, p: nat, va: VaList, k: nat): (d: Directive)
    ensures p <= d.at
    ensures p <= |s| ==> d.at <= |s|
  {
    hide ReadFlags, ReadWidth, ReadPrecision, ReadLength;
    var r := ReadFlags(s, p, NO_FLAGS);
    ReadLength(s, ReadPrecision(s, va, ReadWidth(s, va, Directive(r.0, 0, 0, r.1, k))))
  }

  // ----- What a directive prints

  predicate IsInteger(c: octet) {
    c == 'd' as octet || c == 'i' as octet || c == 'u' as octet || c == 'x' as octet || c == 'X' as octet
    || c == 'o' as octet || c == 'b' as octet
  }

  predicate IsSigned(c: octet) { c == 'd' as octet || c == 'i' as octet }

  function BaseOf(c: octet): (base: nat)
    ensures Base(base)
  {
    if c == 'x' as octet || c == 'X' as octet then 16
    else if c == 'o' as octet then 8
    else if c == 'b' as octet then 2
    else 10
  }

  function IntegerFlags(c: octet, f: Flags): Flags {
    f.(hash := f.hash && BaseOf(c) != 10, uppercase := f.uppercase || c == 'X' as octet,
       plus := f.plus && IsSigned(c), space := f.space && IsSigned(c), zeropad := f.zeropad && !f.precision)
  }

  function TwosComplement(x: nat, size: nat): int
    requires 0 < size
  {
    var y := x % size;
    if 2 * y < size then y else y - size
  }

  /** The value of an argument of an integer conversion, narrowed as its length says. */
  function Argument(c: octet, x: uint, f: Flags): (v: int)
    ensures -0x8000_0000 <= v < 0x1_0000_0000
  {
    var size := if f.long then 0x1_0000_0000 else if f.byteWide then 0x100 else if f.short then 0x10000
                else 0x1_0000_0000;
    if IsSigned(c) then TwosComplement(x, size) else x % size
  }

  function Magnitude(v: int): nat { if v < 0 then -v else v }

  function IntegerText(c: octet, x: uint, d: Directive): text {
    var v := Argument(c, x, d.f);
    NumberText(Magnitude(v), v < 0, BaseOf(c), d.prec, d.width, IntegerFlags(c, d.f))
  }

  /** A character or a string in its field; '0' does not matter to it. */
  function TextField(t: text, width: nat, left: bool): text {
    var spaces := Many(width - |t|, ' ' as octet);
    if left then t + spaces else spaces + t
  }

  function Cut(t: text, d: Directive): text {
    if d.f.precision && d.prec < |t| then t[..d.prec] else t
  }

  function PointerText(x: uint, d: Directive): text {
    NumberText(x, false, 16, d.prec, 8, d.f.(zeropad := true, uppercase := true))
  }

  /** The text of a directive with conversion character c, and how many arguments are used up after it. */
  function Converted(c: octet, d: Directive, va: VaList): (text, nat) {
    hide IntegerText, PointerText, TextField, Cut;
    if IsInteger(c) then
      if d.f.longLong then ([], d.k) else (IntegerText(c, va.asWord(d.k), d), d.k + 1)
    else if c == 'c' as octet then (TextField([Low(va.asWord(d.k))], d.width, d.f.left), d.k + 1)
    else if c == 's' as octet then (TextField(Cut(va.asString(d.k), d), d.width, d.f.left), d.k + 1)
    else if c == 'p' as octet then (PointerText(va.asWord(d.k), d), d.k + 1)
    else ([c], d.k)
  }

  /** No directive is cut off by the end of the format. Where directives end does not depend on the arguments. */
  ghost predicate Closed(s: CStr, p: nat, va: VaList, k: nat)
    decreases |s| - p
  {
    hide ReadDirective, Converted;
    if |s| <= p then true
    else if s[p] != '%' as octet then Closed(s, p + 1, va, k)
    else
      var d := ReadDirective(s, p + 1, va, k);
      d.at < |s| && Closed(s, d.at + 1, va, Converted(s[d.at], d, va).1)
  }

  /** Everything the format prints from position p on. */
  function Formatted(s: CStr, p: nat, va: VaList, k: nat): (t: text)
    requires Closed(s, p, va, k)
    decreases |s| - p
  {
    hide ReadDirective, Converted;
    if |s| <= p then []
    else if s[p] != '%' as octet then [s[p]] + Formatted(s, p + 1, va, k)
    else
      var d := ReadDirective(s, p + 1, va, k);
      var c := Converted(s[d.at], d, va);
      c.0 + Formatted(s, d.at + 1, va, c.1)
  }

  // ----- Integers

  /** Narrowing keeps the value modulo the size, and brings it into the range. */
  lemma NarrowedIs(x: nat, size: nat)
    requires 0 < size && size % 2 == 0
    ensures var v := TwosComplement(x, size); 0 - size <= 2 * v < size && (v == x % size || v == x % size - size)
  {
  }

  /** An integer conversion without '#' and without precision fills its field exactly if zeros do not have to fill more
      than the conversion buffer; and it can be read back, unless that has cost a negative number its sign. */
  lemma IntegerReadBack(c: octet, x: uint, d: Directive)
    requires IsInteger(c) && !d.f.precision && d.prec == 0 && (d.f.hash ==> BaseOf(c) == 10)
    ensures ReadNumber(IntegerText(c, x, d), BaseOf(c)) == Argument(c, x, d.f)
            <==> !(Overfull(d.width, d.f) && Argument(c, x, d.f) < 0)
    ensures var v := Argument(c, x, d.f);
            var natural := |Natural(Magnitude(v), v < 0, BaseOf(c), IntegerFlags(c, d.f))|;
            |IntegerText(c, x, d)| == (if natural < d.width then d.width else natural) <==> !Overfull(d.width, d.f)
  {
    hide NumberText, ReadNumber, Natural, TwosComplement;
    var v, f := Argument(c, x, d.f), IntegerFlags(c, d.f);
    NumberReadBack(Magnitude(v), v < 0, BaseOf(c), d.width, f);
    NumberWidth(Magnitude(v), v < 0, BaseOf(c), d.width, f);
  }

  /** Without a '.', there is no precision. */
  lemma PrecisionFlag(s: CStr, p: nat, va: VaList, k: nat)
    ensures var d := ReadDirective(s, p, va, k); !d.f.precision ==> d.prec == 0
  {
    var r := ReadFlags(s, p, NO_FLAGS);
    var d := Directive(r.0, 0, 0, r.1, k);
    FlagsLeavePrecision(s, p, NO_FLAGS);
    WidthLeavesPrecision(s, va, d);
    PrecisionTogether(s, va, ReadWidth(s, va, d));
    LengthLeavesPrecision(s, ReadPrecision(s, va, ReadWidth(s, va, d)));
    hide ReadFlags, ReadWidth, ReadPrecision, ReadLength;
  }

  lemma {:induction false} FlagsLeavePrecision(s: CStr, p: nat, f: Flags)
    ensures ReadFlags(s, p, f).0.precision == f.precision
    decreases |s| - p
  {
    hide IsFlag;
    if IsFlag(At(s, p)) && p < |s| {
      FlagsLeavePrecision(s, p + 1, WithFlag(f, At(s, p)));
    } else {
      FlagsEnd(s, p);
    }
  }

  lemma FlagsEnd(s: CStr, p: nat)
    ensures |s| <= p ==> !IsFlag(At(s, p))
  {
  }

  lemma WidthLeavesPrecision(s: CStr, va: VaList, d: Directive)
    ensures ReadWidth(s, va, d).prec == d.prec && ReadWidth(s, va, d).f.precision == d.f.precision
  {
    hide ReadNat, AsInt;
  }

  lemma PrecisionTogether(s: CStr, va: VaList, d: Directive)
    ensures var e := ReadPrecision(s, va, d);
            if At(s, d.at) == '.' as octet then e.f.precision else e == d
  {
    hide ReadNat, AsInt, IsDigit;
    if At(s, d.at) == '.' as octet {
      var p := d.at + 1;
      if IsDigit(At(s, p)) {
      } else if At(s, p) == '*' as octet {
      } else {
      }
    }
  }

  lemma LengthLeavesPrecision(s: CStr, d: Directive)
    ensures ReadLength(s, d).prec == d.prec && ReadLength(s, d).f.precision == d.f.precision
  {
  }
}
