/** Directives of ipl/common/printf.c are read back as they were written; everything else prints itself. */
module PrintfDirective {
  import opened Octets
  import opened Words
  import opened PrintfNumbers
  import opened PrintfFields
  import opened PrintfFormat

  datatype Length = Plainly | Long | LongLong | Short | Byte | Max | Size

  function LengthText(l: Length): text {
    match l
    case Plainly => []
    case Long => ['l' as octet]
    case LongLong => ['l' as octet, 'l' as octet]
    case Short => ['h' as octet]
    case Byte => ['h' as octet, 'h' as octet]
    case Max => ['j' as octet]
    case Size => ['z' as octet]
  }

  /** A word has 32 bits whether it is an int, a long or a size_t. */
  function WithLength(f: Flags, l: Length): Flags {
    f.(long := f.long || l == Long || l == LongLong || l == Size,
       short := f.short || l == Short || l == Byte, byteWide := f.byteWide || l == Byte,
       longLong := f.longLong || l == LongLong || l == Max)
  }

  function WidthText(w: uint): text { if w == 0 then [] else Digits(w, 10, false) }

  function PrecisionText(p: Option<uint>): text {
    if p.None? then [] else ['.' as octet] + Digits(p.value, 10, false)
  }

  function FlagsOf(fl: text, f: Flags): Flags {
    if fl == [] then f else FlagsOf(fl[1..], WithFlag(f, fl[0]))
  }

  predicate IsConversion(c: octet) {
    IsInteger(c) || c == 'c' as octet || c == 's' as octet || c == 'p' as octet || c == '%' as octet
  }

  /** `part` stands at position p of s. */
  predicate Has(s: text, p: nat, part: text) { p + |part| <= |s| && s[p..p + |part|] == part }

  lemma {:induction false} FlagsReadBack(s: CStr, p: nat, fl: text, f: Flags)
    requires Has(s, p, fl) && (forall c | c in fl :: IsFlag(c)) && !IsFlag(At(s, p + |fl|))
    ensures ReadFlags(s, p, f) == (FlagsOf(fl, f), p + |fl|)
    decreases |fl|
  {
    hide WithFlag, IsFlag;
    if fl == [] {
    } else {
      assert s[p] == s[p..p + |fl|][0] == fl[0];
      assert s[p + 1..p + 1 + |fl[1..]|] == s[p..p + |fl|][1..];
      FlagsReadBack(s, p + 1, fl[1..], WithFlag(f, fl[0]));
    }
  }

  lemma {:induction false} ValueGrows(d: text, i: nat)
    requires i <= |d|
    ensures Value(d[..i], 10) <= Value(d, 10)
    decreases |d| - i
  {
    if i < |d| {
      ValueGrows(d, i + 1);
      assert d[..i + 1][..i] == d[..i];
    } else {
      assert d[..i] == d;
    }
  }

  lemma ValueNext(d: text, i: nat)
    requires i < |d| && IsDigit(d[i]) && Value(d[..i], 10) < 0x1_0000_0000 && Value(d[..i + 1], 10) < 0x1_0000_0000
    ensures WithDigit(Value(d[..i], 10), d[i]) == Value(d[..i + 1], 10)
  {
    assert d[..i + 1][..i] == d[..i] && d[..i + 1][i] == d[i];
  }

  lemma {:induction false} NatReadBack(s: CStr, p: nat, d: text, i: nat)
    requires Has(s, p, d) && i <= |d| && (forall c | c in d :: IsDigit(c)) && !IsDigit(At(s, p + |d|))
    requires Value(d, 10) < 0x1_0000_0000
    ensures Value(d[..i], 10) < 0x1_0000_0000
    ensures ReadNat(s, p + i, Value(d[..i], 10)) == (Value(d, 10), p + |d|)
    decreases |d| - i
  {
    ValueGrows(d, i);
    if i == |d| {
      assert d[..i] == d;
    } else {
      assert s[p + i] == s[p..p + |d|][i] == d[i];
      ValueGrows(d, i + 1);
      ValueNext(d, i);
      hide Value, WithDigit;
      NatReadBack(s, p, d, i + 1);
    }
  }

  lemma {:induction false} DecimalDigits(v: nat)
    ensures forall c | c in Digits(v, 10, false) :: IsDigit(c)
    ensures v != 0 ==> Digits(v, 10, false)[0] != '0' as octet
    decreases v
  {
    if 10 <= v {
      DecimalDigits(v / 10);
    }
  }

  lemma DecimalReadBack(s: CStr, p: nat, v: uint)
    requires Has(s, p, Digits(v, 10, false)) && !IsDigit(At(s, p + |Digits(v, 10, false)|))
    ensures ReadNat(s, p, 0) == (v, p + |Digits(v, 10, false)|)
    ensures IsDigit(At(s, p)) && (v != 0 ==> At(s, p) != '0' as octet)
  {
    var d := Digits(v, 10, false);
    DecimalDigits(v);
    DigitsReadBack(v, 10, false);
    NatReadBack(s, p, d, 0);
    assert d[..0] == [];
    assert s[p] == s[p..p + |d|][0] == d[0];
  }

  lemma WidthReadBack(s: CStr, va: VaList, d: Directive, w: uint)
    requires d.width == 0 && Has(s, d.at, WidthText(w))
    requires !IsDigit(At(s, d.at + |WidthText(w)|)) && At(s, d.at + |WidthText(w)|) != '*' as octet
    ensures ReadWidth(s, va, d) == d.(width := w, at := d.at + |WidthText(w)|)
    ensures w != 0 ==> IsDigit(At(s, d.at)) && At(s, d.at) != '0' as octet
  {
    hide Digits, ReadNat;
    if w != 0 {
      DecimalReadBack(s, d.at, w);
    }
  }

  lemma PrecisionReadBack(s: CStr, va: VaList, d: Directive, p: Option<uint>)
    requires d.prec == 0 && !d.f.precision && Has(s, d.at, PrecisionText(p))
    requires var c := At(s, d.at + |PrecisionText(p)|); !IsDigit(c) && c != '.' as octet
    ensures ReadPrecision(s, va, d)
            == Directive(d.f.(precision := p.Some?), d.width, if p.None? then 0 else p.value,
                         d.at + |PrecisionText(p)|, d.k)
    ensures p.Some? ==> At(s, d.at) == '.' as octet
  {
    hide Digits, ReadNat, IsDigit, Has;
    if p.Some? {
      var n := Digits(p.value, 10, false);
      HasParts(s, d.at, ['.' as octet], n);
      DecimalReadBack(s, d.at + 1, p.value);
    } else {
      PrecisionAsIs(d.f);
    }
  }

  lemma HasParts(s: CStr, p: nat, a: text, b: text)
    requires Has(s, p, a + b)
    ensures Has(s, p, a) && Has(s, p + |a|, b) && (a != [] ==> At(s, p) == a[0])
  {
    var whole := s[p..p + |a + b|];
    assert s[p..p + |a|] == whole[..|a|] && s[p + |a|..p + |a| + |b|] == whole[|a|..];
    if a != [] {
      assert s[p] == whole[0];
    }
  }

  lemma LengthReadBack(s: CStr, d: Directive, l: Length)
    requires Has(s, d.at, LengthText(l)) && IsConversion(At(s, d.at + |LengthText(l)|))
    ensures ReadLength(s, d) == d.(f := WithLength(d.f, l), at := d.at + |LengthText(l)|)
    ensures var c := At(s, d.at);
            !IsDigit(c) && !IsFlag(c) && c != '.' as octet && c != '*' as octet
  {
    if l != Plainly {
      assert s[d.at] == s[d.at..d.at + |LengthText(l)|][0];
      if |LengthText(l)| == 2 {
        assert s[d.at + 1] == s[d.at..d.at + |LengthText(l)|][1];
      }
    }
  }

  lemma {:induction false} FlagsKeep(fl: text, f: Flags)
    ensures FlagsOf(fl, f).precision == f.precision
  {
    hide WithFlag;
    if fl != [] {
      FlagKeeps(f, fl[0]);
      FlagsKeep(fl[1..], WithFlag(f, fl[0]));
    }
  }

  lemma FlagKeeps(f: Flags, c: octet)
    ensures WithFlag(f, c).precision == f.precision
  {
  }

  /** Updates of different flags commute, and an update with the old value changes nothing. */
  lemma PrecisionAsIs(f: Flags)
    ensures f.(precision := f.precision) == f
  {
  }

  /** Nothing that may follow the width belongs to it. */
  predicate EndsWidth(c: octet) { !IsDigit(c) && !IsFlag(c) && c != '*' as octet }

  lemma PrecisionEndsWidth(s: CStr, va: VaList, d: Directive, p: Option<uint>)
    requires d.prec == 0 && !d.f.precision && Has(s, d.at, PrecisionText(p))
    requires var c := At(s, d.at + |PrecisionText(p)|); EndsWidth(c) && c != '.' as octet
    ensures EndsWidth(At(s, d.at))
  {
    PrecisionReadBack(s, va, d, p);
    hide Digits;
  }

  lemma WidthEndsFlags(s: CStr, va: VaList, d: Directive, w: uint)
    requires d.width == 0 && Has(s, d.at, WidthText(w)) && EndsWidth(At(s, d.at + |WidthText(w)|))
    ensures !IsFlag(At(s, d.at))
  {
    WidthReadBack(s, va, d, w);
    hide Digits;
  }

  /** Where the parts of a directive stand and that the directive ends in a conversion character. */
  ghost predicate Written(s: CStr, p: nat, fl: text, w: uint, prec: Option<uint>, l: Length) {
    var p1 := p + |fl|;
    var p2 := p1 + |WidthText(w)|;
    var p3 := p2 + |PrecisionText(prec)|;
    && (forall c | c in fl :: IsFlag(c))
    && Has(s, p, fl) && Has(s, p1, WidthText(w)) && Has(s, p2, PrecisionText(prec))
    && Has(s, p3, LengthText(l)) && IsConversion(At(s, p3 + |LengthText(l)|))
  }

  /** Flags, width, precision and length come back from a directive written with them. */
  lemma DirectiveReadBack(s: CStr, p: nat, va: VaList, k: nat, fl: text, w: uint, prec: Option<uint>, l: Length)
    requires Written(s, p, fl, w, prec, l)
    ensures ReadDirective(s, p, va, k)
            == Directive(WithLength(FlagsOf(fl, NO_FLAGS).(precision := prec.Some?), l), w,
                         if prec.None? then 0 else prec.value,
                         p + |fl| + |WidthText(w)| + |PrecisionText(prec)| + |LengthText(l)|, k)
  {
    hide WidthText, PrecisionText, LengthText, ReadFlags, ReadWidth, ReadPrecision, ReadLength, IsConversion, Has,
      FlagsOf, WithLength, IsFlag, IsDigit;
    var f := FlagsOf(fl, NO_FLAGS);
    var p1 := p + |fl|;
    var p2 := p1 + |WidthText(w)|;
    var p3 := p2 + |PrecisionText(prec)|;
    var d1 := Directive(f, 0, 0, p1, k);
    var d2 := Directive(f, w, 0, p2, k);
    var d3 := Directive(f.(precision := prec.Some?), w, if prec.None? then 0 else prec.value, p3, k);
    LengthReadBack(s, d3, l);
    FlagsKeep(fl, NO_FLAGS);
    PrecisionEndsWidth(s, va, d2, prec);
    PrecisionReadBack(s, va, d2, prec);
    WidthEndsFlags(s, va, d1, w);
    WidthReadBack(s, va, d1, w);
    FlagsReadBack(s, p, fl, NO_FLAGS);
  }

  // ----- Whole formats

  /** A format without directives prints itself. */
  lemma {:induction false} PlainText(s: CStr, p: nat, va: VaList, k: nat)
    requires p <= |s| && '%' as octet !in s[p..]
    ensures Closed(s, p, va, k) && Formatted(s, p, va, k) == s[p..]
    decreases |s| - p
  {
    hide ReadDirective, Converted;
    if p < |s| {
      assert s[p] == s[p..][0];
      assert s[p..] == [s[p]] + s[p + 1..];
      PlainText(s, p + 1, va, k);
    }
  }

  /** A format that is one integer directive without precision prints the integer. */
  lemma OneInteger(s: CStr, va: VaList, fl: text, w: uint, l: Length)
    requires |s| > 0 && s[0] == '%' as octet && Written(s, 1, fl, w, None, l)
    requires |s| == 2 + |fl| + |WidthText(w)| + |LengthText(l)| && IsInteger(s[|s| - 1])
    requires !WithLength(FlagsOf(fl, NO_FLAGS), l).longLong
    ensures Closed(s, 0, va, 0)
    ensures Formatted(s, 0, va, 0) == IntegerText(s[|s| - 1], va.asWord(0),
                                                  Directive(WithLength(FlagsOf(fl, NO_FLAGS), l), w, 0, |s| - 1, 0))
  {
    var c, d := s[|s| - 1], ReadDirective(s, 1, va, 0);
    DirectiveReadBack(s, 1, va, 0, fl, w, None, l);
    FlagsKeep(fl, NO_FLAGS);
    PrecisionAsIs(FlagsOf(fl, NO_FLAGS));
    hide ReadDirective, Written, WithLength, FlagsOf, WidthText, LengthText, IntegerText, IsInteger, Formatted, Closed,
      Converted;
    assert d == Directive(WithLength(FlagsOf(fl, NO_FLAGS), l), w, 0, |s| - 1, 0);
    OnlyDirective(s, va);
    IntegerConverted(c, d, va);
  }

  lemma OnlyDirective(s: CStr, va: VaList)
    requires |s| > 0 && s[0] == '%' as octet && ReadDirective(s, 1, va, 0).at == |s| - 1
    ensures Closed(s, 0, va, 0)
    ensures Formatted(s, 0, va, 0) == Converted(s[|s| - 1], ReadDirective(s, 1, va, 0), va).0
  {
    hide ReadDirective, Converted;
    var c := Converted(s[|s| - 1], ReadDirective(s, 1, va, 0), va);
    assert Formatted(s, |s|, va, c.1) == [];
    assert c.0 + [] == c.0;
  }

  lemma IntegerConverted(c: octet, d: Directive, va: VaList)
    requires IsInteger(c) && !d.f.longLong
    ensures Converted(c, d, va) == (IntegerText(c, va.asWord(d.k), d), d.k + 1)
  {
    hide IntegerText;
  }

  /** Printing a string: as much of it as the precision allows, with spaces up to the width on one side. */
  lemma StringFormat(s: CStr, va: VaList, fl: text, w: uint, prec: Option<uint>)
    requires |s| > 0 && s[0] == '%' as octet && Written(s, 1, fl, w, prec, Plainly)
    requires |s| == 2 + |fl| + |WidthText(w)| + |PrecisionText(prec)| && s[|s| - 1] == 's' as octet
    ensures Closed(s, 0, va, 0)
    ensures var whole := va.asString(0);
            var part := if prec.None? || |whole| <= prec.value then whole else whole[..prec.value];
            var blanks := Many(w - |part|, ' ' as octet);
            Formatted(s, 0, va, 0) == if FlagsOf(fl, NO_FLAGS).left then part + blanks else blanks + part
  {
    hide Written, FlagsOf, WidthText, PrecisionText, Formatted, Closed, TextField, Cut, Many, StringDirective;
    OneString(s, va, fl, w, prec);
    StringPart(FlagsOf(fl, NO_FLAGS), prec, w, va.asString(0), |s| - 1);
  }

  /** The directive of a string, as it is parsed. */
  function StringDirective(f: Flags, prec: Option<uint>, w: uint, at: nat): Directive {
    Directive(WithLength(f.(precision := prec.Some?), Plainly), w, if prec.None? then 0 else prec.value, at, 0)
  }

  lemma OneString(s: CStr, va: VaList, fl: text, w: uint, prec: Option<uint>)
    requires |s| > 0 && s[0] == '%' as octet && Written(s, 1, fl, w, prec, Plainly)
    requires |s| == 2 + |fl| + |WidthText(w)| + |PrecisionText(prec)| && s[|s| - 1] == 's' as octet
    ensures Closed(s, 0, va, 0)
    ensures var d := StringDirective(FlagsOf(fl, NO_FLAGS), prec, w, |s| - 1);
            Formatted(s, 0, va, 0) == TextField(Cut(va.asString(0), d), d.width, d.f.left)
  {
    DirectiveReadBack(s, 1, va, 0, fl, w, prec, Plainly);
    hide ReadDirective, Written, FlagsOf, WidthText, PrecisionText, Formatted, Closed, WithLength, TextField, Cut,
      Converted;
    OnlyDirective(s, va);
    StringConverted(ReadDirective(s, 1, va, 0), va);
  }

  lemma StringConverted(d: Directive, va: VaList)
    ensures Converted('s' as octet, d, va) == (TextField(Cut(va.asString(d.k), d), d.width, d.f.left), d.k + 1)
  {
    hide TextField, Cut;
  }

  lemma StringPart(f: Flags, prec: Option<uint>, w: uint, whole: CStr, at: nat)
    ensures var d := StringDirective(f, prec, w, at);
            var part := if prec.None? || |whole| <= prec.value then whole else whole[..prec.value];
            var blanks := Many(w - |part|, ' ' as octet);
            TextField(Cut(whole, d), d.width, d.f.left) == if f.left then part + blanks else blanks + part
  {
    hide Many;
    LengthKeeps(f.(precision := prec.Some?), Plainly);
    hide WithLength;
  }

  /** Printing an integer without precision and without '#': the output is a field of the width asked for, and the
      number in it is the argument, exactly as far as the conversion buffer allows. */
  lemma IntegerFormat(s: CStr, va: VaList, fl: text, w: uint, l: Length)
    requires |s| > 0 && s[0] == '%' as octet && Written(s, 1, fl, w, None, l)
    requires |s| == 2 + |fl| + |WidthText(w)| + |LengthText(l)| && IsInteger(s[|s| - 1])
    requires !WithLength(FlagsOf(fl, NO_FLAGS), l).longLong && !FlagsOf(fl, NO_FLAGS).hash
    ensures Closed(s, 0, va, 0)
    ensures var t := Formatted(s, 0, va, 0); var c := s[|s| - 1]; var f := WithLength(FlagsOf(fl, NO_FLAGS), l);
            var v := Argument(c, va.asWord(0), f);
            var natural := |Natural(Magnitude(v), v < 0, BaseOf(c), IntegerFlags(c, f))|;
            (ReadNumber(t, BaseOf(c)) == v <==> !(Overfull(w, f) && v < 0))
            && (|t| == (if natural < w then w else natural) <==> !Overfull(w, f))
  {
    OneInteger(s, va, fl, w, l);
    FlagsKeep(fl, NO_FLAGS);
    LengthKeeps(FlagsOf(fl, NO_FLAGS), l);
    hide Formatted, Closed, Written, WithLength, FlagsOf, WidthText, LengthText, IntegerText, ReadNumber, Argument,
      IsInteger, Natural, IntegerFlags;
    IntegerReadBack(s[|s| - 1], va.asWord(0), Directive(WithLength(FlagsOf(fl, NO_FLAGS), l), w, 0, |s| - 1, 0));
  }

  lemma LengthKeeps(f: Flags, l: Length)
    ensures var g := WithLength(f, l);
            g.hash == f.hash && g.precision == f.precision && g.zeropad == f.zeropad && g.left == f.left
  {
  }
}
