/** The bounded printing of ipl/common/printf.c into a buffer. */
module Printf {
  import opened Bytes
  import opened Octets
  import opened PrintfNumbers
  import opened PrintfFormat
  import opened Words

  /** A buffer with a text stored from position idx on, except what does not fit below maxlen. */
  function Put(s: text, idx: nat, maxlen: nat, t: text): (r: text)
    ensures |r| == |s|
  {
    seq(|s|, i requires 0 <= i < |s| => if idx <= i < idx + |t| && i < maxlen then t[i - idx] else s[i])
  }

  lemma PutNothing(s: text, idx: nat, maxlen: nat)
    ensures Put(s, idx, maxlen, []) == s
  {
  }

  lemma PutTwice(s: text, idx: nat, maxlen: nat, a: text, b: text)
    ensures Put(Put(s, idx, maxlen, a), idx + |a|, maxlen, b) == Put(s, idx, maxlen, a + b)
  {
  }

  /** What a whole call leaves in a buffer of a given size. */
  function Shown(t: text, maxlen: nat): (s: text)
    requires 0 < maxlen
    ensures |s| <= maxlen
  {
    (if |t| < maxlen then t else t[..maxlen - 1]) + [0]
  }

  lemma PutTerminated(s: text, maxlen: nat, t: text)
    requires 0 < maxlen <= |s|
    ensures Put(Put(s, 0, maxlen, t), if |t| < maxlen then |t| else maxlen - 1, maxlen, [0])
            == Splice(s, 0, Shown(t, maxlen))
  {
  }

  // ----- Characters and runs of characters

  /** _out_buffer. */
  method Out(character: octet, buffer: array<octet>, idx: nat, maxlen: nat)
    requires maxlen <= buffer.Length
    modifies buffer
    ensures buffer[..] == Put(old(buffer[..]), idx, maxlen, [character])
  {
    if idx < maxlen {
      buffer[idx] := character;
    }
  }

  method OutMany(c: octet, n: int, buffer: array<octet>, idx: nat, maxlen: nat) returns (end: nat)
    requires maxlen <= buffer.Length
    modifies buffer
    ensures end == idx + |Many(n, c)| && buffer[..] == Put(old(buffer[..]), idx, maxlen, Many(n, c))
  {
    hide Put;
    ghost var was := buffer[..];
    end := idx;
    var i := 0;
    PutNothing(was, idx, maxlen);
    while i < n
      invariant 0 <= i && (i <= n || i == 0) && end == idx + i && buffer[..] == Put(was, idx, maxlen, Many(i, c))
    {
      Out(c, buffer, end, maxlen);
      PutTwice(was, idx, maxlen, Many(i, c), [c]);
      assert Many(i, c) + [c] == Many(i + 1, c);
      end := end + 1;
      i := i + 1;
    }
    assert Many(i, c) == Many(n, c);
  }

  method OutText(t: text, buffer: array<octet>, idx: nat, maxlen: nat) returns (end: nat)
    requires maxlen <= buffer.Length
    modifies buffer
    ensures end == idx + |t| && buffer[..] == Put(old(buffer[..]), idx, maxlen, t)
  {
    hide Put;
    ghost var was := buffer[..];
    end := idx;
    PutNothing(was, idx, maxlen);
    for i := 0 to |t|
      invariant end == idx + i && buffer[..] == Put(was, idx, maxlen, t[..i])
    {
      Out(t[i], buffer, end, maxlen);
      PutTwice(was, idx, maxlen, t[..i], [t[i]]);
      assert t[..i] + [t[i]] == t[..i + 1];
      end := end + 1;
    }
    assert t[..|t|] == t;
  }

  /** The conversion buffer from its end to its start. */
  method OutBackwards(buf: array<octet>, len: nat, buffer: array<octet>, idx: nat, maxlen: nat) returns (end: nat)
    requires maxlen <= buffer.Length && len <= buf.Length && buf != buffer
    modifies buffer
    ensures end == idx + len && buffer[..] == Put(old(buffer[..]), idx, maxlen, Reverse(buf[..len]))
  {
    hide Put, Reverse;
    ghost var was, rev := buffer[..], Reverse(buf[..len]);
    end := idx;
    PutNothing(was, idx, maxlen);
    var left := len;
    while 0 < left
      invariant 0 <= left <= len && end == idx + (len - left)
      invariant buffer[..] == Put(was, idx, maxlen, rev[..len - left])
    {
      left := left - 1;
      Out(buf[left], buffer, end, maxlen);
      ReverseAt(buf[..len], len - left - 1);
      PutTwice(was, idx, maxlen, rev[..len - left - 1], [buf[left]]);
      assert rev[..len - left - 1] + [buf[left]] == rev[..len - left];
      end := end + 1;
    }
    assert rev[..len] == rev;
  }

  lemma {:induction false} ReverseAt(s: text, k: nat)
    requires k < |s|
    ensures Reverse(s)[k] == s[|s| - 1 - k]
  {
    if k < |s| - 1 {
      ReverseAt(s[1..], k);
    }
  }

  /** _out_rev. */
  method OutRev(buffer: array<octet>, idx: nat, maxlen: nat, buf: array<octet>, len: nat, width: nat, f: Flags)
      returns (end: nat)
    requires maxlen <= buffer.Length && len <= buf.Length && buf != buffer
    modifies buffer
    ensures var t := Field(Reverse(buf[..len]), width, f);
            end == idx + |t| && buffer[..] == Put(old(buffer[..]), idx, maxlen, t)
  {
    hide Put, Reverse, Many;
    ghost var was, t, blanks := buffer[..], Reverse(buf[..len]), Many(width - len, ' ' as octet);
    end := idx;
    if !f.left && !f.zeropad {
      end := OutMany(' ' as octet, width - len, buffer, end, maxlen);
      end := OutBackwards(buf, len, buffer, end, maxlen);
      PutTwice(was, idx, maxlen, blanks, t);
    } else {
      end := OutBackwards(buf, len, buffer, end, maxlen);
      if f.left {
        end := OutMany(' ' as octet, width - len, buffer, end, maxlen);
        PutTwice(was, idx, maxlen, t, blanks);
      }
    }
  }

  // ----- Integers

  /** Zeros up to a length, as far as the conversion buffer has room. */
  method PadZeros(buf: array<octet>, n: nat, wanted: nat) returns (len: nat)
    requires buf.Length == NTOA_BUFFER_SIZE && n <= NTOA_BUFFER_SIZE
    modifies buf
    ensures len <= NTOA_BUFFER_SIZE && buf[..len] == PadTo(old(buf[..n]), wanted)
  {
    ghost var was := buf[..n];
    len := n;
    while len < wanted && len < NTOA_BUFFER_SIZE
      invariant n <= len <= NTOA_BUFFER_SIZE && (len <= wanted || len == n)
      invariant buf[..len] == was + Many(len - n, '0' as octet)
    {
      buf[len] := '0' as octet;
      len := len + 1;
    }
  }

  method PutDigit(buf: array<octet>, n: nat, c: octet) returns (len: nat)
    requires buf.Length == NTOA_BUFFER_SIZE && n <= NTOA_BUFFER_SIZE
    modifies buf
    ensures len <= NTOA_BUFFER_SIZE && buf[..len] == Append(old(buf[..n]), c)
  {
    len := n;
    if len < NTOA_BUFFER_SIZE {
      buf[len] := c;
      len := len + 1;
    }
  }

  /** The leading zeros of _ntoa_format. */
  method Fill(buf: array<octet>, n: nat, negative: bool, prec: nat, width: nat, f: Flags) returns (len: nat, w: nat)
    requires buf.Length == NTOA_BUFFER_SIZE && n <= NTOA_BUFFER_SIZE
    modifies buf
    ensures len <= NTOA_BUFFER_SIZE && w == WidthLeft(width, negative, f)
    ensures buf[..len] == Filled(old(buf[..n]), negative, prec, width, f)
  {
    hide PadTo;
    len, w := n, width;
    if !f.left {
      if width != 0 && f.zeropad && (negative || f.plus || f.space) {
        w := w - 1;
      }
      len := PadZeros(buf, len, prec);
      if f.zeropad {
        len := PadZeros(buf, len, w);
      }
    }
  }

  /** The prefix that '#' asks for. */
  method Prefix(buf: array<octet>, n: nat, base: nat, prec: nat, width: nat, f: Flags) returns (len: nat)
    requires buf.Length == NTOA_BUFFER_SIZE && n <= NTOA_BUFFER_SIZE
    modifies buf
    ensures len <= NTOA_BUFFER_SIZE && buf[..len] == Prefixed(old(buf[..n]), base, prec, width, f)
  {
    hide Append;
    len := n;
    if f.hash {
      if !f.precision && len != 0 && (len == prec || len == width) {
        len := len - 1;
        if len != 0 && base == 16 {
          len := len - 1;
        }
      }
      assert buf[..len] == Unfilled(buf[..n], base, prec, width, f);
      if base == 16 && !f.uppercase {
        len := PutDigit(buf, len, 'x' as octet);
      } else if base == 16 && f.uppercase {
        len := PutDigit(buf, len, 'X' as octet);
      } else if base == 2 {
        len := PutDigit(buf, len, 'b' as octet);
      }
      len := PutDigit(buf, len, '0' as octet);
    }
  }

  method Sign(buf: array<octet>, n: nat, negative: bool, f: Flags) returns (len: nat)
    requires buf.Length == NTOA_BUFFER_SIZE && n <= NTOA_BUFFER_SIZE
    modifies buf
    ensures len <= NTOA_BUFFER_SIZE && buf[..len] == Signed(old(buf[..n]), negative, f)
  {
    len := n;
    if len < NTOA_BUFFER_SIZE {
      if negative {
        buf[len] := '-' as octet;
        len := len + 1;
      } else if f.plus {
        buf[len] := '+' as octet;
        len := len + 1;
      } else if f.space {
        buf[len] := ' ' as octet;
        len := len + 1;
      }
    }
  }

  /** _ntoa_format. */
  method NtoaFormat(buffer: array<octet>, idx: nat, maxlen: nat, buf: array<octet>, n: nat, negative: bool,
                    base: nat, prec: nat, width: nat, f: Flags)
      returns (end: nat)
    requires maxlen <= buffer.Length && buf.Length == NTOA_BUFFER_SIZE && n <= NTOA_BUFFER_SIZE && buf != buffer
    modifies buffer, buf
    ensures end == idx + |Finished(old(buf[..n]), negative, base, prec, width, f)|
    ensures buffer[..] == Put(old(buffer[..]), idx, maxlen, Finished(old(buf[..n]), negative, base, prec, width, f))
  {
    hide Put, Reverse, Field, Filled, Prefixed, Signed, WidthLeft;
    var len, w := Fill(buf, n, negative, prec, width, f);
    len := Prefix(buf, len, base, prec, w, f);
    len := Sign(buf, len, negative, f);
    end := OutRev(buffer, idx, maxlen, buf, len, w, f);
  }

  lemma ReverseShort(c: octet)
    ensures Reverse([]) == [] && Reverse([c]) == [c]
  {
  }

  lemma DigitsSplit(v: nat, base: nat, upper: bool)
    requires Base(base)
    ensures Digits(v, base, upper)
            == (if v / base == 0 then [] else Digits(v / base, base, upper)) + [DigitChar(v % base, upper)]
  {
    hide DigitChar;
    assert v < base ==> v / base == 0 && v % base == v;
    assert base <= v ==> v / base != 0;
  }

  // The number without its last digit, and that digit.
  function Rest(v: nat, base: nat): nat requires Base(base) { v / base }
  function LastDigit(v: nat, base: nat, upper: bool): octet requires Base(base) { DigitChar(v % base, upper) }

  /** One digit moves from the number to the buffer. */
  lemma DigitMoves(v: nat, base: nat, upper: bool, digits: text, before: text, after: text)
    requires Base(base) && digits == Digits(v, base, upper) + Reverse(before) && |digits| <= NTOA_BUFFER_SIZE
    requires after == before + [LastDigit(v, base, upper)]
    ensures Rest(v, base) == 0 ==> digits == Reverse(after)
    ensures Rest(v, base) != 0 ==> Rest(v, base) < v && |after| < NTOA_BUFFER_SIZE
                                   && digits == Digits(Rest(v, base), base, upper) + Reverse(after)
  {
    hide DigitChar, Reverse, Digits;
    var c := LastDigit(v, base, upper);
    ReverseJoins(before, [c]);
    ReverseShort(c);
    DigitsSplit(v, base, upper);
    if Rest(v, base) != 0 {
      Quotient(v, base);
    }
  }

  lemma Quotient(v: nat, base: nat)
    requires Base(base) && v / base != 0
    ensures v / base < v
  {
    if base == 2 {} else if base == 8 {} else if base == 10 {} else {}
  }

  /** The digits of a number into the conversion buffer, last digit first. */
  method PutDigits(buf: array<octet>, value: nat, base: nat, upper: bool) returns (len: nat)
    requires buf.Length == NTOA_BUFFER_SIZE && Base(base) && value < 0x1_0000_0000
    modifies buf
    ensures len <= NTOA_BUFFER_SIZE && buf[..len] == Reverse(Digits(value, base, upper))
  {
    hide Rest, LastDigit, Reverse, Digits;
    WordDigits(value, base, upper);
    ghost var digits := Digits(value, base, upper);
    var v: nat, again := value, true;
    len := 0;
    ReverseShort(0);
    assert buf[..0] == [];
    while again
      invariant 0 <= len <= NTOA_BUFFER_SIZE && (again ==> len < NTOA_BUFFER_SIZE && (v != 0 || len == 0))
      invariant again ==> digits == Digits(v, base, upper) + Reverse(buf[..len])
      invariant !again ==> digits == Reverse(buf[..len])
      decreases again, v
    {
      var c := LastDigit(v, base, upper);
      ghost var before := buf[..len];
      buf[len] := c;
      len := len + 1;
      assert buf[..len] == before + [c];
      DigitMoves(v, base, upper, digits, before, buf[..len]);
      v := Rest(v, base);
      again := v != 0 && len < NTOA_BUFFER_SIZE;
    }
    ReverseTwice(buf[..len]);
  }

  /** The digits, if there are any: a zero with a precision has none. */
  method LoadDigits(buf: array<octet>, value: nat, base: nat, f: Flags) returns (len: nat)
    requires buf.Length == NTOA_BUFFER_SIZE && Base(base) && value < 0x1_0000_0000
    modifies buf
    ensures len <= NTOA_BUFFER_SIZE
    ensures buf[..len] == Reverse(DigitsShown(value, base, f))
  {
    hide Reverse, Digits;
    len := 0;
    ReverseShort(0);
    if !f.precision || value != 0 {
      len := PutDigits(buf, value, base, f.uppercase);
    }
  }

  lemma SameDigits(value: nat, base: nat, f: Flags, g: Flags)
    requires Base(base) && value < 0x1_0000_0000 && f.precision == g.precision && f.uppercase == g.uppercase
    ensures DigitsShown(value, base, f) == DigitsShown(value, base, g)
  {
    hide Digits;
  }

  /** _ntoa_long. */
  method NtoaLong(buffer: array<octet>, idx: nat, maxlen: nat, value: nat, negative: bool, base: nat, prec: nat,
                  width: nat, flags: Flags)
      returns (end: nat)
    requires maxlen <= buffer.Length && Base(base) && value < 0x1_0000_0000
    modifies buffer
    ensures end == idx + |NumberText(value, negative, base, prec, width, flags)|
    ensures buffer[..] == Put(old(buffer[..]), idx, maxlen, NumberText(value, negative, base, prec, width, flags))
  {
    hide Put, Reverse, Finished, DigitsShown;
    var buf, f := new octet[NTOA_BUFFER_SIZE], flags.(hash := flags.hash && value != 0);
    SameDigits(value, base, flags, f);
    var len := LoadDigits(buf, value, base, f);
    end := NtoaFormat(buffer, idx, maxlen, buf, len, negative, base, prec, width, f);
  }

  // ----- Directives

  method ScanFlags(s: CStr, p: nat) returns (f: Flags, at: nat)
    requires p <= |s|
    ensures (f, at) == ReadFlags(s, p, NO_FLAGS)
  {
    hide WithFlag;
    f, at := NO_FLAGS, p;
    var n := true;
    while n
      invariant p <= at <= |s| && ReadFlags(s, p, NO_FLAGS) == if n then ReadFlags(s, at, f) else (f, at)
      decreases n, |s| - at
    {
      if IsFlag(At(s, at)) {
        f := WithFlag(f, At(s, at));
        at := at + 1;
      } else {
        n := false;
      }
    }
  }

  /** _atoi. */
  method Atoi(s: CStr, p: nat) returns (n: uint, at: nat)
    requires p <= |s|
    ensures (n, at) == ReadNat(s, p, 0)
  {
    hide WithDigit;
    n, at := 0, p;
    while IsDigit(At(s, at))
      invariant p <= at <= |s| && ReadNat(s, p, 0) == ReadNat(s, at, n)
      decreases |s| - at
    {
      n := WithDigit(n, At(s, at));
      at := at + 1;
    }
  }

  method ScanWidth(s: CStr, va: VaList, d: Directive) returns (e: Directive)
    requires d.at <= |s| && d.width == 0
    ensures e == ReadWidth(s, va, d)
  {
    hide ReadNat;
    e := d;
    if IsDigit(At(s, d.at)) {
      var n, at := Atoi(s, d.at);
      e := d.(width := n, at := at);
    } else if At(s, d.at) == '*' as octet {
      var w := AsInt(va.asWord(d.k));
      if w < 0 {
        e := Directive(d.f.(left := true), -w, d.prec, d.at + 1, d.k + 1);
      } else {
        e := Directive(d.f, w, d.prec, d.at + 1, d.k + 1);
      }
    }
  }

  method ScanPrecision(s: CStr, va: VaList, d: Directive) returns (e: Directive)
    requires d.at <= |s|
    ensures e == ReadPrecision(s, va, d)
  {
    hide ReadNat;
    e := d;
    if At(s, d.at) == '.' as octet {
      e := Directive(d.f.(precision := true), d.width, d.prec, d.at + 1, d.k);
      if IsDigit(At(s, e.at)) {
        var n, at := Atoi(s, e.at);
        e := Directive(e.f, d.width, n, at, d.k);
      } else if At(s, e.at) == '*' as octet {
        var n := AsInt(va.asWord(d.k));
        e := Directive(e.f, d.width, if 0 < n then n else 0, e.at + 1, d.k + 1);
      }
    }
  }

  method ScanDirective(s: CStr, p: nat, va: VaList, k: nat) returns (d: Directive)
    requires p <= |s|
    ensures d == ReadDirective(s, p, va, k)
  {
    hide ReadFlags, ReadWidth, ReadPrecision, ReadLength;
    var f, at := ScanFlags(s, p);
    d := Directive(f, 0, 0, at, k);
    d := ScanWidth(s, va, d);
    d := ScanPrecision(s, va, d);
    d := ReadLength(s, d);
  }

  /** A character or a string between its spaces. */
  method OutField(t: text, width: nat, left: bool, buffer: array<octet>, idx: nat, maxlen: nat) returns (end: nat)
    requires maxlen <= buffer.Length
    modifies buffer
    ensures end == idx + |TextField(t, width, left)|
    ensures buffer[..] == Put(old(buffer[..]), idx, maxlen, TextField(t, width, left))
  {
    hide Put, Many;
    ghost var was, blanks := buffer[..], Many(width - |t|, ' ' as octet);
    end := idx;
    if !left {
      end := OutMany(' ' as octet, width - |t|, buffer, end, maxlen);
      end := OutText(t, buffer, end, maxlen);
      PutTwice(was, idx, maxlen, blanks, t);
    } else {
      end := OutText(t, buffer, end, maxlen);
      end := OutMany(' ' as octet, width - |t|, buffer, end, maxlen);
      PutTwice(was, idx, maxlen, t, blanks);
    }
  }

  /** _strnlen_s. */
  method StrnLen(s: CStr, max: nat) returns (n: nat)
    ensures n == if |s| <= max then |s| else max
  {
    n := 0;
    while At(s, n) != 0 && n < max
      invariant n <= |s| && n <= max
      decreases max - n
    {
      n := n + 1;
    }
  }

  /** The string conversion: the string ends at its zero or at the precision. */
  method OutString(s: CStr, d: Directive, buffer: array<octet>, idx: nat, maxlen: nat) returns (end: nat)
    requires maxlen <= buffer.Length && (!d.f.precision ==> d.prec == 0)
    modifies buffer
    ensures end == idx + |TextField(Cut(s, d), d.width, d.f.left)|
    ensures buffer[..] == Put(old(buffer[..]), idx, maxlen, TextField(Cut(s, d), d.width, d.f.left))
  {
    hide Put, Many;
    ghost var was, part := buffer[..], Cut(s, d);
    var l := StrnLen(s, if d.prec != 0 then d.prec else 0xFFFF_FFFF);
    if d.f.precision && d.prec < l {
      l := d.prec;
    }
    ghost var blanks := Many(d.width - l, ' ' as octet);
    end := idx;
    PutNothing(was, idx, maxlen);
    if !d.f.left {
      end := OutMany(' ' as octet, d.width - l, buffer, end, maxlen);
    }
    ghost var before := if d.f.left then [] else blanks;
    var p, precision := 0, d.prec;
    assert before + part[..0] == before;
    while At(s, p) != 0 && (!d.f.precision || precision != 0)
      invariant p <= |part| && end == idx + |before| + p && precision == (if d.f.precision then d.prec - p else 0)
      invariant buffer[..] == Put(was, idx, maxlen, before + part[..p])
      decreases |part| - p
    {
      Out(s[p], buffer, end, maxlen);
      PutTwice(was, idx, maxlen, before + part[..p], [s[p]]);
      NextOfPart(before, part, p);
      end := end + 1;
      p := p + 1;
      if d.f.precision {
        precision := precision - 1;
      }
    }
    assert part[..p] == part;
    if d.f.left {
      end := OutMany(' ' as octet, d.width - l, buffer, end, maxlen);
      PutTwice(was, idx, maxlen, before + part, blanks);
      assert [] + part == part;
    }
  }

  lemma NextOfPart(before: text, part: text, p: nat)
    requires p < |part|
    ensures before + part[..p] + [part[p]] == before + part[..p + 1]
  {
  }

  /** The value of an integer argument, cast to the size that the length asks for. */
  method Narrow(c: octet, x: uint, f: Flags) returns (v: int)
    ensures v == Argument(c, x, f)
  {
    if IsSigned(c) {
      if f.long {
        v := AsInt(x);
      } else if f.byteWide {
        v := TwosComplement(x, 0x100);
      } else if f.short {
        v := TwosComplement(x, 0x10000);
      } else {
        v := AsInt(x);
      }
    } else {
      if f.long {
        v := x;
      } else if f.byteWide {
        v := x % 0x100;
      } else if f.short {
        v := x % 0x10000;
      } else {
        v := x;
      }
    }
  }

  /** The base of a conversion; '#' has no effect on decimal numbers. */
  method BaseAndHash(c: octet, f: Flags) returns (base: nat, hash: bool)
    ensures base == BaseOf(c) && hash == (f.hash && BaseOf(c) != 10)
  {
    hash := f.hash;
    if c == 'x' as octet || c == 'X' as octet {
      base := 16;
    } else if c == 'o' as octet {
      base := 8;
    } else if c == 'b' as octet {
      base := 2;
    } else {
      base := 10;
      hash := false;
    }
  }

  /** '+' and ' ' have no effect on unsigned numbers. */
  method SignFlags(c: octet, f: Flags) returns (plus: bool, space: bool)
    ensures plus == (f.plus && IsSigned(c)) && space == (f.space && IsSigned(c))
  {
    plus, space := f.plus, f.space;
    if c != 'i' as octet && c != 'd' as octet {
      plus, space := false, false;
    }
  }

  /** The flags that a conversion changes, one by one, and its base. */
  method MaskedFlags(c: octet, f: Flags)
      returns (base: nat, hash: bool, uppercase: bool, plus: bool, space: bool, zeropad: bool)
    ensures base == BaseOf(c) && hash == (f.hash && BaseOf(c) != 10) && uppercase == (f.uppercase || c == 'X' as octet)
    ensures plus == (f.plus && IsSigned(c)) && space == (f.space && IsSigned(c))
    ensures zeropad == (f.zeropad && !f.precision)
  {
    hide BaseOf, IsSigned;
    uppercase, zeropad := f.uppercase, f.zeropad;
    base, hash := BaseAndHash(c, f);
    if c == 'X' as octet {
      uppercase := true;
    }
    plus, space := SignFlags(c, f);
    if f.precision {
      zeropad := false;
    }
  }

  /** The base of a conversion, and the flags that it leaves. */
  method Masked(c: octet, f: Flags) returns (base: nat, g: Flags)
    ensures base == BaseOf(c) && g == IntegerFlags(c, f)
  {
    hide BaseOf, IsSigned;
    var hash, uppercase, plus, space, zeropad;
    base, hash, uppercase, plus, space, zeropad := MaskedFlags(c, f);
    g := f.(hash := hash, uppercase := uppercase, plus := plus, space := space, zeropad := zeropad);
  }

  /** An integer conversion. */
  method OutInteger(c: octet, d: Directive, x: uint, buffer: array<octet>, idx: nat, maxlen: nat) returns (end: nat)
    requires maxlen <= buffer.Length && IsInteger(c)
    modifies buffer
    ensures end == idx + |IntegerText(c, x, d)|
    ensures buffer[..] == Put(old(buffer[..]), idx, maxlen, IntegerText(c, x, d))
  {
    hide Put, NumberText, Argument, IntegerFlags, BaseOf;
    var base, f := Masked(c, d.f);
    var v := Narrow(c, x, d.f);
    end := NtoaLong(buffer, idx, maxlen, if 0 < v then v else 0 - v, v < 0, base, d.prec, d.width, f);
  }

  /** The branches of the conversion character. */
  method Convert(c: octet, d: Directive, va: VaList, buffer: array<octet>, idx: nat, maxlen: nat)
      returns (end: nat, k: nat)
    requires maxlen <= buffer.Length && (!d.f.precision ==> d.prec == 0)
    modifies buffer
    ensures var t := Converted(c, d, va);
            end == idx + |t.0| && k == t.1 && buffer[..] == Put(old(buffer[..]), idx, maxlen, t.0)
  {
    hide Put, NumberText, TextField, Cut, IntegerText;
    end, k := idx, d.k;
    if IsInteger(c) {
      if d.f.longLong {
        PutNothing(buffer[..], idx, maxlen);
      } else {
        end := OutInteger(c, d, va.asWord(d.k), buffer, idx, maxlen);
        k := k + 1;
      }
    } else if c == 'c' as octet {
      end := OutField([Low(va.asWord(d.k))], d.width, d.f.left, buffer, idx, maxlen);
      k := k + 1;
    } else if c == 's' as octet {
      end := OutString(va.asString(d.k), d, buffer, idx, maxlen);
      k := k + 1;
    } else if c == 'p' as octet {
      end := NtoaLong(buffer, idx, maxlen, va.asWord(d.k), false, 16, d.prec, 8,
                      d.f.(zeropad := true, uppercase := true));
      k := k + 1;
    } else {
      Out(c, buffer, idx, maxlen);
      end := idx + 1;
    }
  }

  /** One character of the format, or one directive. */
  method Step(buffer: array<octet>, maxlen: nat, format: CStr, va: VaList, idx: nat, p: nat, k: nat)
      returns (end: nat, p': nat, k': nat, ghost next: text)
    requires maxlen <= buffer.Length && p < |format| && Closed(format, p, va, k)
    modifies buffer
    ensures p < p' <= |format| && Closed(format, p', va, k')
    ensures Formatted(format, p, va, k) == next + Formatted(format, p', va, k')
    ensures end == idx + |next| && buffer[..] == Put(old(buffer[..]), idx, maxlen, next)
  {
    hide Put, ReadDirective, Converted;
    if format[p] != '%' as octet {
      next := [format[p]];
      Out(format[p], buffer, idx, maxlen);
      end, p', k' := idx + 1, p + 1, k;
    } else {
      var d := ScanDirective(format, p + 1, va, k);
      PrecisionFlag(format, p + 1, va, k);
      next := Converted(format[d.at], d, va).0;
      end, k' := Convert(format[d.at], d, va, buffer, idx, maxlen);
      p' := d.at + 1;
    }
  }

  /** The end of the string, or the last character that fits. */
  method Terminate(buffer: array<octet>, idx: nat, maxlen: nat, ghost was: text, ghost whole: text)
    requires maxlen <= buffer.Length == |was| && idx == |whole| && buffer[..] == Put(was, 0, maxlen, whole)
    modifies buffer
    ensures 0 < maxlen ==> buffer[..] == Splice(was, 0, Shown(whole, maxlen))
    ensures maxlen == 0 ==> buffer[..] == was
  {
    hide Put, Shown, Splice;
    Out(0, buffer, if idx < maxlen then idx else if maxlen == 0 then 0xFFFF_FFFF else maxlen - 1, maxlen);
    if 0 < maxlen {
      PutTerminated(was, maxlen, whole);
    } else {
      NothingPut(was, whole, 0);
      NothingPut(was, [0], 0xFFFF_FFFF);
    }
  }

  /** _vsnprintf with _out_buffer. The unbounded length is returned; the buffer gets as much as fits, and its end. */
  method Vsnprintf(buffer: array<octet>, maxlen: nat, format: CStr, va: VaList) returns (r: nat)
    requires maxlen <= buffer.Length && Closed(format, 0, va, 0)
    modifies buffer
    ensures r == |Formatted(format, 0, va, 0)|
    ensures 0 < maxlen ==> buffer[..] == Splice(old(buffer[..]), 0, Shown(Formatted(format, 0, va, 0), maxlen))
    ensures maxlen == 0 ==> buffer[..] == old(buffer[..])
  {
    hide Put, Shown, Splice, Formatted, Closed;
    ghost var was, whole := buffer[..], Formatted(format, 0, va, 0);
    ghost var done: text := [];
    var idx, p, k := 0, 0, 0;
    PutNothing(was, 0, maxlen);
    while p < |format|
      invariant p <= |format| && idx == |done| && buffer[..] == Put(was, 0, maxlen, done)
      invariant Closed(format, p, va, k) && whole == done + Formatted(format, p, va, k)
      decreases |format| - p
    {
      ghost var next;
      idx, p, k, next := Step(buffer, maxlen, format, va, idx, p, k);
      PutTwice(was, 0, maxlen, done, next);
      assert (done + next) + Formatted(format, p, va, k) == done + (next + Formatted(format, p, va, k));
      done := done + next;
    }
    FormatOver(format, p, va, k);
    assert done + [] == done;
    Terminate(buffer, idx, maxlen, was, whole);
    r := idx;
  }

  lemma FormatOver(s: CStr, p: nat, va: VaList, k: nat)
    requires |s| <= p && Closed(s, p, va, k)
    ensures Formatted(s, p, va, k) == []
  {
  }

  lemma NothingPut(s: text, t: text, idx: nat)
    ensures Put(s, idx, 0, t) == s
  {
  }
}
