/** The table-driven hash of modules/idsregeneration/main.c, and the bit-at-a-time reflected CRC-32
    (section 8 of RFC 1952) it stands for. */
module Crc32 {
  import opened Bytes

  const POLYNOMIAL: word := 0xEDB88320

  /** One bit of the division: the register shifted right, the polynomial added if a one fell out. */
  function ShiftOne(x: word): word { WXor(Half(x), Fallen(x)) }

  function Half(x: word): word { x >> 1 }
  function Fallen(x: word): word { if x & 1 != 0 then POLYNOMIAL else 0 }

  function ShiftBits(n: nat, x: word): word { if n == 0 then x else ShiftBits(n - 1, ShiftOne(x)) }

  /** A byte goes into the low end of the register, which then takes eight steps. */
  function CrcByte(h: word, b: byte): word { ShiftBits(8, WXor(h, b as word)) }

  function CrcBytes(h: word, data: seq<byte>): word
    decreases |data|
  {
    if data == [] then h else CrcBytes(CrcByte(h, data[0]), data[1..])
  }

  /** The checksum of data, continuing from the checksum seed. */
  function Crc(seed: word, data: seq<byte>): word { Not(CrcBytes(Not(seed), data)) }

  function Not(x: word): word { 0xffffffff ^ x }

  // ----- The table

  lemma ShiftOneSplits(u: word, v: word)
    requires v & 1 == 0
    ensures ShiftOne(WXor(u, v)) == WXor(ShiftOne(u), Half(v))
  {
    hide Half, Fallen, WXor;
    ShiftOfSum(u, v);
    SumsSwap(Half(u), Half(v), Fallen(u));
  }

  lemma ShiftOfSum(u: word, v: word)
    requires v & 1 == 0
    ensures Half(WXor(u, v)) == WXor(Half(u), Half(v)) && Fallen(WXor(u, v)) == Fallen(u)
  {
  }

  lemma SumsSwap(a: word, b: word, p: word)
    ensures WXor(WXor(a, b), p) == WXor(WXor(a, p), b)
  {
    hide WXor;
    WXorAssociates(a, b, p);
    WXorAssociates(a, p, b);
    WXorCommutes(b, p);
  }

  // A register whose n lowest bits are clear, and what n plain shifts make of it.
  predicate Clear(n: nat, v: word) { n == 0 || (v & 1 == 0 && Clear(n - 1, v >> 1)) }
  function Dropped(n: nat, v: word): word { if n == 0 then v else Dropped(n - 1, v >> 1) }

  lemma {:induction false} ShiftBitsSplits(n: nat, u: word, v: word)
    requires Clear(n, v)
    ensures ShiftBits(n, WXor(u, v)) == WXor(ShiftBits(n, u), Dropped(n, v))
  {
    hide ShiftOne, WXor;
    if n != 0 {
      ShiftOneSplits(u, v);
      ShiftBitsSplits(n - 1, ShiftOne(u), v >> 1);
    }
  }

  lemma HighPart(v: word)
    requires v & 0xff == 0
    ensures Clear(8, v) && Dropped(8, v) == v >> 8
  {
    ShiftTwice(v);
    LowBits(v);
    assert Clear(0, v >> 8) && Dropped(0, v >> 8) == v >> 8;
    assert Clear(1, v >> 7) && Dropped(1, v >> 7) == v >> 8;
    assert Clear(2, v >> 6) && Dropped(2, v >> 6) == v >> 8;
    assert Clear(3, v >> 5) && Dropped(3, v >> 5) == v >> 8;
    assert Clear(4, v >> 4) && Dropped(4, v >> 4) == v >> 8;
    assert Clear(5, v >> 3) && Dropped(5, v >> 3) == v >> 8;
    assert Clear(6, v >> 2) && Dropped(6, v >> 2) == v >> 8;
    assert Clear(7, v >> 1) && Dropped(7, v >> 1) == v >> 8;
  }

  lemma ShiftTwice(v: word)
    ensures (v >> 1) >> 1 == v >> 2 && (v >> 2) >> 1 == v >> 3 && (v >> 3) >> 1 == v >> 4 && (v >> 4) >> 1 == v >> 5
    ensures (v >> 5) >> 1 == v >> 6 && (v >> 6) >> 1 == v >> 7 && (v >> 7) >> 1 == v >> 8
  {
  }

  lemma LowBits(v: word)
    requires v & 0xff == 0
    ensures v & 1 == 0 && (v >> 1) & 1 == 0 && (v >> 2) & 1 == 0 && (v >> 3) & 1 == 0
    ensures (v >> 4) & 1 == 0 && (v >> 5) & 1 == 0 && (v >> 6) & 1 == 0 && (v >> 7) & 1 == 0
  {
  }

  function LowByte(h: word): byte { (h & 0xff) as byte }

  lemma LowAndHigh(h: word, b: byte)
    ensures WXor(h, b as word) == WXor(Xor(b, LowByte(h)) as word, h & 0xffffff00)
    ensures (h & 0xffffff00) & 0xff == 0 && (h & 0xffffff00) >> 8 == h >> 8
  {
  }

  /** Eight steps at once: the table entry of the low byte, and the rest moved down. */
  lemma ByteByTable(h: word, b: byte)
    ensures CrcByte(h, b) == WXor(h >> 8, ShiftBits(8, Xor(b, LowByte(h)) as word))
  {
    hide WXor, Xor, LowByte, ShiftBits, Clear, Dropped;
    var u, v := Xor(b, LowByte(h)) as word, h & 0xffffff00;
    LowAndHigh(h, b);
    HighPart(v);
    ShiftBitsSplits(8, u, v);
    WXorCommutes(h >> 8, ShiftBits(8, u));
  }

  ghost predicate IsTable(t: seq<word>) { |t| == 256 && forall b: byte :: Entry(t, b) == ShiftBits(8, b as word) }

  function Entry(t: seq<word>, b: byte): word requires |t| == 256 { t[b as int] }

  lemma Widened(b: byte)
    ensures (b as word) as int == b as int
  {
  }
  lemma ThereAndBack(x: word)
    ensures (x as int) as word == x
  {
  }
  lemma SameNumber(b: byte)
    ensures (b as int) as word == b as word
  {
    Widened(b);
    ThereAndBack(b as word);
  }

  function TableEntry(k: nat): word requires k < 256 { ShiftBits(8, k as word) }

  lemma TableEntryIs(k: nat)
    requires k < 256
    ensures TableEntry(k) == ShiftBits(8, k as word)
  {
    hide ShiftBits;
  }

  lemma AllEntries(t: seq<word>)
    requires |t| == 256 && forall k | 0 <= k < 256 :: t[k] == TableEntry(k)
    ensures IsTable(t)
  {
    hide ShiftBits;
    forall b: byte
      ensures Entry(t, b) == ShiftBits(8, b as word)
    {
      SameNumber(b);
    }
  }

  /** gen_table. */
  method GenTable(table: array<word>)
    requires table.Length == 256
    modifies table
    ensures IsTable(table[..])
  {
    hide ShiftBits, TableEntry;
    for i := 0 to 256
      invariant forall k | 0 <= k < i :: table[k] == TableEntry(k)
    {
      TableEntryIs(i);
      var x := EightBits(i as word);
      table[i] := x;
    }
    AllEntries(table[..]);
  }

  /** The inner loop of gen_table. */
  method EightBits(start: word) returns (x: word)
    ensures x == ShiftBits(8, start)
  {
    hide ShiftOne;
    x := start;
    for j := 0 to 8
      invariant ShiftBits(8 - j, x) == ShiftBits(8, start)
    {
      x := NextBit(x);
    }
  }

  method NextBit(x: word) returns (y: word)
    ensures y == ShiftOne(x)
  {
    if x & 1 != 0 {
      y := (x >> 1) ^ 0xEDB88320;
    } else {
      y := x >> 1;
    }
  }

  /** gen_hash, over a table that gen_table has filled. */
  method GenHash(table: array<word>, seed: word, buf: array<byte>, size: nat) returns (r: word)
    requires IsTable(table[..]) && size <= buf.Length
    ensures r == Crc(seed, buf[..size])
  {
    hide CrcByte, Not;
    var hash := Not(seed);
    var i := 0;
    while i != size
      invariant 0 <= i <= size && CrcBytes(hash, buf[i..size]) == CrcBytes(Not(seed), buf[..size])
    {
      assert buf[i..size][1..] == buf[i + 1..size];
      hash := HashByte(table, hash, buf[i]);
      i := i + 1;
    }
    r := Not(hash);
  }

  method HashByte(table: array<word>, h: word, b: byte) returns (hash: word)
    requires IsTable(table[..])
    ensures hash == CrcByte(h, b)
  {
    hide CrcByte, WXor, Xor, LowByte, ShiftBits;
    hash := h;
    var index := Xor(b, LowByte(hash));
    ByteByTable(h, b);
    hash := hash >> 8;
    assert Entry(table[..], index) == ShiftBits(8, index as word);
    hash := WXor(hash, table[index as int]);
  }

  // ----- What the checksum is good for

  /** A checksum can be continued: hashing a, then b from there, is hashing both. */
  lemma CrcContinues(seed: word, a: seq<byte>, b: seq<byte>)
    ensures Crc(Crc(seed, a), b) == Crc(seed, a + b)
  {
    hide Not;
    NotTwice(CrcBytes(Not(seed), a));
    CrcBytesContinue(Not(seed), a, b);
  }

  lemma NotTwice(x: word)
    ensures Not(Not(x)) == x
  {
  }

  lemma {:induction false} CrcBytesContinue(h: word, a: seq<byte>, b: seq<byte>)
    ensures CrcBytes(h, a + b) == CrcBytes(CrcBytes(h, a), b)
    decreases |a|
  {
    hide CrcByte;
    if a == [] {
      assert a + b == b;
    } else {
      assert (a + b)[1..] == a[1..] + b;
      CrcBytesContinue(CrcByte(h, a[0]), a[1..], b);
    }
  }

  lemma ShiftOneInjective(x: word, y: word)
    requires ShiftOne(x) == ShiftOne(y)
    ensures x == y
  {
  }

  lemma {:induction false} ShiftBitsInjective(n: nat, x: word, y: word)
    requires ShiftBits(n, x) == ShiftBits(n, y)
    ensures x == y
  {
    hide ShiftOne;
    if n != 0 {
      ShiftBitsInjective(n - 1, ShiftOne(x), ShiftOne(y));
      ShiftOneInjective(x, y);
    }
  }

  lemma SumsDiffer(h: word, h': word, b: byte, b': byte)
    ensures WXor(h, b as word) == WXor(h, b' as word) ==> b == b'
    ensures WXor(h, b as word) == WXor(h', b as word) ==> h == h'
  {
  }

  lemma {:induction false} CrcBytesInjective(h: word, h': word, data: seq<byte>)
    requires CrcBytes(h, data) == CrcBytes(h', data)
    ensures h == h'
    decreases |data|
  {
    hide WXor, ShiftBits;
    if data != [] {
      var b := data[0];
      CrcBytesInjective(CrcByte(h, b), CrcByte(h', b), data[1..]);
      ShiftBitsInjective(8, WXor(h, b as word), WXor(h', b as word));
      SumsDiffer(h, h', b, b);
    }
  }

  /** Changing exactly one byte of a buffer always changes its checksum. */
  lemma OneByteShows(seed: word, a: seq<byte>, x: byte, y: byte, b: seq<byte>)
    requires x != y
    ensures Crc(seed, a + [x] + b) != Crc(seed, a + [y] + b)
  {
    hide Not, WXor, ShiftBits;
    var h := CrcBytes(Not(seed), a);
    assert forall z :: CrcBytes(Not(seed), a + [z] + b) == CrcBytes(CrcByte(h, z), b) by {
      forall z
        ensures CrcBytes(Not(seed), a + [z] + b) == CrcBytes(CrcByte(h, z), b)
      {
        assert a + [z] + b == a + ([z] + b);
        CrcBytesContinue(Not(seed), a, [z] + b);
        assert ([z] + b)[1..] == b;
      }
    }
    if Crc(seed, a + [x] + b) == Crc(seed, a + [y] + b) {
      NotTwice(CrcBytes(Not(seed), a + [x] + b));
      NotTwice(CrcBytes(Not(seed), a + [y] + b));
      CrcBytesInjective(CrcByte(h, x), CrcByte(h, y), b);
      ShiftBitsInjective(8, WXor(h, x as word), WXor(h, y as word));
      SumsDiffer(h, h, x, y);
    }
  }
}
