/** Directory entries and the names they spell, as MsFatFindFile of ipl/common/fat.c reads them. */
module FatNames {
  import opened Octets

  type Entry = e: seq<octet> | |e| == 32 witness seq(32, _ => 0)

  predicate LongPart(e: Entry) { e[0xB] == 0x0F }

  predicate EndMark(e: Entry) { !LongPart(e) && e[0] == 0 }

  /** An entry that names a file or directory: neither part of a long name nor free nor deleted. */
  predicate Live(e: Entry) { !LongPart(e) && e[0] != 0 && e[0] != 0xE5 }

  /** The thirteen characters of a long-name entry; the code keeps their low bytes. */
  function LongChars(e: Entry): (s: seq<octet>)
    ensures |s| == 13
  {
    [e[0x01], e[0x03], e[0x05], e[0x07], e[0x09], e[0x0E], e[0x10],
     e[0x12], e[0x14], e[0x16], e[0x18], e[0x1C], e[0x1E]]
  }

  /** How many long-name entries stand directly before entry n. */
  function Run(es: seq<Entry>, n: nat): (r: nat)
    requires n <= |es|
    ensures r <= n
  {
    if n == 0 || !LongPart(es[n - 1]) then 0 else Run(es, n - 1) + 1
  }

  /** What they spell: the entry nearest to n comes first. */
  function LongName(es: seq<Entry>, n: nat): (s: seq<octet>)
    requires n <= |es|
    ensures |s| == 13 * Run(es, n)
  {
    if n == 0 || !LongPart(es[n - 1]) then [] else LongChars(es[n - 1]) + LongName(es, n - 1)
  }

  function Trimmed(s: seq<octet>): (t: seq<octet>)
    ensures |t| <= |s|
  {
    if s == [] || s[0] == 0x20 then [] else [s[0]] + Trimmed(s[1..])
  }

  /** A first byte of 05 stands for E5, which would mark the entry deleted. */
  function FirstByte(e: Entry): octet { if e[0] == 0x05 then 0xE5 else e[0] }

  /** The 8.3 name. */
  function ShortName(e: Entry): (s: seq<octet>)
    ensures |s| <= 12
  {
    var base := [FirstByte(e)] + Trimmed(e[1..8]);
    if e[8] == 0x20 then base else base + ['.' as octet] + Trimmed(e[8..11])
  }

  /** A C string: everything up to the first zero. */
  function CString(s: seq<octet>): (t: seq<octet>) {
    if s == [] || s[0] == 0 then [] else [s[0]] + CString(s[1..])
  }

  function Lower(c: octet): octet { if 'A' as octet <= c <= 'Z' as octet then c + 32 else c }

  /** strcasecmp returns 0. */
  predicate EqualFold(a: seq<octet>, b: seq<octet>) {
    |a| == |b| && forall i | 0 <= i < |a| :: Lower(a[i]) == Lower(b[i])
  }

  predicate LongNameIs(es: seq<Entry>, n: nat, name: seq<octet>)
    requires n <= |es|
  {
    0 < Run(es, n) && EqualFold(name, CString(LongName(es, n)))
  }

  predicate ShortNameIs(e: Entry, name: seq<octet>) {
    FirstByte(e) != 0x20 && EqualFold(name, CString(ShortName(e)))
  }

  predicate Hit(es: seq<Entry>, n: nat, name: seq<octet>)
    requires n < |es|
  {
    Live(es[n]) && (LongNameIs(es, n, name) || ShortNameIs(es[n], name))
  }

  /** Entry n is the first one, before the end marker, that has the name. */
  predicate Found(es: seq<Entry>, n: nat, name: seq<octet>) {
    n < |es| && Hit(es, n, name) && forall j | 0 <= j < n :: !EndMark(es[j]) && !Hit(es, j, name)
  }

  // ----- Strings

  lemma {:induction false} CStringStops(a: seq<octet>, b: seq<octet>)
    ensures CString(a + [0] + b) == CString(a)
  {
    if a == [] {
    } else {
      CStringStops(a[1..], b);
      assert (a + [0] + b)[1..] == a[1..] + [0] + b;
    }
  }

  lemma {:induction false} CStringWhole(a: seq<octet>)
    requires 0 !in a
    ensures CString(a) == a
  {
    if a != [] {
      CStringWhole(a[1..]);
    }
  }

  lemma {:induction false} TrimmedStops(a: seq<octet>, n: nat)
    requires 0x20 !in a
    ensures Trimmed(a + Spaces(n)) == a
  {
    if a == [] {
      assert a + Spaces(n) == Spaces(n);
    } else {
      TrimmedStops(a[1..], n);
      assert (a + Spaces(n))[1..] == a[1..] + Spaces(n);
    }
  }

  function Spaces(n: nat): (s: seq<octet>)
    ensures |s| == n
  {
    seq(n, i => 0x20)
  }

  // ----- What a directory stores is what is read back

  /** A long name cut into pieces of thirteen: a zero and then FF fill up the last one. */
  function Padded(name: seq<octet>): (s: seq<octet>)
    ensures |s| % 13 == 0 && |name| <= |s|
  {
    var m := |name| % 13;
    if m == 0 then name else name + [0] + seq(12 - m, i => 0xFF)
  }

  lemma SliceAfter(s: seq<octet>, d: nat, k: nat, n: nat)
    requires d + k + n <= |s|
    ensures s[d..][k..k + n] == s[d + k..d + k + n]
  {
  }

  /** The characters of a run, entry by entry. */
  lemma {:induction false} LongNameInPieces(es: seq<Entry>, n: nat, padded: seq<octet>)
    requires n <= |es| && |padded| == 13 * Run(es, n)
    requires forall i | 0 <= i < Run(es, n) :: LongChars(es[n - 1 - i]) == padded[13 * i..13 * i + 13]
    ensures LongName(es, n) == padded
  {
    hide LongChars;
    if n == 0 || !LongPart(es[n - 1]) {
    } else {
      var rest := padded[13..];
      forall i | 0 <= i < Run(es, n - 1)
        ensures LongChars(es[n - 1 - 1 - i]) == rest[13 * i..13 * i + 13]
      {
        assert LongChars(es[n - 1 - (i + 1)]) == padded[13 * (i + 1)..13 * (i + 1) + 13];
        SliceAfter(padded, 13, 13 * i, 13);
      }
      LongNameInPieces(es, n - 1, rest);
      assert LongChars(es[n - 1 - 0]) == padded[13 * 0..13 * 0 + 13];
      assert padded == padded[..13] + rest;
    }
  }

  /** A long name stored in the entries before entry n, last piece first, is the name the search compares. */
  lemma LongNameReassembled(es: seq<Entry>, n: nat, name: seq<octet>)
    requires n <= |es| && 0 !in name && |Padded(name)| == 13 * Run(es, n)
    requires forall i | 0 <= i < Run(es, n) :: LongChars(es[n - 1 - i]) == Padded(name)[13 * i..13 * i + 13]
    ensures CString(LongName(es, n)) == name
  {
    LongNameInPieces(es, n, Padded(name));
    CStringWhole(name);
    CStringStops(name, seq(if |name| % 13 == 0 then 0 else 12 - |name| % 13, i => 0xFF));
  }

  /** A name and an extension stored in the 8.3 fields, filled up with spaces, are read back with a dot between. */
  lemma ShortNameReadBack(e: Entry, base: seq<octet>, ext: seq<octet>)
    requires 1 <= |base| <= 8 && |ext| <= 3
    requires 0 !in base && 0 !in ext && 0x20 !in base && 0x20 !in ext
    requires base[0] == FirstByte(e) && e[1..8] == base[1..] + Spaces(8 - |base|) && e[8..11] == ext + Spaces(3 - |ext|)
    ensures CString(ShortName(e)) == base + if ext == [] then [] else ['.' as octet] + ext
  {
    ShortNameFields(e, base, ext);
    CStringWhole(ShortName(e));
  }

  lemma ShortNameFields(e: Entry, base: seq<octet>, ext: seq<octet>)
    requires 1 <= |base| <= 8 && |ext| <= 3 && 0x20 !in base && 0x20 !in ext
    requires base[0] == FirstByte(e) && e[1..8] == base[1..] + Spaces(8 - |base|) && e[8..11] == ext + Spaces(3 - |ext|)
    ensures ShortName(e) == base + if ext == [] then [] else ['.' as octet] + ext
  {
    hide Trimmed, CString, FirstByte, Spaces;
    var tail := base[1..];
    assert base == [base[0]] + tail;
    TrimmedStops(tail, 8 - |base|);
    TrimmedStops(ext, 3 - |ext|);
    FirstOfField(e, ext);
  }

  lemma FirstOfField(e: Entry, ext: seq<octet>)
    requires |ext| <= 3 && 0x20 !in ext && e[8..11] == ext + Spaces(3 - |ext|)
    ensures e[8] == 0x20 <==> ext == []
  {
    assert e[8] == e[8..11][0];
  }

  lemma FoundIsUnique(es: seq<Entry>, m: nat, n: nat, name: seq<octet>)
    requires Found(es, m, name) && Found(es, n, name)
    ensures m == n
  {
    hide Hit, EndMark;
  }
}
