/** The directory search of ipl/common/fat.c: MsFatFindFile. */
module FatFind {
  import opened Bytes
  import opened Octets
  import opened FatVolume
  import opened FatNames
  import opened FatRead

  /** What the name buffer holds after the entries before n: the long name they have spelt so far. */
  ghost predicate Scanned(buf: seq<octet>, lfn: bool, p: int, es: seq<Entry>, n: nat) {
    && |buf| == 256 && n <= |es| && Run(es, n) <= 19
    && (lfn <==> 0 < Run(es, n)) && p == 254 - 13 * Run(es, n)
    && buf[p + 1..] == LongName(es, n) + [0]
  }

  lemma NothingScanned(buf: seq<octet>, es: seq<Entry>, n: nat)
    requires |buf| == 256 && buf[255] == 0 && n <= |es| && Run(es, n) == 0
    ensures Scanned(buf, false, 254, es, n)
  {
    assert buf[255..] == [0];
  }

  lemma Longer(buf: seq<octet>, lfn: bool, p: int, es: seq<Entry>, n: nat)
    requires Scanned(buf, lfn, p, es, n) && n < |es| && LongPart(es[n]) && Run(es, n + 1) <= 19
    ensures 12 <= p < 256 && Scanned(Splice(buf, p - 12, LongChars(es[n])), true, p - 13, es, n + 1)
  {
    hide LongChars, Splice;
    SpliceEnd(buf, p - 12, LongChars(es[n]));
    assert LongChars(es[n]) + (LongName(es, n) + [0]) == LongName(es, n + 1) + [0];
  }

  lemma SpliceEnd(s: seq<octet>, at: nat, c: seq<octet>)
    requires at + |c| <= |s|
    ensures Splice(s, at, c)[at..] == c + s[at + |c|..]
  {
  }

  /** A long-name entry's characters go in front of those already collected. */
  method CollectLong(d: Driver, o: nat, p: int) returns (q: int)
    requires d.Mounted() && o + 32 <= 0x200 && 12 <= p < 256
    modifies d.filename2
    ensures q == p - 13
    ensures d.filename2[..] == Splice(old(d.filename2[..]), p - 12, LongChars(d.sector_buf[o..o + 32]))
  {
    hide LongChars, Splice;
    var entry := d.sector_buf[o..o + 32];
    ghost var was := d.filename2[..];
    BackTwo(d.filename2, p, entry[0x1E], entry[0x1C]);
    BackSix(d.filename2, p - 2, entry[0x18], entry[0x16], entry[0x14], entry[0x12], entry[0x10], entry[0x0E]);
    BackFive(d.filename2, p - 8, entry[0x09], entry[0x07], entry[0x05], entry[0x03], entry[0x01]);
    q := p - 13;
    Downwards(was, p, entry);
  }

  lemma Downwards(s: seq<octet>, p: int, e: Entry)
    requires 12 <= p < |s|
    ensures var a := Splice(s, p - 1, [e[0x1C], e[0x1E]]);
            var b := Splice(a, p - 7, [e[0x0E], e[0x10], e[0x12], e[0x14], e[0x16], e[0x18]]);
            Splice(b, p - 12, [e[0x01], e[0x03], e[0x05], e[0x07], e[0x09]]) == Splice(s, p - 12, LongChars(e))
  {
    hide LongChars;
    var a, b := [e[0x1C], e[0x1E]], [e[0x0E], e[0x10], e[0x12], e[0x14], e[0x16], e[0x18]];
    var c := [e[0x01], e[0x03], e[0x05], e[0x07], e[0x09]];
    PiecesOfEntry(e);
    InFront(s, p - 12, c, b, a);
  }

  lemma PiecesOfEntry(e: Entry)
    ensures [e[0x01], e[0x03], e[0x05], e[0x07], e[0x09]]
            + ([e[0x0E], e[0x10], e[0x12], e[0x14], e[0x16], e[0x18]] + [e[0x1C], e[0x1E]]) == LongChars(e)
  {
  }

  lemma InFront(s: seq<octet>, at: nat, c: seq<octet>, b: seq<octet>, a: seq<octet>)
    requires at + |c| + |b| + |a| <= |s|
    ensures Splice(Splice(Splice(s, at + |c| + |b|, a), at + |c|, b), at, c) == Splice(s, at, c + (b + a))
  {
    assert Splice(Splice(s, at + |c| + |b|, a), at + |c|, b) == Splice(s, at + |c|, b + a);
  }

  // The pieces of an entry, each written from its last character down to its first.

  method BackTwo(buf: array<octet>, p: int, a: octet, b: octet)
    requires 1 <= p < buf.Length
    modifies buf
    ensures buf[..] == Splice(old(buf[..]), p - 1, [b, a])
  {
    buf[p] := a;
    buf[p - 1] := b;
  }

  method BackFive(buf: array<octet>, p: int, a: octet, b: octet, c: octet, d: octet, e: octet)
    requires 4 <= p < buf.Length
    modifies buf
    ensures buf[..] == Splice(old(buf[..]), p - 4, [e, d, c, b, a])
  {
    buf[p] := a;
    buf[p - 1] := b;
    buf[p - 2] := c;
    buf[p - 3] := d;
    buf[p - 4] := e;
  }

  method BackSix(buf: array<octet>, p: int, a: octet, b: octet, c: octet, d: octet, e: octet, f: octet)
    requires 5 <= p < buf.Length
    modifies buf
    ensures buf[..] == Splice(old(buf[..]), p - 5, [f, e, d, c, b, a])
  {
    buf[p] := a;
    buf[p - 1] := b;
    buf[p - 2] := c;
    buf[p - 3] := d;
    buf[p - 4] := e;
    buf[p - 5] := f;
  }

  lemma {:induction false} TrimmedIs(s: seq<octet>, k: nat)
    requires k <= |s| && (forall i | 0 <= i < k :: s[i] != 0x20) && (k == |s| || s[k] == 0x20)
    ensures Trimmed(s) == s[..k]
  {
    if k != 0 {
      TrimmedIs(s[1..], k - 1);
      assert s[..k] == [s[0]] + s[1..][..k - 1];
    }
  }

  /** A field of an entry up to its first space, into the name buffer. */
  method CopyField(src: array<octet>, from: nat, to: nat, dst: array<octet>, at: nat) returns (end: nat)
    requires from <= to <= src.Length && at + (to - from) <= dst.Length && src != dst
    modifies dst
    ensures dst[..] == Splice(old(dst[..]), at, Trimmed(src[from..to])) && end == at + |Trimmed(src[from..to])|
  {
    hide Splice;
    ghost var was, field := dst[..], src[from..to];
    SpliceSame(was, at, field[..0]);
    var i := from;
    while i < to
      invariant from <= i <= to && (forall k | 0 <= k < i - from :: field[k] != 0x20)
      invariant dst[..] == Splice(was, at, field[..i - from])
    {
      if src[i] == 0x20 {
        break;
      }
      PutBytes(dst, at + (i - from), [src[i]]);
      SpliceTwice(was, at, field[..i - from], [src[i]]);
      assert field[..i - from] + [field[i - from]] == field[..i - from + 1];
      i := i + 1;
    }
    TrimmedIs(field, i - from);
    end := at + (i - from);
  }

  lemma FieldsOfEntry(buf: array<octet>, o: nat, e: Entry)
    requires o + 32 <= buf.Length && e == buf[o..o + 32]
    ensures buf[o + 1..o + 8] == e[1..8] && buf[o + 8..o + 11] == e[8..11]
  {
    SliceOfSlice(buf[..], o, 32, 1, 7);
    SliceOfSlice(buf[..], o, 32, 8, 3);
  }

  /** The 8.3 name of the entry at an offset of the sector buffer, as a C string at the start of the name buffer. */
  method BuildShort(d: Driver, o: nat)
    requires d.Mounted() && o + 32 <= 0x200 && d.sector_buf[o] != 0x05
    modifies d.filename2
    ensures d.filename2[..] == Splice(old(d.filename2[..]), 0, ShortName(d.sector_buf[o..o + 32]) + [0])
  {
    hide Trimmed, Splice;
    var name := d.filename2;
    ghost var was, e := name[..], d.sector_buf[o..o + 32];
    FieldsOfEntry(d.sector_buf, o, e);
    PutBytes(name, 0, [d.sector_buf[o]]);
    var i := CopyField(d.sector_buf, o + 1, o + 8, name, 1);
    ghost var base := [e[0]] + Trimmed(e[1..8]);
    SpliceTwice(was, 0, [e[0]], Trimmed(e[1..8]));
    if d.sector_buf[o + 8] == 0x20 {
      PutBytes(name, i, [0]);
      SpliceTwice(was, 0, base, [0]);
    } else {
      PutBytes(name, i, ['.' as octet]);
      SpliceTwice(was, 0, base, ['.' as octet]);
      var j := CopyField(d.sector_buf, o + 8, o + 11, name, i + 1);
      SpliceTwice(was, 0, base + ['.' as octet], Trimmed(e[8..11]));
      PutBytes(name, j, [0]);
      SpliceTwice(was, 0, base + ['.' as octet] + Trimmed(e[8..11]), [0]);
    }
  }

  /** strcasecmp with the C string at an offset of the name buffer. */
  method SameName(name: seq<octet>, buf: array<octet>, at: nat) returns (same: bool)
    requires at <= buf.Length
    ensures same == EqualFold(name, CString(buf[at..]))
  {
    same := EqualFold(name, CString(buf[at..]));
  }

  method LongMatches(d: Driver, name: seq<octet>, lfn: bool, p: int, ghost es: seq<Entry>, ghost n: nat)
      returns (same: bool)
    requires d.Mounted() && Scanned(d.filename2[..], lfn, p, es, n)
    ensures same == LongNameIs(es, n, name)
  {
    hide EqualFold, CString, LongName;
    same := false;
    if lfn {
      same := SameName(name, d.filename2, p + 1);
      assert d.filename2[p + 1..] == d.filename2[..][p + 1..] == LongName(es, n) + [0] + [];
      CStringStops(LongName(es, n), []);
    }
  }

  method ShortMatches(d: Driver, name: seq<octet>, o: nat) returns (same: bool)
    requires d.Mounted() && o + 32 <= 0x200 && d.sector_buf[o] != 0x05 && d.filename2[255] == 0
    modifies d.filename2
    ensures same == ShortNameIs(d.sector_buf[o..o + 32], name) && d.filename2[255] == 0
  {
    hide EqualFold, CString, ShortName;
    ghost var was, s := d.filename2[..], ShortName(d.sector_buf[o..o + 32]);
    same := false;
    if d.sector_buf[o] != 0x20 {
      BuildShort(d, o);
      same := SameName(name, d.filename2, 0);
      assert d.filename2[..] == s + [0] + was[|s| + 1..];
      assert d.filename2[0..] == d.filename2[..];
      CStringStops(s, was[|s| + 1..]);
    }
  }

  datatype Verdict = Opened | NoMore | Failed | GoOn

  /** Entries that differ in the escape of their first byte only have the same names. */
  lemma Unescaped(e: Entry, f: Entry, name: seq<octet>)
    requires f == e[0 := FirstByte(e)]
    ensures f[0] != 0x05 && f[1..] == e[1..] && ShortNameIs(f, name) == ShortNameIs(e, name)
  {
    hide Trimmed, EqualFold, CString;
    assert f[1..8] == e[1..8] && f[8..11] == e[8..11];
  }

  /** The escape of the first byte is undone in the sector buffer. */
  method Unescape(d: Driver, o: nat)
    requires d.Mounted() && o + 32 <= 0x200
    modifies d.sector_buf
    ensures d.sector_buf[o..o + 32] == old(d.sector_buf[o..o + 32])[0 := FirstByte(old(d.sector_buf[o..o + 32]))]
    ensures d.sector_buf[o + 32..] == old(d.sector_buf[o + 32..])
  {
    if d.sector_buf[o] == 0x05 {
      d.sector_buf[o] := 0xE5;
    }
  }

  /** A live entry: its long name first, then its short one. */
  method ExamineLive(d: Driver, name: seq<octet>, o: nat, lfn: bool, p: int, ghost es: seq<Entry>, ghost n: nat)
      returns (hit: bool)
    requires d.Mounted() && o + 32 <= 0x200 && n < |es| && d.sector_buf[o..o + 32] == es[n] && Live(es[n])
    requires Scanned(d.filename2[..], lfn, p, es, n)
    modifies d, d.sector_buf, d.filename2
    ensures hit == Hit(es, n, name)
    ensures if hit then d.Opened(es[n]) else unchanged(d)
    ensures d.filename2[255] == 0 && d.sector_buf[o + 32..] == old(d.sector_buf[o + 32..])
  {
    hide LongNameIs, ShortNameIs, FirstByte, Driver.Opened;
    Unescape(d, o);
    ghost var f: Entry := d.sector_buf[o..o + 32];
    Unescaped(es[n], f, name);
    assert d.sector_buf[o] == f[0];
    assert d.filename2[255] == d.filename2[p + 1..][254 - p];
    hit := LongMatches(d, name, lfn, p, es, n);
    if !hit {
      hit := ShortMatches(d, name, o);
    }
    if hit {
      d.FillFileStruct(o);
      d.SameFile(f, es[n]);
    }
  }

  /** One entry of the sector buffer. */
  method Examine(d: Driver, name: seq<octet>, o: nat, lfn: bool, p: int, ghost es: seq<Entry>, ghost n: nat)
      returns (v: Verdict, lfn': bool, p': int)
    requires d.Mounted() && o + 32 <= 0x200 && n < |es| && d.sector_buf[o..o + 32] == es[n]
    requires Scanned(d.filename2[..], lfn, p, es, n) && Run(es, n + 1) <= 19
    modifies d, d.sector_buf, d.filename2
    ensures v == if EndMark(es[n]) then NoMore else if Hit(es, n, name) then Opened else GoOn
    ensures if v == Opened then d.Opened(es[n]) else unchanged(d)
    ensures v == GoOn ==> Scanned(d.filename2[..], lfn', p', es, n + 1)
    ensures d.sector_buf[o + 32..] == old(d.sector_buf[o + 32..])
  {
    hide LongNameIs, ShortNameIs, Driver.Opened, Scanned, LongChars, Splice;
    v, lfn', p' := GoOn, lfn, p;
    assert d.sector_buf[o + 0xB] == es[n][0xB] && d.sector_buf[o] == es[n][0];
    if d.sector_buf[o + 0xB] == 0x0F {
      Longer(d.filename2[..], lfn, p, es, n);
      p' := CollectLong(d, o, p);
      lfn' := true;
    } else {
      if d.sector_buf[o] == 0 {
        v := NoMore;
        return;
      }
      ScannedEnds(d.filename2[..], lfn, p, es, n);
      if d.sector_buf[o] != 0xE5 {
        var hit := ExamineLive(d, name, o, lfn, p, es, n);
        if hit {
          v := Opened;
          return;
        }
      }
      lfn', p' := false, 254;
      NothingScanned(d.filename2[..], es, n + 1);
    }
  }

  lemma ScannedEnds(buf: seq<octet>, lfn: bool, p: int, es: seq<Entry>, n: nat)
    requires Scanned(buf, lfn, p, es, n)
    ensures |buf| == 256 && buf[255] == 0
  {
    assert buf[255] == buf[p + 1..][254 - p];
  }

  // ----- Directories

  /** The root directory of a FAT16 volume is a run of sectors; every other directory is a cluster chain. */
  datatype Directory = Root | Chain(start: Place)

  function DirSector(v: Volume, dir: Directory, i: nat): int {
    if dir.Root? then v.rootSector + i else v.SectorOf(v.Advance(dir.start, i))
  }

  /** A stretch of the directory that is also a stretch of the volume. */
  ghost predicate Consecutive(v: Volume, dir: Directory, q: nat, count: nat, first: int) {
    forall i: nat | q <= i < q + count :: DirSector(v, dir, i) == first + (i - q)
  }

  /** The directory has k sectors. */
  ghost predicate HasSectors(v: Volume, dir: Directory, k: nat) {
    if dir.Root? then k == v.rootSectors
    else v.Reaches(dir.start, k) && !v.ValidCluster(v.Advance(dir.start, k).cluster)
  }

  function Pieces(s: Sector): (es: seq<Entry>)
    ensures |es| == 16
  {
    seq(16, j requires 0 <= j < 16 => s[32 * j..32 * j + 32])
  }

  /** The entries of the first k sectors of a directory, in order. */
  function Listing(v: Volume, dir: Directory, k: nat): (es: seq<Entry>)
    ensures |es| == 16 * k
  {
    if k == 0 then [] else Listing(v, dir, k - 1) + Pieces(v.disk(DirSector(v, dir, k - 1)))
  }

  lemma {:induction false} ListingAt(v: Volume, dir: Directory, k: nat, i: nat)
    requires i < k
    ensures Listing(v, dir, k)[16 * i..16 * i + 16] == Pieces(v.disk(DirSector(v, dir, i)))
  {
    hide DirSector, Pieces;
    var a, p := Listing(v, dir, k - 1), Pieces(v.disk(DirSector(v, dir, k - 1)));
    assert Listing(v, dir, k) == a + p;
    hide Listing;
    if i < k - 1 {
      ListingAt(v, dir, k - 1, i);
      SliceOfPrefix(a, p, 16 * i, 16);
    } else {
      SliceOfSuffix(a, p, 0, 16);
      assert p[0..16] == p;
    }
  }

  /** The directory does not end before entry n. */
  ghost predicate NoEnd(es: seq<Entry>, n: nat) { n <= |es| && forall j | 0 <= j < n :: !EndMark(es[j]) }

  /** Long names of at most nineteen entries fit the name buffer. What lies behind the end of the directory does not
      matter. */
  ghost predicate ShortRuns(es: seq<Entry>) {
    forall n: nat | NoEnd(es, n) :: Run(es, n) <= 19
  }

  /** Sectors a search must do without: those that always fail, or those that may. */
  predicate Bad(v: Volume, always: bool, s: int) { if always then v.MustFail(s) else v.MayFail(s) }

  /** Sector i of the directory is the last one of a cluster, or of the root directory. */
  predicate EndsRegion(v: Volume, dir: Directory, k: nat, i: nat) {
    if dir.Root? then i + 1 == k else v.Advance(dir.start, i).sector + 1 == v.sectorsPerCluster
  }

  /** The first m sectors of the directory can be read, and so can the sector behind each cluster among them. */
  ghost predicate Passable(v: Volume, dir: Directory, k: nat, m: nat, always: bool) {
    forall i: nat | i < m ::
      !Bad(v, always, DirSector(v, dir, i))
      && (EndsRegion(v, dir, k, i) ==> !Bad(v, always, DirSector(v, dir, i) + 1))
  }

  /** The sectors that a search reads before it sees the entries of sector m of the directory: those before it, the
      one behind each cluster that it leaves on the way, and sector m. */
  ghost predicate Trail(v: Volume, dir: Directory, k: nat, m: nat, always: bool) {
    Passable(v, dir, k, m, always) && !Bad(v, always, DirSector(v, dir, m))
  }

  ghost predicate Absent(es: seq<Entry>, n: nat, name: seq<octet>) {
    n <= |es| && forall j | 0 <= j < n :: !EndMark(es[j]) && !Hit(es, j, name)
  }

  /** What has been established when the search stops at an entry, or goes on to entry n. */
  ghost predicate Outcome(v: Verdict, es: seq<Entry>, n: nat, name: seq<octet>)
    requires v != Failed
  {
    match v
    case Opened => Found(es, n, name)
    case NoMore => forall i: nat :: !Found(es, i, name)
    case GoOn => Absent(es, n, name)
  }

  /** A failure is the fault of a sector on the way to the file, if it exists. */
  ghost predicate NoWay(v: Volume, dir: Directory, k: nat, es: seq<Entry>, name: seq<octet>) {
    forall i: nat | Found(es, i, name) :: !Trail(v, dir, k, i / 16, false)
  }

  lemma Decided(es: seq<Entry>, n: nat, name: seq<octet>)
    requires Absent(es, n, name) && n < |es|
    ensures Outcome(if EndMark(es[n]) then NoMore else if Hit(es, n, name) then Opened else GoOn, es,
                    if EndMark(es[n]) || Hit(es, n, name) then n else n + 1, name)
  {
    hide Hit;
    if EndMark(es[n]) {
      forall i: nat
        ensures !Found(es, i, name)
      {
        EndMarkIsNoHit(es, n, name);
      }
    }
  }

  /** The run behind an entry that does not end the directory is short. */
  lemma RunIsShort(es: seq<Entry>, n: nat, name: seq<octet>)
    requires ShortRuns(es) && Absent(es, n, name) && n < |es|
    ensures Run(es, n + 1) <= 19
  {
    hide Hit;
    if EndMark(es[n]) {
      assert Run(es, n + 1) == 0;
    } else {
      assert NoEnd(es, n + 1);
    }
  }

  lemma EndMarkIsNoHit(es: seq<Entry>, n: nat, name: seq<octet>)
    requires n < |es|
    ensures EndMark(es[n]) ==> !Hit(es, n, name)
  {
  }

  lemma SliceOfTail(was: seq<octet>, now: seq<octet>, o: nat, i: nat)
    requires |was| == |now| && o <= i && i + 32 <= |was| && was[o..] == now[o..]
    ensures was[i..i + 32] == now[i..i + 32]
  {
    assert was[i..i + 32] == was[o..][i - o..i - o + 32] && now[i..i + 32] == now[o..][i - o..i - o + 32];
  }

  /** The sixteen entries of the sector buffer. */
  method ScanEntries(d: Driver, name: seq<octet>, available: nat, lfn: bool, p: int,
                     ghost es: seq<Entry>, ghost base: nat)
      returns (v: Verdict, lfn': bool, p': int, ghost at: nat)
    requires d.Mounted() && available == 16 && base + 16 <= |es| && ShortRuns(es)
    requires forall j | 0 <= j < 16 :: d.sector_buf[32 * j..32 * j + 32] == es[base + j]
    requires Scanned(d.filename2[..], lfn, p, es, base) && Absent(es, base, name)
    modifies d, d.sector_buf, d.filename2
    ensures v != Failed && Outcome(v, es, at, name)
    ensures if v == Opened then d.Opened(es[at]) else unchanged(d)
    ensures v == GoOn ==> at == base + 16 && Scanned(d.filename2[..], lfn', p', es, at)
    ensures v == Opened ==> base <= at < base + 16
  {
    hide Hit, EndMark, Driver.Opened, Scanned, Found, ShortRuns;
    v, lfn', p', at := GoOn, lfn, p, base;
    var left := available;
    while 0 < left
      invariant 0 <= left <= 16 && at == base + (16 - left) && v == GoOn && unchanged(d)
      invariant forall j | 16 - left <= j < 16 :: d.sector_buf[32 * j..32 * j + 32] == es[base + j]
      invariant Scanned(d.filename2[..], lfn', p', es, at) && Absent(es, at, name)
    {
      var o := (0x10 - left) * 0x20;
      ghost var j := 16 - left;
      assert d.sector_buf[32 * j..32 * j + 32] == es[base + j];
      ghost var was := d.sector_buf[..];
      Decided(es, at, name);
      RunIsShort(es, at, name);
      v, lfn', p' := Examine(d, name, o, lfn', p', es, at);
      if v != GoOn {
        return;
      }
      left := left - 1;
      at := at + 1;
      ghost var now := d.sector_buf[..];
      forall j | 16 - left <= j < 16
        ensures d.sector_buf[32 * j..32 * j + 32] == es[base + j]
      {
        SliceOfTail(was, now, o + 32, 32 * j);
      }
    }
  }

  /** A cluster of the directory, or all of the root directory. */
  ghost predicate Region(v: Volume, dir: Directory, k: nat, q: nat, count: nat, first: int) {
    && q + count <= k && Consecutive(v, dir, q, count, first)
    && forall i: nat | q <= i < q + count :: EndsRegion(v, dir, k, i) <==> i + 1 == q + count
  }

  /** After n successful reads of a region: what has been read so far has not failed. */
  ghost predicate ReadSoFar(v: Volume, dir: Directory, k: nat, q: nat, count: nat, n: nat) {
    if n <= count
    then Passable(v, dir, k, q, true) && forall i: nat | q <= i < q + n :: !v.MustFail(DirSector(v, dir, i))
    else Passable(v, dir, k, q + count, true)
  }

  lemma OneMoreRead(v: Volume, dir: Directory, k: nat, q: nat, count: nat, first: int, n: nat)
    requires Region(v, dir, k, q, count, first) && n <= count && ReadSoFar(v, dir, k, q, count, n)
    requires !v.MustFail(first + n)
    ensures ReadSoFar(v, dir, k, q, count, n + 1)
  {
    hide DirSector, EndsRegion, Volume.MustFail;
    if n < count {
      assert DirSector(v, dir, q + n) == first + n;
    } else if 0 < count {
      assert DirSector(v, dir, q + count - 1) + 1 == first + count;
    }
  }

  lemma TrailSoFar(v: Volume, dir: Directory, k: nat, q: nat, count: nat, first: int, n: nat)
    requires Region(v, dir, k, q, count, first) && 0 < n <= count + 1 && ReadSoFar(v, dir, k, q, count, n)
    requires n == count + 1 ==> 0 < count
    ensures var r := if n <= count then n - 1 else count - 1; Trail(v, dir, k, q + r, true)
  {
    hide DirSector, EndsRegion, Volume.MustFail;
  }

  /** A failing sector lies on the way to every entry that has not been seen. */
  lemma FailureStops(v: Volume, dir: Directory, k: nat, q: nat, count: nat, first: int, n: nat, es: seq<Entry>,
                     name: seq<octet>)
    requires Region(v, dir, k, q, count, first) && n <= count && v.MayFail(first + n)
    requires |es| == 16 * k && Absent(es, 16 * (q + n), name)
    requires if dir.Root? then q == 0 && count == k else 0 < count
    ensures NoWay(v, dir, k, es, name)
  {
    hide DirSector, EndsRegion, Volume.MayFail, Hit, EndMark;
    forall i: nat | Found(es, i, name)
      ensures !Trail(v, dir, k, i / 16, false)
    {
      assert 16 * (q + n) <= i < |es|;
      assert q + n <= i / 16;
      if n < count {
        assert Bad(v, false, DirSector(v, dir, q + n));
      } else {
        assert DirSector(v, dir, q + count - 1) + 1 == first + count && EndsRegion(v, dir, k, q + count - 1);
      }
    }
  }

  /** A run of sectors of the directory. One sector more than the run has is read before the run is left. */
  method ScanRegion(d: Driver, name: seq<octet>, first: int, count: nat, lfn: bool, p: int,
                    ghost dir: Directory, ghost k: nat, ghost q: nat)
      returns (v: Verdict, lfn': bool, p': int, ghost at: nat)
    requires d.Mounted() && ShortRuns(Listing(d.volume, dir, k)) && Region(d.volume, dir, k, q, count, first)
    requires if dir.Root? then q == 0 && count == k else 0 < count
    requires Scanned(d.filename2[..], lfn, p, Listing(d.volume, dir, k), 16 * q)
    requires Absent(Listing(d.volume, dir, k), 16 * q, name) && Passable(d.volume, dir, k, q, true)
    modifies d, d.sector_buf, d.filename2
    ensures if v == Failed then NoWay(d.volume, dir, k, Listing(d.volume, dir, k), name)
            else Outcome(v, Listing(d.volume, dir, k), at, name)
    ensures if v == Opened then at < 16 * k && d.Opened(Listing(d.volume, dir, k)[at]) else unchanged(d)
    ensures v == Opened ==> Trail(d.volume, dir, k, at / 16, true)
    ensures v == GoOn ==> at == 16 * (q + count) && Scanned(d.filename2[..], lfn', p', Listing(d.volume, dir, k), at)
                          && Passable(d.volume, dir, k, q + count, true)
  {
    hide Hit, EndMark, Driver.Opened, Scanned, Absent, DirSector, Pieces, Listing, ShortRuns, Splice, Trail, Found,
      NoWay, EndsRegion, Volume.MustFail, Volume.MayFail;
    ghost var es := Listing(d.volume, dir, k);
    v, lfn', p', at := GoOn, lfn, p, 16 * q;
    var next_sector, rem_sectors, available_entries: nat := first, count, 0;
    while 0 <= rem_sectors
      invariant -1 <= rem_sectors <= count && v == GoOn && unchanged(d) && next_sector == first + (count - rem_sectors)
      invariant available_entries == if rem_sectors == count then 0 else 16
      invariant at == if rem_sectors == count then 16 * q else 16 * (q + (count - rem_sectors - 1))
      invariant 0 <= rem_sectors < count ==> d.sector_buf[..] == d.volume.disk(first + (count - rem_sectors - 1))
      invariant Scanned(d.filename2[..], lfn', p', es, at) && Absent(es, at, name)
      invariant ReadSoFar(d.volume, dir, k, q, count, count - rem_sectors)
    {
      ghost var n := count - rem_sectors;
      if 0 < available_entries {
        ListingAt(d.volume, dir, k, q + n - 1);
        BufferEntries(d, es, 16 * (q + n - 1));
        TrailSoFar(d.volume, dir, k, q, count, first, n);
        v, lfn', p', at := ScanEntries(d, name, available_entries, lfn', p', es, at);
        if v != GoOn {
          return;
        }
      }
      ghost var before := d.sector_buf[..];
      var res := d.ReadSector(next_sector, d.sector_buf, 0);
      if res < 0 {
        v := Failed;
        FailureStops(d.volume, dir, k, q, count, first, n, es, name);
        return;
      }
      SpliceWhole(before, d.volume.disk(next_sector));
      OneMoreRead(d.volume, dir, k, q, count, first, n);
      rem_sectors := rem_sectors - 1;
      next_sector := next_sector + 1;
      available_entries := 0x200 / 0x20;
    }
  }

  lemma BufferEntries(d: Driver, es: seq<Entry>, base: nat)
    requires d.sector_buf.Length == 0x200 && base + 16 <= |es| && es[base..base + 16] == Pieces(d.sector_buf[..])
    ensures forall j | 0 <= j < 16 :: d.sector_buf[32 * j..32 * j + 32] == es[base + j]
  {
    forall j | 0 <= j < 16
      ensures d.sector_buf[32 * j..32 * j + 32] == es[base + j]
    {
      assert es[base + j] == es[base..base + 16][j];
      assert d.sector_buf[32 * j..32 * j + 32] == d.sector_buf[..][32 * j..32 * j + 32];
    }
  }

  /** The sectors of one cluster follow each other, and then comes the next cluster. */
  lemma {:induction false} InCluster(v: Volume, start: Place, q: nat, r: nat)
    requires v.Advance(start, q).sector == 0 && r <= v.sectorsPerCluster
    ensures var c := v.Advance(start, q).cluster;
            v.Advance(start, q + r) == if r < v.sectorsPerCluster || r == 0 then Place(c, r) else Place(v.Next(c), 0)
  {
    hide Volume.Next;
    if r != 0 {
      InCluster(v, start, q, r - 1);
    }
  }

  /** A cluster that is not past the end of a chain lies inside it whole. */
  lemma ClusterInside(v: Volume, start: Place, k: nat, q: nat)
    requires v.Sound() && HasSectors(v, Chain(start), k) && q <= k
    requires v.Advance(start, q).sector == 0 && v.ValidCluster(v.Advance(start, q).cluster)
    ensures Region(v, Chain(start), k, q, v.sectorsPerCluster, v.SectorOf(Place(v.Advance(start, q).cluster, 0)))
  {
    hide Volume.Next, Volume.ValidCluster, Volume.Advance;
    forall i: nat | q <= i < q + v.sectorsPerCluster
      ensures DirSector(v, Chain(start), i) == v.SectorOf(Place(v.Advance(start, q).cluster, 0)) + (i - q)
      ensures EndsRegion(v, Chain(start), k, i) <==> i + 1 == q + v.sectorsPerCluster
    {
      InCluster(v, start, q, i - q);
      assert q + (i - q) == i;
    }
    if k < q + v.sectorsPerCluster {
      InCluster(v, start, q, k - q);
    }
  }

  lemma RootRegion(v: Volume)
    ensures Region(v, Root, v.rootSectors, 0, v.rootSectors, v.rootSector)
  {
  }

  /** MsFatFindFile. `k` is the number of sectors of the directory, which exists because its chain is not circular.
      The file is opened if the sectors on the way to it can be read, and not if one of them fails; where faults are
      certain, that is if and only if. */
  method FindFile(d: Driver, dir_cluster: nat, name: seq<octet>, rootcase: bool, ghost k: nat)
      returns (res: int, ghost at: nat)
    requires d.Mounted()
    requires !rootcase && d.volume.ValidCluster(dir_cluster) ==> dir_cluster < d.volume.entries
    requires HasSectors(d.volume, Dir(dir_cluster, rootcase), k)
    requires ShortRuns(Listing(d.volume, Dir(dir_cluster, rootcase), k))
    modifies d, d.sector_buf, d.filename2
    ensures res == 0 || res == -1
    ensures var dir := Dir(dir_cluster, rootcase); var es := Listing(d.volume, dir, k);
            if res == 0 then Found(es, at, name) && d.Opened(es[at]) && Trail(d.volume, dir, k, at / 16, true)
            else unchanged(d) && NoWay(d.volume, dir, k, es, name)
    ensures Certain(d.volume) ==> (res == 0 <==> InReach(d.volume, Dir(dir_cluster, rootcase), k, name))
  {
    hide Driver.Opened, Scanned, Listing, Hit, EndMark, Volume.ValidCluster, Volume.Next, Volume.SectorOf, DirSector,
      Trail, Passable, EndsRegion, Found, InReach, Certain;
    ghost var dir := Dir(dir_cluster, rootcase);
    ghost var es := Listing(d.volume, dir, k);
    var lfn, p := false, 254;
    d.filename2[255] := 0;
    NothingScanned(d.filename2[..], es, 0);
    NothingPassed(d.volume, dir, k);
    ghost var q: nat := 0;
    at := 0;
    var cluster: nat := dir_cluster;
    while d.volume.ValidCluster(cluster) || rootcase
      invariant q <= k && at == 16 * q && unchanged(d) && Passable(d.volume, dir, k, q, true)
      invariant Scanned(d.filename2[..], lfn, p, es, at) && Absent(es, at, name)
      invariant if rootcase then q == 0
                else d.volume.Advance(dir.start, q) == Place(cluster, 0)
                     && (d.volume.ValidCluster(cluster) ==> cluster < d.volume.entries)
      decreases k - q
    {
      var next_sector, rem_sectors;
      if rootcase {
        next_sector, rem_sectors := d.volume.rootSector, d.volume.rootSectors;
        RootRegion(d.volume);
      } else {
        next_sector, rem_sectors := d.volume.SectorOf(Place(cluster, 0)), d.volume.sectorsPerCluster;
        ClusterInside(d.volume, dir.start, k, q);
        InCluster(d.volume, dir.start, q, rem_sectors);
      }
      var v;
      v, lfn, p, at := ScanRegion(d, name, next_sector, rem_sectors, lfn, p, dir, k, q);
      if v == Opened {
        Reached(d.volume, dir, k, at, name);
        return 0, at;
      }
      if v != GoOn {
        OutOfReach(d.volume, dir, k, name);
        return -1, at;
      }
      q := q + rem_sectors;
      if rootcase {
        break;
      }
      cluster := d.GetNextCluster(cluster);
    }
    NoneLeft(es, name);
    OutOfReach(d.volume, dir, k, name);
    res := -1;
  }

  /** No sector fails now and then. */
  ghost predicate Certain(v: Volume) { forall s: int :: v.fault(s) != Sometimes }

  /** There is a first entry with the name, and every sector that is read on the way to it can be read. */
  ghost predicate InReach(v: Volume, dir: Directory, k: nat, name: seq<octet>) {
    exists n: nat :: Found(Listing(v, dir, k), n, name) && Trail(v, dir, k, n / 16, true)
  }

  lemma Reached(v: Volume, dir: Directory, k: nat, n: nat, name: seq<octet>)
    requires Found(Listing(v, dir, k), n, name) && Trail(v, dir, k, n / 16, true)
    ensures InReach(v, dir, k, name)
  {
    hide Found, Trail;
  }

  lemma OutOfReach(v: Volume, dir: Directory, k: nat, name: seq<octet>)
    requires NoWay(v, dir, k, Listing(v, dir, k), name)
    ensures Certain(v) ==> !InReach(v, dir, k, name)
  {
    hide Found, Listing;
    if Certain(v) {
      forall n: nat | Found(Listing(v, dir, k), n, name)
        ensures !Trail(v, dir, k, n / 16, true)
      {
        if Trail(v, dir, k, n / 16, true) {
          SameTrail(v, dir, k, n / 16);
        }
      }
    }
  }

  lemma SameTrail(v: Volume, dir: Directory, k: nat, m: nat)
    requires Certain(v) && Trail(v, dir, k, m, true)
    ensures Trail(v, dir, k, m, false)
  {
    hide EndsRegion, DirSector;
  }

  function Dir(cluster: nat, rootcase: bool): Directory { if rootcase then Root else Chain(Place(cluster, 0)) }

  lemma NothingPassed(v: Volume, dir: Directory, k: nat)
    ensures Passable(v, dir, k, 0, true)
  {
  }

  /** All entries have been seen. */
  lemma NoneLeft(es: seq<Entry>, name: seq<octet>)
    requires Absent(es, |es|, name)
    ensures forall i: nat :: !Found(es, i, name)
  {
    hide Hit, EndMark;
  }
}
