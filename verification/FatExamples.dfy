/** Volumes that show what the results about ipl/common/fat.c cover. */
module FatExamples {
  import opened Octets
  import opened FatVolume
  import opened FatNames
  import opened FatFind

  /** A directory sector with one entry, for a file named A without extension. */
  function NamedSector(): Sector {
    seq(0x200, i => if i == 0 then 'A' as octet else if 0 < i < 12 then 0x20 else 0)
  }

  function ZeroSector(): Sector { seq(0x200, i => 0) }

  /** A directory sector of sixteen deleted entries. */
  function DeletedSector(): Sector { seq(0x200, i => 0xE5) }

  /** A FAT16 table in which cluster 4 follows cluster 2 and ends the chain. */
  function TableSector(): Sector { seq(0x200, i => if i == 4 then 4 else if i == 8 || i == 9 then 0xFF else 0) }

  lemma EntryOfA(es: seq<Entry>, n: nat)
    requires n < |es| && es[n] == NamedSector()[0..32]
    ensures Hit(es, n, ['A' as octet])
  {
    var e, name: seq<octet> := es[n], ['A' as octet];
    assert e[0] == name[0] && forall i | 0 < i < 12 :: e[i] == 0x20;
    hide NamedSector, Hit, ShortName, Trimmed, CString;
    OnlySpaces(e[1..8]);
    OnlySpaces(e[8..11]);
    assert name[1..] + Spaces(7) == Spaces(7) && [] + Spaces(3) == Spaces(3);
    ShortNameReadBack(e, name, []);
    assert name + [] == name;
    NamedIsHit(es, n, name);
  }

  lemma OnlySpaces(s: seq<octet>)
    requires forall i | 0 <= i < |s| :: s[i] == 0x20
    ensures s == Spaces(|s|)
  {
  }

  lemma NamedIsHit(es: seq<Entry>, n: nat, name: seq<octet>)
    requires n < |es| && Live(es[n]) && FirstByte(es[n]) != 0x20 && CString(ShortName(es[n])) == name
    ensures Hit(es, n, name)
  {
    hide CString, ShortName;
  }

  /** A FAT32 volume whose root directory holds the file A, and one of whose data sectors can never be read. */
  function NamedDisk(s: int): Sector { if s == 10 then NamedSector() else ZeroSector() }

  function EleventhFails(s: int): Fault { if s == 11 then Always else Never }

  function NamedVolume(): Volume { Volume(NamedDisk, EleventhFails, Fat32, 1, 3, 10, 1, 0, 0) }

  lemma NamedVolumeIsSound()
    ensures NamedVolume().Sound() && NamedVolume().MustFail(11)
  {
    forall c: nat | c < 3
      ensures NamedVolume().GoodEntry(c)
    {
      NamedTable(c);
    }
  }

  lemma NamedDirectory()
    ensures var v, dir := NamedVolume(), Chain(Place(2, 0));
            HasSectors(v, dir, 1) && DirSector(v, dir, 0) == 10 && Trail(v, dir, 1, 0, false)
  {
    var v, start := NamedVolume(), Place(2, 0);
    NamedTable(2);
    FirstSteps(v, start);
    hide Volume.Next, Volume.Advance, NamedDisk;
  }

  lemma FirstSteps(v: Volume, p: Place)
    ensures v.Advance(p, 0) == p && v.Advance(p, 1) == v.After(p)
  {
    hide Volume.After;
  }

  /** The file A can be found on it. */
  lemma NamedEntries(name: seq<octet>)
    requires name == ['A' as octet]
    ensures InReach(NamedVolume(), Chain(Place(2, 0)), 1, name)
  {
    var v, dir := NamedVolume(), Chain(Place(2, 0));
    NamedDirectory();
    OneSector(v, dir);
    hide Listing, Hit, DirSector, Trail;
    EntryOfA(Listing(v, dir, 1), 0);
    Reached(v, dir, 1, 0, name);
  }

  lemma NamedTable(c: nat)
    requires c < 3
    ensures NamedVolume().Entry(c) == 0 == NamedVolume().Next(c) && NamedVolume().FatSector(c) == 1
  {
    var v := NamedVolume();
    v.EntryInsideSector(c);
    var s, o := v.disk(1), v.FatOffset(c);
    assert s[o..o + 4] == [0, 0, 0, 0];
  }

  lemma OneSector(v: Volume, dir: Directory)
    ensures Listing(v, dir, 1) == Pieces(v.disk(DirSector(v, dir, 0)))
  {
    assert Listing(v, dir, 0) == [];
  }

  lemma TwoSectors(v: Volume, dir: Directory)
    ensures Listing(v, dir, 2) == Pieces(v.disk(DirSector(v, dir, 0))) + Pieces(v.disk(DirSector(v, dir, 1)))
  {
    OneSector(v, dir);
  }

  /** A directory in clusters 2 and 4, the file A in the second one; only the sector behind cluster 2, which belongs to
      something else, cannot be read. */
  function SplitDisk(s: int): Sector {
    if s == 1 then TableSector() else if s == 12 then NamedSector() else DeletedSector()
  }

  function SplitVolume(): Volume { Volume(SplitDisk, EleventhFails, Fat16, 1, 5, 10, 1, 0, 0) }

  lemma SplitTable(c: nat)
    requires c < 5
    ensures var n := if c == 2 then 4 else if c == 4 then 0xFFFF else 0;
            SplitVolume().Entry(c) == n == SplitVolume().Next(c)
    ensures SplitVolume().FatSector(c) == 1
  {
    var v := SplitVolume();
    v.EntryInsideSector(c);
    var s, o := v.disk(1), v.FatOffset(c);
    assert s[o..o + 2] == [s[2 * c], s[2 * c + 1]];
  }

  lemma SplitVolumeIsSound()
    ensures SplitVolume().Sound() && Certain(SplitVolume())
  {
    var v := SplitVolume();
    forall c: nat | c < 5
      ensures v.GoodEntry(c)
    {
      SplitTable(c);
    }
  }

  lemma SplitDirectory()
    ensures var v, dir := SplitVolume(), Chain(Place(2, 0));
            && HasSectors(v, dir, 2) && DirSector(v, dir, 0) == 10 && DirSector(v, dir, 1) == 12
            && EndsRegion(v, dir, 2, 0)
  {
    var v, start := SplitVolume(), Place(2, 0);
    SplitTable(2);
    SplitTable(4);
    hide Volume.Next;
    assert v.Advance(start, 0) == start;
    assert v.Advance(start, 1) == Place(4, 0);
    assert v.Advance(start, 2) == Place(0xFFFF, 0);
  }

  lemma SplitEntries(name: seq<octet>)
    requires name == ['A' as octet]
    ensures Found(Listing(SplitVolume(), Chain(Place(2, 0)), 2), 16, name)
  {
    var v, dir := SplitVolume(), Chain(Place(2, 0));
    var es := Listing(v, dir, 2);
    SplitDirectory();
    TwoSectors(v, dir);
    hide Listing, DirSector, Hit;
    forall j | 0 <= j < 16
      ensures !EndMark(es[j]) && !Hit(es, j, name)
    {
      assert es[j] == DeletedSector()[32 * j..32 * j + 32];
      DeletedIsNoHit(es, j, name);
    }
    EntryOfA(es, 16);
  }

  lemma DeletedIsNoHit(es: seq<Entry>, n: nat, name: seq<octet>)
    requires n < |es| && es[n][0] == 0xE5
    ensures !Hit(es, n, name)
  {
  }

  lemma SplitTrail(v: Volume, dir: Directory)
    requires v.fault == EleventhFails && EndsRegion(v, dir, 2, 0)
    requires DirSector(v, dir, 0) == 10 && DirSector(v, dir, 1) == 12
    ensures (forall i: nat | i < 2 :: !v.MayFail(DirSector(v, dir, i))) && !Trail(v, dir, 2, 1, true)
  {
    hide DirSector, EndsRegion;
    assert Bad(v, true, DirSector(v, dir, 0) + 1);
  }

  lemma Blocked(v: Volume, dir: Directory, k: nat, n: nat, name: seq<octet>)
    requires Found(Listing(v, dir, k), n, name) && !Trail(v, dir, k, n / 16, true)
    ensures !InReach(v, dir, k, name)
  {
    hide Found, Trail, Listing;
    forall m: nat | Found(Listing(v, dir, k), m, name)
      ensures m == n
    {
      FoundIsUnique(Listing(v, dir, k), m, n, name);
    }
  }

  /** The directory can be read, and the file is in it; but the search does not get there. */
  lemma OneSectorTooMany()
    ensures var v, dir, name := SplitVolume(), Chain(Place(2, 0)), ['A' as octet];
            && v.Sound() && Certain(v) && HasSectors(v, dir, 2) && Found(Listing(v, dir, 2), 16, name)
            && (forall i: nat | i < 2 :: !v.MayFail(DirSector(v, dir, i)))
            && !InReach(v, dir, 2, name)
  {
    hide Listing, Found, DirSector, Volume.Sound, Volume.MayFail, HasSectors, EndsRegion, Certain, InReach, Trail,
      SplitDisk,
      EleventhFails, Volume.ValidCluster;
    SplitVolumeIsSound();
    SplitDirectory();
    SplitEntries(['A' as octet]);
    SplitTrail(SplitVolume(), Chain(Place(2, 0)));
    Blocked(SplitVolume(), Chain(Place(2, 0)), 2, 16, ['A' as octet]);
  }
}
