/** A FAT16 or FAT32 volume as ipl/common/fat.c sees it: sectors, the allocation table, cluster chains. */
module FatVolume {
  import opened Octets

  type Sector = s: seq<octet> | |s| == 0x200 witness seq(0x200, _ => 0)

  datatype FatType = Fat16 | Fat32

  /** How reading a sector can turn out. */
  datatype Fault = Never | Sometimes | Always

  /** The volume's parameters after mounting, its sectors, and how reading them can fail. The allocation table has
      `entries` entries. */
  datatype Volume = Volume(disk: int -> Sector, fault: int -> Fault, fatType: FatType, firstFat: nat, entries: nat,
                           firstData: nat, sectorsPerCluster: nat, rootSector: nat, rootSectors: nat)
  {
    predicate MayFail(s: int) { fault(s) != Never }
    predicate MustFail(s: int) { fault(s) == Always }

    /** Where the table entry of a cluster is. */
    function FatSector(c: nat): int { firstFat + c * Width() / 0x200 }
    function FatOffset(c: nat): nat { c * Width() % 0x200 }
    function Width(): nat { if fatType == Fat16 then 2 else 4 }

    lemma EntryInsideSector(c: nat)
      ensures FatOffset(c) + Width() <= 0x200
    {
      WholeEntries(c);
    }

    /** The table entry of a cluster as it is stored. */
    function Entry(c: nat): nat {
      EntryInsideSector(c);
      var s, o := disk(FatSector(c)), FatOffset(c);
      if fatType == Fat16 then Little16(s[o..o + 2]) else Little32(s[o..o + 4])
    }

    /** The next cluster: the four upper bits of a FAT32 entry are reserved. */
    function Next(c: nat): nat { if fatType == Fat16 then Entry(c) else Entry(c) % 0x10000000 }

    /** MsFatIsValidCluster. */
    predicate ValidCluster(c: nat) {
      if fatType == Fat16 then 0x0002 <= c <= 0xFFF6
      else 0x00000002 <= c % 0x10000000 <= 0x0FFFFFF6
    }

    function SectorOf(p: Place): int { (p.cluster - 2) * sectorsPerCluster + firstData + p.sector }

    /** One sector further along the chain. */
    function After(p: Place): Place {
      if p.sector + 1 < sectorsPerCluster then Place(p.cluster, p.sector + 1) else Place(Next(p.cluster), 0)
    }

    function Advance(p: Place, k: nat): Place { if k == 0 then p else After(Advance(p, k - 1)) }

    /** The first k sectors of a chain from p, one after the other. */
    function Stream(p: Place, k: nat): (b: seq<octet>)
      ensures |b| == 0x200 * k
    {
      if k == 0 then [] else Stream(p, k - 1) + disk(SectorOf(Advance(p, k - 1)))
    }

    /** The chain does not end before k sectors from p. */
    ghost predicate Reaches(p: Place, k: nat) {
      forall j: nat | j < k :: ValidCluster(Advance(p, j).cluster)
    }

    /** A table entry that can be read, has its reserved bits clear, and does not lead out of the table. */
    predicate GoodEntry(c: nat) {
      !MayFail(FatSector(c)) && Entry(c) == Next(c) && (ValidCluster(Next(c)) ==> Next(c) < entries)
    }

    /** The allocation table is good. Nothing is said about any other sector. */
    ghost predicate Sound() {
      0 < sectorsPerCluster && forall c: nat | c < entries :: GoodEntry(c)
    }
  }

  lemma WholeEntries(c: nat)
    ensures c * 2 % 0x200 + 2 <= 0x200 && c * 4 % 0x200 + 4 <= 0x200
  {
    OffsetIs(c * 2, c / 0x100, 2 * (c % 0x100));
    OffsetIs(c * 4, c / 0x80, 4 * (c % 0x80));
  }

  lemma OffsetIs(x: nat, q: nat, r: nat)
    requires r < 0x200 && x == 0x200 * q + r
    ensures x % 0x200 == r
  {
  }

  /** A sector of a cluster. */
  datatype Place = Place(cluster: nat, sector: nat)

  lemma {:induction false} AdvanceTwice(v: Volume, p: Place, j: nat, k: nat)
    ensures v.Advance(v.Advance(p, j), k) == v.Advance(p, j + k)
  {
    hide v.After;
    if k != 0 {
      AdvanceTwice(v, p, j, k - 1);
    }
  }

  lemma {:induction false} StreamSplits(v: Volume, p: Place, j: nat, k: nat)
    ensures v.Stream(p, j + k) == v.Stream(p, j) + v.Stream(v.Advance(p, j), k)
  {
    if k == 0 {
      assert v.Stream(p, j) + [] == v.Stream(p, j);
    } else {
      StreamSplits(v, p, j, k - 1);
      AdvanceTwice(v, p, j, k - 1);
    }
  }

  /** The j-th sector of a stream. */
  lemma StreamSector(v: Volume, p: Place, k: nat, j: nat)
    requires j < k
    ensures v.Stream(p, k)[0x200 * j..0x200 * j + 0x200] == v.disk(v.SectorOf(v.Advance(p, j)))
  {
    var a, b := v.Stream(p, j + 1), v.Stream(v.Advance(p, j + 1), k - j - 1);
    StreamSplits(v, p, j + 1, k - j - 1);
    hide Volume.Stream, Volume.Advance;
    StreamGrows(v, p, j);
    Between(v.Stream(p, j), v.disk(v.SectorOf(v.Advance(p, j))), b);
  }

  lemma Between(s: seq<octet>, d: Sector, b: seq<octet>)
    ensures ((s + d) + b)[|s|..|s| + 0x200] == d
  {
  }

  lemma StreamGrows(v: Volume, p: Place, j: nat)
    ensures v.Stream(p, j + 1) == v.Stream(p, j) + v.disk(v.SectorOf(v.Advance(p, j)))
  {
  }

  /** Whether a volume is sound depends on the sectors of its allocation table only: data, directories and the faults
      of all other sectors are free. */
  lemma OnlyTheTableMatters(v: Volume, w: Volume)
    requires w == v.(disk := w.disk, fault := w.fault)
    requires forall s: int | v.firstFat <= s < v.firstFat + (v.entries * v.Width() + 0x1ff) / 0x200 ::
               v.disk(s) == w.disk(s) && v.fault(s) == w.fault(s)
    ensures v.Sound() <==> w.Sound()
  {
    forall c: nat | c < v.entries
      ensures v.GoodEntry(c) == w.GoodEntry(c)
    {
      SectorInTable(c, v.entries, v.Width());
      assert v.FatSector(c) == w.FatSector(c);
    }
  }

  lemma SectorInTable(c: nat, n: nat, width: nat)
    requires c < n && (width == 2 || width == 4)
    ensures c * width / 0x200 < (n * width + 0x1ff) / 0x200
  {
  }
}
