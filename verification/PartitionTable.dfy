/** The partition tables that modules/lflash_fdisk/main.c writes. */
module PartitionTable {
  import opened Octets
  import opened Words

  /** The geometry: heads, sectors of a track, cylinders. */
  datatype Geometry = Geometry(heads: nat, track: nat, cylinders: nat) {
    ghost predicate Valid() { 0 < heads && 0 < track && heads * track < 0x1_0000_0000 && 0 < cylinders <= 1024 }

    /** Addresses that three bytes can hold. */
    ghost predicate Addressable() { Valid() && heads <= 256 && track <= 64 }

    function Cylinder(): nat { heads * track }
  }

  // ----- Cylinder, head, sector

  function TrackOf(g: Geometry, a: nat): nat
    requires g.Valid()
  {
    a / g.track
  }

  function CylinderOf(g: Geometry, a: nat): nat
    requires g.Valid()
  {
    hide TrackOf;
    TrackOf(g, a) / g.heads
  }

  function HeadOf(g: Geometry, a: nat): nat
    requires g.Valid()
  {
    hide TrackOf;
    TrackOf(g, a) % g.heads
  }

  function SectorOf(g: Geometry, a: nat): nat
    requires g.Valid()
  {
    a % g.track
  }

  /** The cylinder of an address is beyond the last one. */
  predicate Beyond(g: Geometry, a: nat)
    requires g.Valid()
  {
    g.cylinders <= CylinderOf(g, a)
  }

  /** The upper two bits of a cylinder and the six bits of a sector. */
  function Pack(c: nat, s: nat): octet { (c / 256 % 4 * 64 + s % 64) as octet }

  /** SetCHS: an address beyond the last cylinder goes to the last cylinder; sectors count from zero. */
  function Chs(g: Geometry, a: nat): (b: seq<octet>)
    requires g.Valid()
    ensures |b| == 3
  {
    hide CylinderOf, HeadOf, SectorOf, Pack;
    var c := if Beyond(g, a) then g.cylinders - 1 else CylinderOf(g, a);
    [Low(HeadOf(g, a)), Pack(c, SectorOf(g, a)), Low(c)]
  }

  /** The address that three bytes stand for. */
  function Address(g: Geometry, b: seq<octet>): nat
    requires |b| == 3
  {
    Unpacked(g, b[2] as nat + b[1] as nat / 64 * 256, b[0] as nat, b[1] as nat % 64)
  }

  function Unpacked(g: Geometry, c: nat, h: nat, s: nat): nat { (c * g.heads + h) * g.track + s }

  lemma Quotient(a: nat, n: nat)
    requires 0 < n
    ensures a / n * n + a % n == a && a % n < n
  {
  }

  lemma PartsOfAddress(g: Geometry, a: nat)
    requires g.Valid()
    ensures Unpacked(g, CylinderOf(g, a), HeadOf(g, a), SectorOf(g, a)) == a
    ensures HeadOf(g, a) < g.heads && SectorOf(g, a) < g.track
  {
    Quotient(a, g.track);
    Quotient(a / g.track, g.heads);
  }

  lemma PackReadBack(c: nat, s: nat)
    requires c < 1024 && s < 64
    ensures Pack(c, s) as nat / 64 * 256 + c % 256 == c && Pack(c, s) as nat % 64 == s
  {
    var q := c / 256;
    assert q < 4;
    assert (q * 64 + s) / 64 == q;
  }

  /** An address within the geometry comes back from its three bytes. */
  lemma ChsReadBack(g: Geometry, a: nat)
    requires g.Addressable() && !Beyond(g, a)
    ensures Address(g, Chs(g, a)) == a
  {
    hide CylinderOf, HeadOf, SectorOf, Pack, Unpacked;
    PartsOfAddress(g, a);
    PackReadBack(CylinderOf(g, a), SectorOf(g, a));
  }

  /** Which is for addresses below the number of sectors that the cylinders hold. */
  lemma BeyondMeans(g: Geometry, a: nat)
    requires g.Valid()
    ensures Beyond(g, a) <==> g.cylinders * (g.heads * g.track) <= a
  {
    hide CylinderOf, HeadOf, SectorOf;
    PartsOfAddress(g, a);
    var c, h, s := CylinderOf(g, a), HeadOf(g, a), SectorOf(g, a);
    Regroup(c, h, s, g.heads, g.track);
    if g.cylinders <= c {
      Monotone(g.cylinders, c, g.heads * g.track);
    } else {
      Monotone(c + 1, g.cylinders, g.heads * g.track);
    }
  }

  lemma Regroup(c: nat, h: nat, s: nat, heads: nat, track: nat)
    requires h < heads && s < track
    ensures (c * heads + h) * track + s == c * (heads * track) + (h * track + s)
    ensures h * track + s < heads * track
    ensures (c + 1) * (heads * track) == c * (heads * track) + heads * track
  {
    assert (h + 1) * track <= heads * track;
  }

  lemma Monotone(a: nat, b: nat, n: nat)
    requires a <= b
    ensures a * n <= b * n
  {
  }

  // ----- Records and tables

  /** The partition type: CHS-addressed types only if both ends are within the geometry. */
  function Type(extended: bool, chs: bool, len: nat): octet {
    if extended then (if chs then 0x5 else 0xF)
    else if chs then (if 0x800000 <= len then 0xB else if 0x10000 <= len then 0x6 else 0x1)
    else if 0x800000 <= len then 0xC else 0xE
  }

  predicate IsExtended(t: octet) { t == 0x5 || t == 0xF }

  /** create_partition_record. The start is stored relative to a base. */
  function Record(g: Geometry, lba: bool, start: int, len: int, extended: bool, base: int): (r: seq<octet>)
    requires g.Valid()
    ensures |r| == 16
  {
    hide Chs, Beyond, Type, Put32;
    var last := W(start + len - 1);
    [0] + Chs(g, W(start)) + [Type(extended, !Beyond(g, W(start)) && !Beyond(g, last) && !lba, W(len))] + Chs(g, last)
    + Put32(W(start - base)) + Put32(W(len))
  }

  function TypeOf(r: seq<octet>): octet
    requires |r| == 16
  {
    r[4]
  }

  function StartOf(r: seq<octet>): nat
    requires |r| == 16
  {
    Little32(r[8..12])
  }

  function LengthOf(r: seq<octet>): nat
    requires |r| == 16
  {
    Little32(r[12..16])
  }

  lemma RecordReadBack(g: Geometry, lba: bool, start: int, len: int, extended: bool, base: int)
    requires g.Valid()
    ensures var r := Record(g, lba, start, len, extended, base);
            StartOf(r) == W(start - base) && LengthOf(r) == W(len)
            && TypeOf(r) != 0 && (IsExtended(TypeOf(r)) <==> extended)
  {
    hide Chs, Beyond, Put32, Little32;
    LoadStored32(W(start - base));
    LoadStored32(W(len));
    var r := Record(g, lba, start, len, extended, base);
    assert r[8..12] == Put32(W(start - base)) && r[12..16] == Put32(W(len));
  }

  function Blank(n: nat): (z: seq<octet>)
    ensures |z| == n
  {
    seq(n, _ => 0)
  }

  /** A sector with two partition records. */
  function Table(first: seq<octet>, second: seq<octet>, size: nat): (s: seq<octet>)
    requires |first| == |second| == 16 && 0x200 <= size
    ensures |s| == size
  {
    Blank(0x1BE) + first + second + Blank(32) + [0x55, 0xAA] + Blank(size - 0x200)
  }

  predicate IsTable(s: seq<octet>) { 0x200 <= |s| && s[0x1FE] == 0x55 && s[0x1FF] == 0xAA }

  function FirstOf(s: seq<octet>): (r: seq<octet>)
    requires IsTable(s)
    ensures |r| == 16
  {
    s[0x1BE..0x1CE]
  }

  function SecondOf(s: seq<octet>): (r: seq<octet>)
    requires IsTable(s)
    ensures |r| == 16
  {
    s[0x1CE..0x1DE]
  }

  lemma TableReadBack(first: seq<octet>, second: seq<octet>, size: nat)
    requires |first| == |second| == 16 && 0x200 <= size
    ensures var s := Table(first, second, size); IsTable(s) && FirstOf(s) == first && SecondOf(s) == second
  {
    var s := Table(first, second, size);
    assert s == Blank(0x1BE) + first + (second + Blank(32) + [0x55, 0xAA] + Blank(size - 0x200));
    assert s == (Blank(0x1BE) + first) + second + (Blank(32) + [0x55, 0xAA] + Blank(size - 0x200));
  }

  /** The first sector of the device: one extended partition for everything. */
  function MasterSector(g: Geometry, lba: bool, numblocks: int, size: nat): seq<octet>
    requires g.Valid() && 0x200 <= size
  {
    Table(Record(g, lba, g.Cylinder(), numblocks, true, 0), Blank(16), size)
  }

  /** The sector in front of a partition: the partition itself, and the place of the next one, if there is one. */
  function PartitionSector(g: Geometry, lba: bool, at: int, len: int, next: int, size: nat): seq<octet>
    requires g.Valid() && 0x200 <= size
  {
    Table(Record(g, lba, at + g.track, len - g.track, false, at),
          if next == 0 then Blank(16) else Record(g, lba, at + len, next, true, g.Cylinder()), size)
  }

  // ----- Reading the chain of tables

  datatype Partition = Partition(start: nat, length: nat)

  type Disk = map<int, seq<octet>>

  /** The list of partitions that the tables from sector `at` on describe, in an extended partition that starts at
      `ext`: each table holds one partition, relative to itself, and perhaps a link to the next table. */
  predicate Lists(disk: Disk, ext: nat, at: nat, list: seq<Partition>)
    decreases |list|
  {
    && list != [] && at in disk && IsTable(disk[at])
    && var first, second := FirstOf(disk[at]), SecondOf(disk[at]);
       && TypeOf(first) != 0 && !IsExtended(TypeOf(first))
       && list[0] == Partition(at + StartOf(first), LengthOf(first))
       && if |list| == 1 then TypeOf(second) == 0
          else IsExtended(TypeOf(second)) && Lists(disk, ext, ext + StartOf(second), list[1..])
  }

  lemma {:induction false} ListsOne(disk: Disk, ext: nat, at: nat, a: seq<Partition>, b: seq<Partition>)
    requires Lists(disk, ext, at, a) && Lists(disk, ext, at, b)
    ensures a == b
    decreases |a|
  {
    hide FirstOf, SecondOf, StartOf, LengthOf, IsTable;
    if |a| == 1 {
      assert a == b;
    } else {
      ListsOne(disk, ext, ext + StartOf(SecondOf(disk[at])), a[1..], b[1..]);
      assert a == [a[0]] + a[1..] && b == [b[0]] + b[1..];
    }
  }

  // ----- The layout

  function Sum(sizes: seq<int>): int { if sizes == [] then 0 else Sum(sizes[..|sizes| - 1]) + sizes[|sizes| - 1] }

  /** Where the table of partition i is. */
  function Place(g: Geometry, sizes: seq<int>, i: nat): int
    requires i <= |sizes|
  {
    g.Cylinder() + Sum(sizes[..i])
  }

  /** Every partition is longer than the track in front of it, and everything fits 31 bits. */
  ghost predicate Sane(g: Geometry, sizes: seq<int>) {
    && g.Valid() && (forall i | 0 <= i < |sizes| :: g.track < sizes[i])
    && g.Cylinder() + Sum(sizes) < 0x8000_0000
  }

  lemma PlaceNext(g: Geometry, sizes: seq<int>, i: nat)
    requires i < |sizes|
    ensures Place(g, sizes, i + 1) == Place(g, sizes, i) + sizes[i]
  {
    assert sizes[..i + 1][..i] == sizes[..i];
  }

  lemma {:induction false} PlacesGrow(g: Geometry, sizes: seq<int>, i: nat, j: nat)
    requires Sane(g, sizes) && i <= j <= |sizes|
    ensures Place(g, sizes, i) <= Place(g, sizes, j) && (i < j ==> Place(g, sizes, i) + sizes[i] <= Place(g, sizes, j))
    decreases j - i
  {
    hide Place;
    if i < j {
      PlaceNext(g, sizes, i);
      PlacesGrow(g, sizes, i + 1, j);
    }
  }

  lemma PlaceBounds(g: Geometry, sizes: seq<int>, i: nat)
    requires Sane(g, sizes) && i <= |sizes|
    ensures 0 < g.Cylinder() <= Place(g, sizes, i) <= g.Cylinder() + Sum(sizes) < 0x8000_0000
  {
    PlacesGrow(g, sizes, 0, i);
    PlacesGrow(g, sizes, i, |sizes|);
    assert sizes[..0] == [] && sizes[..|sizes|] == sizes;
    ProductPositive(g.heads, g.track);
  }

  lemma ProductPositive(a: nat, b: nat)
    requires 0 < a && 0 < b
    ensures 0 < a * b
  {
  }

  /** The partitions from number i on: each starts a track behind its table. */
  function Expected(g: Geometry, sizes: seq<int>, i: nat): (list: seq<Partition>)
    requires i <= |sizes|
    ensures |list| == |sizes| - i
    decreases |sizes| - i
  {
    if i == |sizes| then []
    else [Partition(Natural(Place(g, sizes, i) + g.track), Natural(sizes[i] - g.track))] + Expected(g, sizes, i + 1)
  }

  function Natural(x: int): nat { if x < 0 then 0 else x }

  /** The length in the link to the next table; 0 for none. */
  function NextSize(sizes: seq<int>, i: nat): int { if i + 1 < |sizes| then sizes[i + 1] else 0 }

  /** The tables from number i on are where they should be. */
  ghost predicate TablesWritten(disk: Disk, g: Geometry, lba: bool, sizes: seq<int>, size: nat, i: nat)
    requires g.Valid() && 0x200 <= size
  {
    forall k | i <= k < |sizes| ::
      Place(g, sizes, k) in disk
      && disk[Place(g, sizes, k)]
         == PartitionSector(g, lba, Place(g, sizes, k), sizes[k], NextSize(sizes, k), size)
  }

  /** One link of the chain. */
  lemma SectorReadBack(g: Geometry, lba: bool, at: int, len: int, next: int, size: nat)
    requires g.Valid() && 0x200 <= size && 0 < g.Cylinder() <= at && g.track < len && at + len < 0x8000_0000
    ensures var s := PartitionSector(g, lba, at, len, next, size);
            && IsTable(s)
            && TypeOf(FirstOf(s)) != 0 && !IsExtended(TypeOf(FirstOf(s)))
            && StartOf(FirstOf(s)) == g.track && LengthOf(FirstOf(s)) == len - g.track
            && (next == 0 ==> TypeOf(SecondOf(s)) == 0)
            && (next != 0 ==> IsExtended(TypeOf(SecondOf(s))) && StartOf(SecondOf(s)) == at + len - g.Cylinder())
  {
    hide Record, Table, IsTable, FirstOf, SecondOf, StartOf, LengthOf;
    var first := Record(g, lba, at + g.track, len - g.track, false, at);
    var second := if next == 0 then Blank(16) else Record(g, lba, at + len, next, true, g.Cylinder());
    TableReadBack(first, second, size);
    RecordReadBack(g, lba, at + g.track, len - g.track, false, at);
    RecordReadBack(g, lba, at + len, next, true, g.Cylinder());
    Unwrapped(g.track);
    Unwrapped(len - g.track);
    Unwrapped(at + len - g.Cylinder());
  }

  lemma Unwrapped(x: int)
    requires 0 <= x < 0x1_0000_0000
    ensures W(x) == x
  {
  }

  /** The chain of tables describes exactly the partitions. */
  lemma {:induction false} ChainLists(disk: Disk, g: Geometry, lba: bool, sizes: seq<int>, size: nat, i: nat)
    requires Sane(g, sizes) && 0x200 <= size && i < |sizes| && TablesWritten(disk, g, lba, sizes, size, i)
    ensures 0 < Place(g, sizes, i) && Lists(disk, g.Cylinder(), Place(g, sizes, i), Expected(g, sizes, i))
    decreases |sizes| - i
  {
    hide PartitionSector, IsTable, FirstOf, SecondOf, StartOf, LengthOf, Place;
    var at, next := Place(g, sizes, i), NextSize(sizes, i);
    PlaceBounds(g, sizes, i);
    PlaceBounds(g, sizes, i + 1);
    PlaceNext(g, sizes, i);
    SectorReadBack(g, lba, at, sizes[i], next, size);
    var list := Expected(g, sizes, i);
    assert disk[at] == PartitionSector(g, lba, at, sizes[i], next, size);
    assert list[0] == Partition(at + g.track, sizes[i] - g.track);
    if i + 1 < |sizes| {
      ChainLists(disk, g, lba, sizes, size, i + 1);
      assert list[1..] == Expected(g, sizes, i + 1);
    }
  }

  /** The partitions follow each other with a track between them, inside the extended partition. */
  lemma {:induction false} ExpectedLayout(g: Geometry, sizes: seq<int>, i: nat, k: nat)
    requires Sane(g, sizes) && i <= |sizes| && k < |sizes| - i
    ensures var list := Expected(g, sizes, i);
            && list[k].start == Place(g, sizes, i + k) + g.track && list[k].length == sizes[i + k] - g.track
            && g.Cylinder() < list[k].start && 0 < list[k].length
            && list[k].start + list[k].length <= g.Cylinder() + Sum(sizes)
            && (k + 1 < |list| ==> list[k + 1].start == list[k].start + list[k].length + g.track)
    decreases k
  {
    hide Place;
    PlaceBounds(g, sizes, i + k);
    PlaceBounds(g, sizes, i + k + 1);
    PlaceNext(g, sizes, i + k);
    ExpectedAt(g, sizes, i, k);
    if k + 1 < |Expected(g, sizes, i)| {
      ExpectedAt(g, sizes, i, k + 1);
    }
  }

  lemma {:induction false} ExpectedAt(g: Geometry, sizes: seq<int>, i: nat, k: nat)
    requires Sane(g, sizes) && i <= |sizes| && k < |sizes| - i
    ensures Place(g, sizes, i + k) > 0
    ensures Expected(g, sizes, i)[k] == Partition(Place(g, sizes, i + k) + g.track, sizes[i + k] - g.track)
    decreases k
  {
    hide Place;
    PlaceBounds(g, sizes, i + k);
    if k != 0 {
      ExpectedAt(g, sizes, i + 1, k - 1);
    }
  }

  /** What a reader finds that starts at the first sector: an extended partition, and the chain inside it. */
  ghost predicate Describes(disk: Disk, list: seq<Partition>) {
    && 0 in disk && IsTable(disk[0]) && IsExtended(TypeOf(FirstOf(disk[0])))
    && Lists(disk, StartOf(FirstOf(disk[0])), StartOf(FirstOf(disk[0])), list)
  }

  lemma MasterReadBack(g: Geometry, lba: bool, n: int, size: nat)
    requires g.Valid() && 0x200 <= size && 0 <= n < 0x1_0000_0000
    ensures var s := MasterSector(g, lba, n, size);
            IsTable(s) && IsExtended(TypeOf(FirstOf(s)))
            && StartOf(FirstOf(s)) == g.Cylinder() && LengthOf(FirstOf(s)) == n
  {
    hide Record, Table, IsTable, FirstOf, StartOf, LengthOf, IsExtended;
    TableReadBack(Record(g, lba, g.Cylinder(), n, true, 0), Blank(16), size);
    RecordReadBack(g, lba, g.Cylinder(), n, true, 0);
    Unwrapped(g.Cylinder() - 0);
    Unwrapped(n);
  }

  lemma FirstPlace(g: Geometry, sizes: seq<int>)
    ensures Place(g, sizes, 0) == g.Cylinder()
  {
    assert sizes[..0] == [];
  }

  /** The tables of a partitioned device describe the partitions. */
  lemma DescribesPartitions(disk: Disk, g: Geometry, lba: bool, sizes: seq<int>, size: nat)
    requires Sane(g, sizes) && 0x200 <= size && sizes != [] && TablesWritten(disk, g, lba, sizes, size, 0)
    requires 0 in disk && disk[0] == MasterSector(g, lba, Sum(sizes), size)
    ensures Describes(disk, Expected(g, sizes, 0))
  {
    hide MasterSector, IsTable, FirstOf, StartOf, LengthOf, TypeOf, IsExtended, Lists, Expected, TablesWritten,
      Place, Sum;
    PlaceBounds(g, sizes, 0);
    MasterReadBack(g, lba, Sum(sizes), size);
    ChainLists(disk, g, lba, sizes, size, 0);
    FirstPlace(g, sizes);
  }
}
