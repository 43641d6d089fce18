/** The partitioning of modules/lflash_fdisk/main.c with a geometry given by the caller. */
module Fdisk {
  import opened Bytes
  import opened Octets
  import opened PartitionTable
  import opened Words

  /** The length of a partition of `part` cylinders behind `sofar` sectors. If it is less than a track, it is what
      is left of the device, in whole cylinders. */
  function SizeOf(total: nat, track: nat, blocks: int, part: int, sofar: int): int
    requires 0 < total
  {
    if W(part * total) < track then AsInt(W(blocks - total - sofar) / total * total) else AsInt(part * total)
  }

  function Sizes(total: nat, track: nat, blocks: int, parts: seq<int>): (s: seq<int>)
    requires 0 < total
    ensures |s| == |parts|
  {
    if parts == [] then [] else
    var s := Sizes(total, track, blocks, parts[..|parts| - 1]);
    s + [SizeOf(total, track, blocks, parts[|parts| - 1], AsInt(Sum(s)))]
  }

  /** The partitions need more than the device has behind its first cylinder, as the code compares it. */
  predicate TooMany(total: nat, blocks: int, sizes: seq<int>) { W(blocks - total) < W(Sum(sizes)) }

  /** Every partition is longer than the track in front of it. */
  ghost predicate LongerThanTracks(g: Geometry, sizes: seq<int>) {
    g.Valid() && forall i | 0 <= i < |sizes| :: g.track < sizes[i]
  }

  /** The comparison is right exactly for devices of at least a cylinder, as long as the lengths do not sum up to 2^32
      or more: it does not notice a difference below zero, or a sum that wraps around. */
  lemma FitsExactly(g: Geometry, blocks: nat, sizes: seq<int>)
    requires LongerThanTracks(g, sizes) && blocks < 0x8000_0000 && !TooMany(g.Cylinder(), blocks, sizes)
    ensures g.Cylinder() + Sum(sizes) <= blocks <==> g.Cylinder() <= blocks && Sum(sizes) < 0x1_0000_0000
    ensures g.Cylinder() + Sum(sizes) <= blocks ==> Sane(g, sizes)
  {
    SumPositive(g, sizes);
    ProductPositive(g.heads, g.track);
    hide Sum;
  }

  lemma {:induction false} SumPositive(g: Geometry, sizes: seq<int>)
    requires LongerThanTracks(g, sizes)
    ensures 0 <= Sum(sizes)
  {
    if sizes != [] {
      SumPositive(g, sizes[..|sizes| - 1]);
    }
  }

  /** Four partitions of 2^30 sectors each pass for a device of 64. */
  lemma WrappedSum()
    ensures var g, sizes := Geometry(2, 32, 1), Sizes(64, 32, 64, [0x100_0000, 0x100_0000, 0x100_0000, 0x100_0000]);
            LongerThanTracks(g, sizes) && !TooMany(g.Cylinder(), 64, sizes) && 64 < g.Cylinder() + Sum(sizes)
  {
    FourSizes(0x100_0000);
    FourTimes(0x4000_0000);
    hide Sum, Sizes;
  }

  lemma FourSizes(p: int)
    requires p == 0x100_0000
    ensures Sizes(64, 32, 64, [p, p, p, p]) == [0x4000_0000, 0x4000_0000, 0x4000_0000, 0x4000_0000]
  {
    assert Sizes(64, 32, 64, []) == [];
    hide Sizes;
    TwoMoreSizes(p, []);
    TwoMoreSizes(p, [p, p]);
    assert [] + [p, p] == [p, p] && [p, p] + [p, p] == [p, p, p, p];
  }

  lemma TwoMoreSizes(p: int, parts: seq<int>)
    requires p == 0x100_0000
    ensures Sizes(64, 32, 64, parts + [p, p]) == Sizes(64, 32, 64, parts) + [0x4000_0000, 0x4000_0000]
  {
    hide Sizes;
    OneMoreSize(p, parts);
    OneMoreSize(p, parts + [p]);
    assert parts + [p] + [p] == parts + [p, p];
  }

  lemma OneMoreSize(p: int, parts: seq<int>)
    requires p == 0x100_0000
    ensures Sizes(64, 32, 64, parts + [p]) == Sizes(64, 32, 64, parts) + [0x4000_0000]
  {
    hide Sizes, Sum, AsInt;
    SizesGrow(64, 32, 64, parts, p);
    OneSize(p, AsInt(Sum(Sizes(64, 32, 64, parts))));
  }

  lemma OneSize(p: int, sofar: int)
    requires p == 0x100_0000
    ensures SizeOf(64, 32, 64, p, sofar) == 0x4000_0000
  {
  }

  lemma FourTimes(q: int)
    ensures Sum([q, q, q, q]) == 4 * q
  {
    SumGrows([], q);
    SumGrows([q], q);
    SumGrows([q, q], q);
    SumGrows([q, q, q], q);
    assert Sum([]) == 0;
    hide Sum;
    assert [] + [q] == [q] && [q] + [q] == [q, q] && [q, q] + [q] == [q, q, q] && [q, q, q] + [q] == [q, q, q, q];
  }

  lemma SizesGrow(total: nat, track: nat, blocks: int, parts: seq<int>, part: int)
    requires 0 < total
    ensures var s := Sizes(total, track, blocks, parts);
            Sizes(total, track, blocks, parts + [part]) == s + [SizeOf(total, track, blocks, part, AsInt(Sum(s)))]
  {
    assert (parts + [part])[..|parts|] == parts;
  }

  lemma SumGrows(s: seq<int>, x: int)
    ensures Sum(s + [x]) == Sum(s) + x
  {
    assert (s + [x])[..|s|] == s;
  }

  lemma TinyDevice()
    ensures var g, sizes := Geometry(2, 32, 1), Sizes(64, 32, 1, [1]);
            Sane(g, sizes) && !TooMany(g.Cylinder(), 1, sizes) && 1 < g.Cylinder() + Sum(sizes)
  {
    TinySize();
    SumOfOne(64);
    hide Sizes, Sum;
  }

  lemma TinySize()
    ensures Sizes(64, 32, 1, [1]) == [64]
  {
    assert Sizes(64, 32, 1, []) == [];
    assert Sum([]) == 0 == AsInt(0);
    hide Sizes, Sum;
    SizesGrow(64, 32, 1, [], 1);
    assert [] + [1] == [1];
  }

  lemma SumOfOne(x: int)
    ensures Sum([x]) == x
  {
    assert Sum([]) == 0;
    hide Sum;
    SumGrows([], x);
    assert [] + [x] == [x];
  }

  class Device {
    /** The sectors whose contents are known. */
    var sectors: Disk

    constructor ()
    {
      sectors := map[];
    }

    /** write_sector: after a failure the sector may hold anything. */
    method WriteSector(data: seq<octet>, block: int) returns (res: int)
      modifies this
      ensures res < 0 ==> sectors == old(sectors) - {block}
      ensures 0 <= res ==> sectors == old(sectors)[block := data]
    {
      if * {
        sectors := sectors - {block};
        return -1;
      }
      sectors := sectors[block := data];
      res := 1;
    }
  }

  class Fdisk {
    const device: Device
    // lflash_param
    const blocks: nat
    const bsize: nat
    const lba: bool
    const partsize: array<int>
    const partlen: array<int>
    const buffer: array<octet>
    var numpart: nat
    var maxsectors: nat
    var numheads: nat
    var numsectors: nat
    var totalsectors: nat

    constructor (device: Device, blocks: nat, bsize: nat, numheads: nat, numsectors: nat)
      requires 0 < blocks < 0x8000_0000 && 0x200 <= bsize <= 0x1000
      requires 0 < numheads && 0 < numsectors && numheads * numsectors < 0x8000_0000
      ensures Valid() && this.device == device && this.blocks == blocks && this.bsize == bsize && Parts() == []
      ensures this.numheads == numheads && this.numsectors == numsectors
      ensures fresh(partsize) && fresh(partlen) && fresh(buffer)
    {
      this.device, this.blocks, this.bsize, lba := device, blocks, bsize, false;
      this.numheads, this.numsectors, maxsectors, totalsectors, numpart := numheads, numsectors, 0, 0, 0;
      partsize, partlen, buffer := new int[16], new int[16], new octet[0x1000];
    }

    ghost predicate Valid()
      reads this
    {
      && partsize.Length == partlen.Length == 16 && partsize != partlen && buffer.Length == 0x1000 && numpart <= 16
      && 0 < blocks < 0x8000_0000 && 0x200 <= bsize <= 0x1000
      && 0 < numheads && 0 < numsectors && numheads * numsectors < 0x8000_0000
    }

    ghost function Parts(): seq<int>
      reads this, partsize
      requires numpart <= partsize.Length
    {
      partsize[..numpart]
    }

    ghost function Layout(): Geometry
      reads this
    {
      Geometry(numheads, numsectors, maxsectors)
    }

    /** DoFdisk has set up the geometry. */
    ghost predicate Ready()
      reads this
    {
      Valid() && Layout().Valid() && totalsectors == numheads * numsectors
    }

    method AddPartition(size: int) returns (res: int)
      requires Valid()
      modifies this`numpart, partsize
      ensures Valid()
      ensures if res == 0 then Parts() == old(Parts()) + [size] else res == -1 && Parts() == old(Parts())
      ensures res == 0 <==> old(numpart) < 16
    {
      if 16 <= numpart {
        return -1;
      }
      partsize[numpart] := size;
      numpart := numpart + 1;
      res := 0;
    }

    method SetCHS(at: nat, address: int) returns (res: int)
      requires Ready() && at + 3 <= buffer.Length
      modifies buffer
      ensures buffer[..] == Splice(old(buffer[..]), at, Chs(Layout(), W(address)))
      ensures res == if Beyond(Layout(), W(address)) then 1 else 0
    {
      hide CylinderOf, HeadOf, Pack, SectorOf;
      var g := Geometry(numheads, numsectors, maxsectors);
      res := 0;
      var cs2, h := CylinderOf(g, W(address)), HeadOf(g, W(address));
      if maxsectors <= cs2 {
        cs2 := maxsectors - 1;
        res := 1;
      }
      var cs1 := Pack(cs2, SectorOf(g, W(address)));
      buffer[at] := Low(h);
      buffer[at + 1] := cs1;
      buffer[at + 2] := Low(cs2);
    }

    method CreatePartitionRecord(at: nat, start: int, len: int, extended: bool, base: int) returns (res: int)
      requires Ready() && at + 16 <= buffer.Length && buffer[at] == 0
      modifies buffer
      ensures buffer[..] == Splice(old(buffer[..]), at, Record(Layout(), lba, start, len, extended, base))
    {
      hide Chs, Beyond, Put32, Type, Splice;
      ghost var was := buffer[..];
      var res1 := SetCHS(at + 1, start);
      var res2 := SetCHS(at + 5, start + len - 1);
      PutBytes(buffer, at + 4, [Type(extended, res1 + res2 == 0 && !lba, W(len))]);
      PutBytes(buffer, at + 8, Put32(W(start - base)));
      PutBytes(buffer, at + 12, Put32(W(len)));
      RecordSpliced(was, at, Chs(Layout(), W(start)), Chs(Layout(), W(start + len - 1)),
                    [Type(extended, res1 + res2 == 0 && !lba, W(len))], Put32(W(start - base)), Put32(W(len)));
      res := 0;
    }

    /** write_partition_table: the first sector, or the sector in front of a partition. */
    method WritePartitionTable(blknum: int, numblocks: int, next: int) returns (res: int)
      requires Ready()
      modifies buffer, device
      ensures res == 0 || res == -1
      ensures res == 0 ==> device.sectors == old(device.sectors)[
                blknum := Sector(Layout(), lba, blknum, numblocks, next, bsize)]
      ensures res == -1 ==> device.sectors == old(device.sectors) - {blknum}
    {
      hide Record, Splice, Geometry.Valid;
      ghost var g, before := Layout(), buffer[..];
      Fill(buffer, 0, 0x1000, 0);
      SpliceWhole(before, Blank(0x1000));
      assert buffer[0x1BE] == buffer[..][0x1BE];
      ghost var first := if blknum != 0 then Record(g, lba, blknum + g.track, numblocks - g.track, false, blknum)
                         else Record(g, lba, g.Cylinder(), numblocks, true, 0);
      ghost var second := Blank(16);
      if blknum != 0 {
        var r := CreatePartitionRecord(0x1BE, blknum + numsectors, numblocks - numsectors, false, blknum);
        RestIsBlank(first);
        assert buffer[0x1CE] == buffer[..][0x1CE];
        if next != 0 {
          second := Record(g, lba, blknum + numblocks, next, true, g.Cylinder());
          r := CreatePartitionRecord(0x1CE, blknum + numblocks, next, true, totalsectors);
        }
      } else {
        var r := CreatePartitionRecord(0x1BE, totalsectors, numblocks, true, 0);
        RestIsBlank(first);
      }
      PutBytes(buffer, 0x1FE, [0x55, 0xAA]);
      TableSpliced(first, second, bsize);
      assert buffer[..bsize] == buffer[..][..bsize];
      var r := device.WriteSector(buffer[..bsize], blknum);
      res := if r < 0 then -1 else 0;
    }

    /** The geometry given by the caller: as many cylinders as the device has, up to what three bytes can hold. */
    method SetGeometry()
      requires Valid()
      modifies this`totalsectors, this`maxsectors
      ensures Ready() && maxsectors == Cylinders(blocks, numheads * numsectors)
    {
      hide AllCylinders;
      PositiveProduct(numheads, numsectors);
      totalsectors := numheads * numsectors;
      SomeCylinders(blocks, totalsectors);
      maxsectors := AllCylinders(blocks, totalsectors);
      if 1024 < maxsectors {
        maxsectors := 1024;
      }
    }

    /** The lengths of the partitions, and their sum as an int. */
    method ComputeSizes() returns (numblocks: int)
      requires Ready()
      modifies partlen
      ensures partlen[..numpart] == Sizes(totalsectors, numsectors, blocks, Parts())
      ensures numblocks == AsInt(Sum(partlen[..numpart]))
    {
      hide AsInt, SizeOf, Sizes, Sum;
      ghost var total := totalsectors;
      numblocks := 0;
      ZeroAsInt();
      NoSizes(total, numsectors, blocks);
      assert partlen[..0] == [] && partsize[..0] == [];
      for i := 0 to numpart
        invariant Ready() && partlen[..i] == Sizes(total, numsectors, blocks, partsize[..i])
        invariant numblocks == AsInt(Sum(partlen[..i]))
      {
        ghost var s, parts := partlen[..i], partsize[..i];
        assert partsize[..i + 1] == parts + [partsize[i]];
        partlen[i] := SizeOf(totalsectors, numsectors, blocks, partsize[i], numblocks);
        assert partlen[..i + 1] == s + [partlen[i]];
        SizesGrow(total, numsectors, blocks, parts, partsize[i]);
        SumGrows(s, partlen[i]);
        AsIntSum(Sum(s), partlen[i]);
        numblocks := AsInt(numblocks + partlen[i]);
      }
    }

    /** The tables in front of the partitions. */
    method WriteTables() returns (res: int)
      requires Ready()
      modifies buffer, device
      ensures res == 0 || res == -3
      ensures Sane(Layout(), partlen[..numpart]) ==>
                Elsewhere(device.sectors, old(device.sectors), Layout(), partlen[..numpart])
                && (0 in old(device.sectors) ==> 0 in device.sectors && device.sectors[0] == old(device.sectors)[0])
      ensures Sane(Layout(), partlen[..numpart]) && res == 0 ==>
                TablesWritten(device.sectors, Layout(), lba, partlen[..numpart], bsize, 0)
    {
      hide AsInt, Sane, Place, TablesWritten, PartitionSector, Elsewhere;
      ghost var g, sizes, was := Layout(), partlen[..numpart], device.sectors;
      var p := AsInt(totalsectors);
      Start(g, sizes, was, lba, bsize);
      for i := 0 to numpart
        invariant Ready() && Layout() == g && partlen[..numpart] == sizes && p == AsInt(Place(g, sizes, i))
        invariant Sane(g, sizes) ==> Progress(device.sectors, was, g, lba, sizes, bsize, i)
      {
        ghost var before := device.sectors;
        var next := if i < numpart - 1 then partlen[i + 1] else 0;
        var r := WritePartitionTable(p, partlen[i], next);
        assert partlen[i] == sizes[i] && next == NextSize(sizes, i);
        if Sane(g, sizes) {
          AtItsPlace(g, sizes, i);
          Advance(before, device.sectors, was, g, lba, sizes, bsize, i, r == 0);
        }
        if r < 0 {
          return -3;
        }
        PlaceNext(g, sizes, i);
        AsIntSum(Place(g, sizes, i), partlen[i]);
        p := AsInt(p + partlen[i]);
      }
      res := 0;
      if Sane(g, sizes) {
        AllWritten(device.sectors, was, g, lba, sizes, bsize);
      }
    }

    /** DoFdisk. If it succeeds, the tables on the device describe exactly the computed partitions. */
    method DoFdisk() returns (res: int)
      requires Valid()
      modifies this`totalsectors, this`maxsectors, partlen, buffer, device
      ensures Ready() && maxsectors == Cylinders(blocks, numheads * numsectors)
      ensures partlen[..numpart] == Sizes(totalsectors, numsectors, blocks, Parts())
      ensures res == 0 || res == -1 || res == -2 || res == -3
      ensures res == -1 <==> TooMany(totalsectors, blocks, partlen[..numpart])
      ensures res == -1 ==> device.sectors == old(device.sectors)
      ensures Sane(Layout(), partlen[..numpart]) ==>
                Elsewhere(device.sectors, old(device.sectors), Layout(), partlen[..numpart])
      ensures res == 0 && Sane(Layout(), partlen[..numpart]) && numpart != 0 ==>
                Describes(device.sectors, Expected(Layout(), partlen[..numpart], 0))
                && LengthOf(FirstOf(device.sectors[0])) == Sum(partlen[..numpart])
      ensures res != -1 && LongerThanTracks(Layout(), partlen[..numpart]) ==>
                (totalsectors + Sum(partlen[..numpart]) <= blocks
                 <==> totalsectors <= blocks && Sum(partlen[..numpart]) < 0x1_0000_0000)
                && (totalsectors + Sum(partlen[..numpart]) <= blocks ==> Sane(Layout(), partlen[..numpart]))
    {
      hide Sane, Place, TablesWritten, MasterSector, Elsewhere, AsInt, Sum, Sizes, Cylinders, Describes,
        Expected, IsTable, TooMany, LongerThanTracks;
      SetGeometry();
      var numblocks := ComputeSizes();
      ghost var g, sizes, was := Layout(), partlen[..numpart], device.sectors;
      Compared(totalsectors, blocks, sizes, numblocks);
      Untouched(was, g, sizes);
      if W(blocks - totalsectors) < W(numblocks) {
        return -1;
      }
      if LongerThanTracks(g, sizes) {
        FitsExactly(g, blocks, sizes);
      }
      var r := WritePartitionTable(0, numblocks, 0);
      ghost var mid := device.sectors;
      MasterOnly(mid, was, g, sizes);
      if r < 0 {
        return -2;
      }
      r := WriteTables();
      if Sane(g, sizes) {
        ElsewhereTwice(device.sectors, mid, was, g, sizes);
        SumAsInt(g, sizes);
      }
      if r < 0 {
        return -3;
      }
      res := 0;
      if Sane(g, sizes) && numpart != 0 {
        MasterReadBack(g, lba, Sum(sizes), bsize);
        DescribesPartitions(device.sectors, g, lba, sizes, bsize);
      }
    }
  }

  /** The parts of a record, in the order in which they are written. */
  lemma RecordSpliced(s: seq<octet>, at: nat, first: seq<octet>, last: seq<octet>, t: seq<octet>, start: seq<octet>,
                      len: seq<octet>)
    requires at + 16 <= |s| && |first| == |last| == 3 && |t| == 1 && |start| == |len| == 4 && s[at] == 0
    ensures var a := Splice(Splice(Splice(s, at + 1, first), at + 5, last), at + 4, t);
            Splice(Splice(a, at + 8, start), at + 12, len)
            == Splice(s, at, [0] + first + t + last + start + len)
  {
    var a := Splice(Splice(Splice(s, at + 1, first), at + 5, last), at + 4, t);
    assert a == Splice(s, at, [0] + first + t + last);
    SpliceTwice(s, at, [0] + first + t + last, start);
    SpliceTwice(s, at, [0] + first + t + last + start, len);
  }

  /** What write_partition_table puts into a sector. */
  function Sector(g: Geometry, lba: bool, blknum: int, numblocks: int, next: int, size: nat): seq<octet>
    requires g.Valid() && 0x200 <= size
  {
    if blknum != 0 then PartitionSector(g, lba, blknum, numblocks, next, size)
    else MasterSector(g, lba, numblocks, size)
  }

  lemma RestIsBlank(first: seq<octet>)
    requires |first| == 16
    ensures Splice(Blank(0x1000), 0x1BE, first)[0x1CE] == 0
    ensures Splice(Splice(Blank(0x1000), 0x1BE, first), 0x1CE, Blank(16)) == Splice(Blank(0x1000), 0x1BE, first)
  {
    var s := Splice(Blank(0x1000), 0x1BE, first);
    assert s[0x1CE..0x1DE] == Blank(16);
    SpliceSame(s, 0x1CE, Blank(16));
  }

  lemma TableSpliced(first: seq<octet>, second: seq<octet>, size: nat)
    requires |first| == |second| == 16 && 0x200 <= size <= 0x1000
    ensures Splice(Splice(Splice(Blank(0x1000), 0x1BE, first), 0x1CE, second), 0x1FE, [0x55, 0xAA])[..size]
            == Table(first, second, size)
  {
    var s := Splice(Splice(Blank(0x1000), 0x1BE, first), 0x1CE, second);
    assert s == Blank(0x1BE) + first + second + Blank(0x1000 - 0x1DE);
    var t := Splice(s, 0x1FE, [0x55, 0xAA]);
    assert t[..0x1FE] == Blank(0x1BE) + first + second + Blank(32);
    assert t == t[..0x1FE] + [0x55, 0xAA] + Blank(0x1000 - 0x200);
    assert t == Blank(0x1BE) + first + second + Blank(32) + [0x55, 0xAA] + Blank(0x1000 - 0x200);
    TablePrefix(t, Blank(0x1BE) + first + second + Blank(32) + [0x55, 0xAA], size);
  }

  lemma TablePrefix(t: seq<octet>, head: seq<octet>, size: nat)
    requires |head| == 0x200 <= size <= 0x1000 && t == head + Blank(0x1000 - 0x200)
    ensures t[..size] == head + Blank(size - 0x200)
  {
  }

  // ----- Numbers

  /** How many cylinders the device has, at most 1024. */
  function Cylinders(blocks: nat, total: nat): nat
    requires 0 < total
  {
    if 1024 < AllCylinders(blocks, total) then 1024 else AllCylinders(blocks, total)
  }

  function AllCylinders(blocks: nat, total: nat): nat
    requires 0 < total
  {
    W(blocks + total - 1) / total
  }

  lemma SomeCylinders(blocks: nat, total: nat)
    requires 0 < blocks < 0x8000_0000 && 0 < total < 0x8000_0000
    ensures 0 < AllCylinders(blocks, total)
  {
    var n := blocks + total - 1;
    assert W(n) == n;
    Quotient(n, total);
    AtLeastOne(n / total, total, n % total, n);
  }

  lemma AtLeastOne(q: nat, t: nat, r: nat, n: nat)
    requires q * t + r == n && r < t <= n
    ensures 0 < q
  {
  }

  lemma PositiveProduct(a: nat, b: nat)
    requires 0 < a && 0 < b
    ensures 0 < a * b
  {
  }

  lemma NoSizes(total: nat, track: nat, blocks: int)
    requires 0 < total
    ensures Sizes(total, track, blocks, []) == [] && Sum([]) == 0
  {
  }

  lemma ZeroAsInt()
    ensures AsInt(0) == 0
  {
  }

  /** Ints are added modulo 2^32. */
  lemma AsIntSum(a: int, b: int)
    ensures AsInt(AsInt(a) + b) == AsInt(a + b)
  {
    SameWord(a);
    WordPlus(AsInt(a), a, b);
    hide W;
  }

  lemma WordPlus(u: int, v: int, b: int)
    requires W(u) == W(v)
    ensures W(u + b) == W(v + b)
  {
    var q := u / 0x1_0000_0000 - v / 0x1_0000_0000;
    assert u == v + 0x1_0000_0000 * q;
  }

  /** No sector but the first and those in front of the partitions has changed. */
  ghost predicate Elsewhere(disk: Disk, was: Disk, g: Geometry, sizes: seq<int>) {
    forall b: int | b != 0 && (forall k | 0 <= k < |sizes| :: b != Place(g, sizes, k)) ::
      (b in disk <==> b in was) && (b in disk ==> disk[b] == was[b])
  }

  /** The first i tables are written, and nothing else has changed. */
  ghost predicate Progress(disk: Disk, was: Disk, g: Geometry, lba: bool, sizes: seq<int>, size: nat, i: nat)
    requires g.Valid() && 0x200 <= size
  {
    && Elsewhere(disk, was, g, sizes) && (0 in was ==> 0 in disk && disk[0] == was[0])
    && forall k | 0 <= k < i && k < |sizes| ::
         Place(g, sizes, k) in disk
         && disk[Place(g, sizes, k)] == PartitionSector(g, lba, Place(g, sizes, k), sizes[k], NextSize(sizes, k), size)
  }

  lemma Start(g: Geometry, sizes: seq<int>, was: Disk, lba: bool, size: nat)
    requires g.Valid() && 0x200 <= size
    ensures Place(g, sizes, 0) == g.Cylinder() && Progress(was, was, g, lba, sizes, size, 0)
  {
    assert sizes[..0] == [];
  }

  lemma AllWritten(disk: Disk, was: Disk, g: Geometry, lba: bool, sizes: seq<int>, size: nat)
    requires g.Valid() && 0x200 <= size && Progress(disk, was, g, lba, sizes, size, |sizes|)
    ensures TablesWritten(disk, g, lba, sizes, size, 0)
  {
    hide PartitionSector, Place, NextSize;
  }

  lemma AtItsPlace(g: Geometry, sizes: seq<int>, i: nat)
    requires Sane(g, sizes) && i < |sizes|
    ensures 0 < Place(g, sizes, i) == AsInt(Place(g, sizes, i))
  {
    PlaceBounds(g, sizes, i);
    hide Place;
  }

  /** One more table, or a failure that leaves the sectors before it alone. */
  lemma Advance(before: Disk, disk: Disk, was: Disk, g: Geometry, lba: bool, sizes: seq<int>, size: nat, i: nat,
                ok: bool)
    requires Sane(g, sizes) && 0x200 <= size && i < |sizes| && Progress(before, was, g, lba, sizes, size, i)
    requires var at := Place(g, sizes, i);
             if ok then disk == before[at := PartitionSector(g, lba, at, sizes[i], NextSize(sizes, i), size)]
             else disk == before - {at}
    ensures Progress(disk, was, g, lba, sizes, size, if ok then i + 1 else i)
  {
    hide PartitionSector, Place, NextSize;
    PlaceBounds(g, sizes, i);
    forall k | 0 <= k < i
      ensures Place(g, sizes, k) != Place(g, sizes, i)
    {
      PlacesGrow(g, sizes, k, i);
    }
  }

  lemma Compared(total: nat, blocks: int, sizes: seq<int>, numblocks: int)
    requires numblocks == AsInt(Sum(sizes))
    ensures TooMany(total, blocks, sizes) <==> W(blocks - total) < W(numblocks)
  {
    SameWord(Sum(sizes));
  }

  lemma SameWord(x: int)
    ensures W(AsInt(x)) == W(x)
  {
  }

  lemma SumAsInt(g: Geometry, sizes: seq<int>)
    requires Sane(g, sizes)
    ensures 0 <= Sum(sizes) < 0x8000_0000 && AsInt(Sum(sizes)) == Sum(sizes)
  {
    PlaceBounds(g, sizes, 0);
    hide Place;
  }

  lemma Untouched(was: Disk, g: Geometry, sizes: seq<int>)
    ensures Elsewhere(was, was, g, sizes)
  {
  }

  lemma MasterOnly(disk: Disk, was: Disk, g: Geometry, sizes: seq<int>)
    requires disk == was - {0} || (0 in disk && disk == was[0 := disk[0]])
    ensures Elsewhere(disk, was, g, sizes)
  {
    hide Place;
  }

  lemma ElsewhereTwice(disk: Disk, mid: Disk, was: Disk, g: Geometry, sizes: seq<int>)
    requires Elsewhere(disk, mid, g, sizes) && Elsewhere(mid, was, g, sizes)
    ensures Elsewhere(disk, was, g, sizes)
  {
    hide Place;
  }
}
