/** Reading the open file: MsFatRead of ipl/common/fat.c. */
module FatRead {
  import opened Bytes
  import opened Octets
  import opened FatVolume

  function Sectors(size: nat): (n: nat)
    ensures 0x200 * n < size + 0x200 && size <= 0x200 * n
  {
    (size + 0x1ff) / 0x200
  }

  /** The content of a file: the first `size` bytes of its chain. */
  function FileBytes(v: Volume, start: Place, size: nat): (b: seq<octet>)
    ensures |b| == size
  {
    v.Stream(start, Sectors(size))[..size]
  }

  lemma SectorOfFile(v: Volume, start: Place, size: nat, j: nat, n: nat)
    requires n <= 0x200 && 0x200 * j + n <= size
    ensures FileBytes(v, start, size)[0x200 * j..0x200 * j + n] == v.disk(v.SectorOf(v.Advance(start, j)))[..n]
  {
    hide Volume.Stream, Volume.Advance, Volume.SectorOf;
    if n != 0 {
      var whole := v.Stream(start, Sectors(size));
      StreamSector(v, start, Sectors(size), j);
      SliceOfSlice(whole, 0, size, 0x200 * j, n);
      SliceOfSlice(whole, 0x200 * j, 0x200, 0, n);
    }
  }

  function FirstCluster(v: Volume, entry: seq<octet>): nat
    requires |entry| == 32
  {
    Little16(entry[0x1A..0x1C]) + if v.fatType == Fat32 then 0x10000 * Little16(entry[0x14..0x16]) else 0
  }

  lemma SameTail(e: seq<octet>, f: seq<octet>, i: nat, j: nat)
    requires 1 <= i <= j <= |e| == |f| && e[1..] == f[1..]
    ensures e[i..j] == f[i..j]
  {
    forall k | 0 <= k < j - i
      ensures e[i..j][k] == f[i..j][k]
    {
      assert e[i + k] == e[1..][i - 1 + k] == f[1..][i - 1 + k] == f[i + k];
    }
  }

  class Driver {
    const volume: Volume
    const sector_buf: array<octet>
    const filename2: array<octet>
    // thefile
    var attributes: octet
    var remaining_bytes: nat
    var cur_cluster: nat
    var cur_sector: nat
    // the file as it was opened
    ghost var start: Place
    ghost var size: nat

    constructor (volume: Volume)
      requires volume.Sound()
      ensures Valid() && this.volume == volume && fresh(sector_buf) && fresh(filename2) && remaining_bytes == size == 0
    {
      this.volume := volume;
      sector_buf := new octet[0x200];
      filename2 := new octet[256];
      attributes, remaining_bytes, cur_cluster, cur_sector := 0, 0, 0, 0;
      start, size := Place(0, 0), 0;
    }

    ghost predicate Mounted() {
      sector_buf.Length == 0x200 && filename2.Length == 256 && filename2 != sector_buf && volume.Sound()
    }

    ghost predicate Valid()
      reads this
    {
      && Mounted() && remaining_bytes <= size
      && (remaining_bytes != 0 ==>
            (size - remaining_bytes) % 0x200 == 0
            && Place(cur_cluster, cur_sector) == volume.Advance(start, (size - remaining_bytes) / 0x200)
            && volume.Reaches(start, (size - remaining_bytes) / 0x200 + 1)
            && cur_cluster < volume.entries)
      && start.sector < volume.sectorsPerCluster
    }

    ghost function Content(): (b: seq<octet>)
      reads this`start, this`size
      ensures |b| == size
    {
      FileBytes(volume, start, size)
    }

    /** The chain has a sector for every byte of the file. */
    ghost predicate LongEnough()
      reads this`start, this`size
    {
      volume.Reaches(start, Sectors(size))
    }

    /** No sector of the file can fail. */
    ghost predicate Readable()
      reads this`start, this`size
    {
      forall j: nat | j < Sectors(size) && volume.Reaches(start, j + 1) ::
        !volume.MayFail(volume.SectorOf(volume.Advance(start, j)))
    }

    /** The file a directory entry describes has just been opened. */
    ghost predicate Opened(entry: seq<octet>)
      requires |entry| == 32
      reads this
    {
      && attributes == entry[0xB]
      && remaining_bytes == size == Little32(entry[0x1C..0x20])
      && start == Place(cur_cluster, cur_sector) == Place(FirstCluster(volume, entry), 0)
    }

    /** Reading can start. */
    lemma OpenedIsValid(entry: seq<octet>)
      requires Mounted() && |entry| == 32 && Opened(entry)
      requires size == 0 || (volume.ValidCluster(cur_cluster) && cur_cluster < volume.entries)
      ensures Valid() && remaining_bytes == size
    {
      hide Volume.ValidCluster, Little32, FirstCluster;
    }

    lemma SameFile(e: seq<octet>, f: seq<octet>)
      requires |e| == |f| == 32 && e[1..] == f[1..] && Opened(e)
      ensures Opened(f)
    {
      hide Little16, Little32;
      SameTail(e, f, 0xB, 0xC);
      SameTail(e, f, 0x14, 0x16);
      SameTail(e, f, 0x1A, 0x1C);
      SameTail(e, f, 0x1C, 0x20);
      assert e[0xB] == e[0xB..0xC][0] == f[0xB..0xC][0] == f[0xB];
    }

    /** MsFatFillFileStruct, for the entry at an offset of the sector buffer. */
    method FillFileStruct(o: nat)
      requires Mounted() && o + 32 <= 0x200
      modifies this
      ensures Opened(sector_buf[o..o + 32])
    {
      hide Little16, Little32;
      var entry := sector_buf[o..o + 32];
      attributes := entry[0xB];
      remaining_bytes := Little32(entry[0x1C..0x20]);
      cur_cluster := Little16(entry[0x1A..0x1C]);
      if volume.fatType == Fat32 {
        cur_cluster := cur_cluster + 0x10000 * Little16(entry[0x14..0x16]);
      }
      cur_sector := 0;
      start, size := Place(cur_cluster, 0), remaining_bytes;
      assert sector_buf[o..o + 32] == entry;
    }

    /** MsFatReadLogicalSector: the sector, or a failure that writes nothing. */
    method ReadSector(sector: int, buf: array<octet>, at: nat) returns (res: int)
      requires at + 0x200 <= buf.Length
      modifies buf
      ensures res < 0 ==> volume.MayFail(sector) && buf[..] == old(buf[..])
      ensures 0 <= res ==> !volume.MustFail(sector) && buf[..] == Splice(old(buf[..]), at, volume.disk(sector))
    {
      var fails: bool := *;
      if volume.MustFail(sector) || (fails && volume.MayFail(sector)) {
        return -1;
      }
      res := 0;
      PutBytes(buf, at, volume.disk(sector));
    }

    /** MsFatGetNextCluster; the result of the sector read is ignored. */
    method GetNextCluster(cluster: nat) returns (next: nat)
      requires Mounted() && cluster < volume.entries
      modifies sector_buf
      ensures next == volume.Next(cluster) && (volume.ValidCluster(next) ==> next < volume.entries)
    {
      hide Volume.ValidCluster, Volume.Next;
      assert volume.GoodEntry(cluster);
      var res := ReadSector(volume.FatSector(cluster), sector_buf, 0);
      SpliceWhole(old(sector_buf[..]), volume.disk(volume.FatSector(cluster)));
      var o := volume.FatOffset(cluster);
      volume.EntryInsideSector(cluster);
      if volume.fatType == Fat16 {
        assert sector_buf[o..o + 2] == sector_buf[..][o..o + 2];
        next := Little16(sector_buf[o..o + 2]);
      } else {
        assert sector_buf[o..o + 4] == sector_buf[..][o..o + 4];
        next := Little32(sector_buf[o..o + 4]);
      }
    }

    /** What a call has put into the buffer: n bytes of the file, following the c bytes of earlier calls. */
    ghost predicate Delivered(buf: array<octet>, was: seq<octet>, at: nat, c: nat, n: nat)
      reads this`start, this`size, buf
    {
      at + n <= |was| && c + n <= size && buf[..] == Splice(was, at, Content()[c..c + n])
    }

    /** The end of the file, less than a sector, through the sector buffer. */
    method ReadRest(sector: int, buf: array<octet>, p: nat) returns (res: int)
      requires Valid() && remaining_bytes < 0x200 && p + remaining_bytes <= buf.Length && buf != sector_buf
      requires remaining_bytes != 0 ==> sector == volume.SectorOf(Place(cur_cluster, cur_sector))
      modifies this`remaining_bytes, sector_buf, buf
      ensures Valid() && remaining_bytes <= old(remaining_bytes)
      ensures res < 0 ==> volume.MayFail(sector) && remaining_bytes == old(remaining_bytes) && buf[..] == old(buf[..])
      ensures 0 <= res ==> remaining_bytes == 0
                           && buf[..] == Splice(old(buf[..]), p, Content()[size - old(remaining_bytes)..size])
    {
      hide FileBytes, Volume.Advance, Volume.SectorOf, Volume.Reaches, Splice, Content;
      ghost var was := buf[..];
      res := ReadSector(sector, sector_buf, 0);
      if res < 0 {
        return res;
      }
      ghost var d := volume.disk(sector);
      SpliceWhole(old(sector_buf[..]), d);
      FirstBytes(sector_buf, d, remaining_bytes);
      Copy(sector_buf, 0, buf, p, remaining_bytes);
      RestIs(d, sector);
      remaining_bytes := 0;
    }

    /** The last bytes of the file are the first ones of the sector that the position leads to. */
    lemma RestIs(d: seq<octet>, sector: int)
      requires Valid() && remaining_bytes < 0x200 && |d| == 0x200 && d == volume.disk(sector)
      requires remaining_bytes != 0 ==> sector == volume.SectorOf(Place(cur_cluster, cur_sector))
      ensures d[..remaining_bytes] == Content()[size - remaining_bytes..size]
    {
      hide FileBytes, Volume.Advance, Volume.SectorOf;
      if remaining_bytes != 0 {
        SectorOfFile(volume, start, size, (size - remaining_bytes) / 0x200, remaining_bytes);
      }
    }

    static lemma NextSector(size: nat, left: nat, j: nat)
      requires 0x200 <= left <= size && (size - left) % 0x200 == 0 && j == (size - left) / 0x200
      ensures (size - (left - 0x200)) % 0x200 == 0 && (size - (left - 0x200)) / 0x200 == j + 1
    {
    }

    /** The move to the next sector after one has been read. At the end of the chain the file is over,
        whatever its size says. */
    method MoveOn(sector: int) returns (next: int, ended: bool)
      requires Valid() && 0x200 <= remaining_bytes && sector == volume.SectorOf(Place(cur_cluster, cur_sector))
      modifies this`remaining_bytes, this`cur_cluster, this`cur_sector, sector_buf
      ensures Valid()
      ensures !ended ==> remaining_bytes == old(remaining_bytes) - 0x200
                         && next == volume.SectorOf(Place(cur_cluster, cur_sector))
                         && (remaining_bytes == 0 ==> LongEnough())
      ensures ended ==> remaining_bytes == 0 && (LongEnough() <==> old(remaining_bytes) == 0x200)
    {
      hide Volume.Next, Volume.ValidCluster, Volume.Sound, Volume.SectorOf;
      next, ended := sector, false;
      ghost var j := (size - remaining_bytes) / 0x200;
      AdvanceSector(volume, start, j);
      BesideIt(volume, cur_cluster, cur_sector);
      NextSector(size, remaining_bytes, j);
      remaining_bytes := remaining_bytes - 0x200;
      cur_sector := cur_sector + 1;
      if cur_sector == volume.sectorsPerCluster {
        cur_sector := 0;
        cur_cluster := GetNextCluster(cur_cluster);
        if !volume.ValidCluster(cur_cluster) {
          ChainEnds(volume, start, j + 1, size);
          if remaining_bytes != 0 {
            remaining_bytes := 0;
          }
          ended := true;
          return next, ended;
        }
        next := volume.SectorOf(Place(cur_cluster, cur_sector));
      } else {
        next := next + 1;
      }
      ReachesFurther(volume, start, j + 1);
    }

    /** One whole sector straight into the caller's buffer. */
    method ReadFull(sector: int, buf: array<octet>, p: nat) returns (res: int)
      requires Valid() && 0x200 <= remaining_bytes && p + 0x200 <= buf.Length
      requires sector == volume.SectorOf(Place(cur_cluster, cur_sector))
      modifies buf
      ensures res < 0 ==> volume.MayFail(sector) && buf[..] == old(buf[..])
      ensures 0 <= res ==> var c := size - remaining_bytes;
                           buf[..] == Splice(old(buf[..]), p, Content()[c..c + 0x200])
    {
      hide FileBytes, Volume.Advance, Volume.SectorOf;
      SectorOfFile(volume, start, size, (size - remaining_bytes) / 0x200, 0x200);
      res := ReadSector(sector, buf, p);
    }

    lemma NothingYet(buf: array<octet>, at: nat, c: nat)
      requires at <= buf.Length && c <= size
      ensures Delivered(buf, buf[..], at, c, 0)
    {
      SpliceSame(buf[..], at, Content()[c..c]);
    }

    lemma MoreDelivered(now: seq<octet>, buf: array<octet>, was: seq<octet>, at: nat, c: nat, n: nat, k: nat)
      requires at + n + k <= |was| && c + n + k <= size && now == Splice(was, at, Content()[c..c + n])
      requires buf[..] == Splice(now, at + n, Content()[c + n..c + n + k])
      ensures Delivered(buf, was, at, c, n + k)
    {
      var f := Content();
      hide Splice, Content;
      SpliceTwice(was, at, f[c..c + n], f[c + n..c + n + k]);
      assert f[c..c + n] + f[c + n..c + n + k] == f[c..c + n + k];
    }

    /** The last sector of the file is a sector of the chain. */
    lemma RestIsThere()
      requires Valid() && 0 < remaining_bytes < 0x200
      ensures LongEnough()
    {
      assert Sectors(size) == (size - remaining_bytes) / 0x200 + 1;
    }

    /** The sector that comes next is one of the file's. */
    lemma NextIsReadable()
      requires Valid() && remaining_bytes != 0 && Readable()
      ensures !volume.MayFail(volume.SectorOf(Place(cur_cluster, cur_sector)))
    {
      var j := (size - remaining_bytes) / 0x200;
      assert j < Sectors(size) && volume.Reaches(start, j + 1);
    }

    /** What is left after the whole sectors: all of it, or nothing if the sector cannot be read. */
    method TakeRest(sector: int, buf: array<octet>, p: nat, read: nat,
                    ghost was: seq<octet>, ghost at: nat, ghost c: nat)
      returns (now: nat)
      requires Valid() && remaining_bytes < 0x200 && p + remaining_bytes <= buf.Length && buf != sector_buf
      requires Delivered(buf, was, at, c, read) && p == at + read && c + read == size - remaining_bytes
      requires remaining_bytes != 0 ==> sector == volume.SectorOf(Place(cur_cluster, cur_sector))
      modifies this`remaining_bytes, sector_buf, buf
      ensures Valid() && Delivered(buf, was, at, c, now)
      ensures remaining_bytes + now == old(remaining_bytes) + read
      ensures remaining_bytes != 0 ==> now == read && volume.MayFail(sector)
      ensures remaining_bytes == 0 && old(remaining_bytes) != 0 ==> LongEnough()
    {
      hide Volume.SectorOf, Volume.Reaches, Content, Splice;
      if remaining_bytes != 0 {
        RestIsThere();
      }
      now := read;
      ghost var before, rest := buf[..], remaining_bytes;
      var n := remaining_bytes;
      var res := ReadRest(sector, buf, p);
      if 0 <= res {
        MoreDelivered(before, buf, was, at, c, read, rest);
        now := read + n;
      }
    }

    /** One whole sector, and the move to the next. */
    method TakeSector(sector: int, buf: array<octet>, p: nat, read: nat,
                      ghost was: seq<octet>, ghost at: nat, ghost c: nat)
      returns (now: nat, next: int, stopped: bool)
      requires Valid() && 0x200 <= remaining_bytes && p + 0x200 <= buf.Length && buf != sector_buf
      requires Delivered(buf, was, at, c, read) && p == at + read && c + read == size - remaining_bytes
      requires sector == volume.SectorOf(Place(cur_cluster, cur_sector))
      modifies this`remaining_bytes, this`cur_cluster, this`cur_sector, sector_buf, buf
      ensures Valid() && Delivered(buf, was, at, c, now)
      ensures now == read || now == read + 0x200
      ensures now == read ==> stopped && remaining_bytes == old(remaining_bytes) && volume.MayFail(sector)
      ensures now != read ==> remaining_bytes == old(remaining_bytes) - 0x200
                              || (stopped && remaining_bytes == 0 && !LongEnough())
      ensures remaining_bytes == 0 && old(remaining_bytes) == 0x200 ==> LongEnough()
      ensures stopped && now != read ==> remaining_bytes == 0 && (old(remaining_bytes) == 0x200 <==> LongEnough())
      ensures !stopped && remaining_bytes != 0 ==> next == volume.SectorOf(Place(cur_cluster, cur_sector))
      ensures !stopped ==> now != read
    {
      hide Volume.SectorOf, Volume.Reaches, Content, Splice;
      ghost var before := buf[..];
      now, next, stopped := read, sector, true;
      var res := ReadFull(sector, buf, p);
      if 0 <= res {
        MoreDelivered(before, buf, was, at, c, read, 0x200);
        now := read + 0x200;
        next, stopped := MoveOn(sector);
      }
    }

    /** Where a request for `wanted` bytes stands after `read` of them, with more to come: n0 bytes of the file were
        left at its start. */
    ghost predicate Underway(sector: int, n0: int, read: nat)
      reads this
    {
      hide Volume.SectorOf, LongEnough;
      && Valid() && remaining_bytes == n0 - read && (remaining_bytes == 0 ==> LongEnough())
      && (remaining_bytes != 0 ==> sector == volume.SectorOf(Place(cur_cluster, cur_sector)))
    }

    /** How such a request may end. */
    ghost predicate Over(n0: int, wanted: nat, read: nat)
      reads this
    {
      hide LongEnough, Readable;
      && Valid() && read <= wanted
      && (remaining_bytes == n0 - read || (remaining_bytes == 0 && !LongEnough()))
      && (Readable() && LongEnough() ==> read == if wanted <= n0 then wanted else n0)
      && (Readable() && n0 <= wanted && n0 != 0 ==> remaining_bytes == 0 && (read == n0 <==> LongEnough()))
    }

    /** One pass of the loop of MsFatRead: the end of the file, or a sector. */
    method ReadNext(sector: int, buf: array<octet>, p: nat, read: nat, ghost n0: int, ghost wanted: nat,
                    ghost was: seq<octet>, ghost at: nat, ghost c: nat)
      returns (now: nat, next: int, stopped: bool)
      requires Underway(sector, n0, read) && read + 0x200 <= wanted && p + 0x200 <= buf.Length && buf != sector_buf
      requires Delivered(buf, was, at, c, read) && p == at + read && c == size - n0
      modifies this`remaining_bytes, this`cur_cluster, this`cur_sector, sector_buf, buf
      ensures Delivered(buf, was, at, c, now)
      ensures stopped ==> Over(n0, wanted, now)
      ensures !stopped ==> now == read + 0x200 && Underway(next, n0, now)
    {
      hide Volume.SectorOf, Volume.Reaches, Content, Splice, LongEnough, Delivered, Readable;
      if remaining_bytes != 0 && Readable() {
        NextIsReadable();
      }
      if remaining_bytes < 0x200 {
        now := TakeRest(sector, buf, p, read, was, at, c);
        return now, sector, true;
      }
      now, next, stopped := TakeSector(sector, buf, p, read, was, at, c);
    }

    /** MsFatRead for whole sectors' worth of bytes. What it delivers continues the file where the last call
        stopped; nothing is lost unless the chain is too short for the file. */
    method Read(buf: array<octet>, at: nat, wanted: nat) returns (read: nat)
      requires Valid() && wanted % 0x200 == 0 && at + wanted <= buf.Length && buf != sector_buf
      modifies this`remaining_bytes, this`cur_cluster, this`cur_sector, sector_buf, buf
      ensures Valid() && read <= wanted
      ensures Delivered(buf, old(buf[..]), at, size - old(remaining_bytes), read)
      ensures remaining_bytes == old(remaining_bytes) - read || (remaining_bytes == 0 && !LongEnough())
      ensures Readable() && LongEnough() ==>
                read == if wanted <= old(remaining_bytes) then wanted else old(remaining_bytes)
      ensures Readable() && old(remaining_bytes) <= wanted && old(remaining_bytes) != 0 ==>
                remaining_bytes == 0 && (read == old(remaining_bytes) <==> LongEnough())
    {
      hide Volume.SectorOf, Content, Splice, LongEnough, Delivered, Readable;
      ghost var was, c, n0 := buf[..], size - remaining_bytes, remaining_bytes;
      NothingYet(buf, at, c);
      read := 0;
      if remaining_bytes == 0 {
        return 0;
      }
      var sector := volume.SectorOf(Place(cur_cluster, cur_sector));
      read := ReadSectors(sector, buf, at, wanted, n0, was, c);
    }

    /** The loop of MsFatRead. */
    method ReadSectors(first: int, buf: array<octet>, at: nat, wanted: nat, ghost n0: int, ghost was: seq<octet>,
                       ghost c: nat)
      returns (read: nat)
      requires Underway(first, n0, 0) && wanted % 0x200 == 0 && at + wanted <= buf.Length && buf != sector_buf
      requires n0 != 0 && Delivered(buf, was, at, c, 0) && c == size - n0
      modifies this`remaining_bytes, this`cur_cluster, this`cur_sector, sector_buf, buf
      ensures Over(n0, wanted, read) && Delivered(buf, was, at, c, read)
    {
      hide Underway, Over, Delivered;
      var sector, remaining, p, stopped := first, wanted, at, false;
      read := 0;
      while 0 < remaining
        invariant Underway(sector, n0, read) && Delivered(buf, was, at, c, read)
        invariant remaining % 0x200 == 0 && read + remaining == wanted && p == at + read
        decreases remaining
      {
        read, sector, stopped := ReadNext(sector, buf, p, read, n0, wanted, was, at, c);
        if stopped {
          return read;
        }
        p := p + 0x200;
        remaining := remaining - 0x200;
      }
      AllRead(sector, n0, wanted);
    }

    lemma AllRead(sector: int, n0: int, wanted: nat)
      requires Underway(sector, n0, wanted)
      ensures Over(n0, wanted, wanted)
    {
      hide Volume.SectorOf, LongEnough, Readable;
    }
  }

  lemma BesideIt(v: Volume, cluster: nat, sector: nat)
    ensures v.SectorOf(Place(cluster, sector + 1)) == v.SectorOf(Place(cluster, sector)) + 1
  {
  }

  lemma FirstBytes(a: array<octet>, d: seq<octet>, n: nat)
    requires a[..] == d && n <= |d|
    ensures a[0..n] == d[..n]
  {
  }

  function Sum(sizes: seq<nat>): nat {
    if sizes == [] then 0 else Sum(sizes[..|sizes| - 1]) + sizes[|sizes| - 1]
  }

  /** One call with a buffer of its own. */
  method ReadPiece(driver: Driver, wanted: nat) returns (piece: seq<octet>)
    requires driver.Valid() && wanted % 0x200 == 0
    modifies driver`remaining_bytes, driver`cur_cluster, driver`cur_sector, driver.sector_buf
    ensures driver.Valid() && |piece| <= wanted && |piece| <= old(driver.remaining_bytes)
    ensures piece == var c := driver.size - old(driver.remaining_bytes); driver.Content()[c..c + |piece|]
    ensures driver.remaining_bytes == old(driver.remaining_bytes) - |piece|
            || (driver.remaining_bytes == 0 && !driver.LongEnough())
    ensures driver.Readable() && driver.LongEnough() ==>
              |piece| == if wanted <= old(driver.remaining_bytes) then wanted else old(driver.remaining_bytes)
  {
    hide Driver.Content, Driver.LongEnough, Driver.Readable, Splice;
    var buf := new octet[wanted];
    ghost var was, c := buf[..], driver.size - driver.remaining_bytes;
    var n := driver.Read(buf, 0, wanted);
    SpliceRead(was, 0, driver.Content()[c..c + n]);
    assert buf[..n] == buf[..][0..n];
    piece := buf[..n];
  }

  /** A file that was just opened, read by any sequence of calls: put together, they deliver a prefix of the file. */
  method ReadAll(driver: Driver, sizes: seq<nat>) returns (out: seq<octet>)
    requires driver.Valid() && driver.remaining_bytes == driver.size
    requires forall i | 0 <= i < |sizes| :: sizes[i] % 0x200 == 0
    modifies driver`remaining_bytes, driver`cur_cluster, driver`cur_sector, driver.sector_buf
    ensures driver.Valid() && |out| <= driver.size && out == driver.Content()[..|out|]
    ensures driver.remaining_bytes == driver.size - |out| || (driver.remaining_bytes == 0 && !driver.LongEnough())
    ensures driver.Readable() && driver.LongEnough() ==>
              |out| == if Sum(sizes) <= driver.size then Sum(sizes) else driver.size
  {
    hide Driver.Content, Driver.LongEnough, Driver.Readable, Driver.Valid;
    out := [];
    for i := 0 to |sizes|
      invariant driver.Valid() && |out| <= driver.size && out == driver.Content()[..|out|]
      invariant driver.remaining_bytes == driver.size - |out| || (driver.remaining_bytes == 0 && !driver.LongEnough())
      invariant driver.Readable() && driver.LongEnough() ==>
                  |out| == if Sum(sizes[..i]) <= driver.size then Sum(sizes[..i]) else driver.size
    {
      assert sizes[..i + 1][..i] == sizes[..i];
      ghost var c := driver.size - driver.remaining_bytes;
      var piece := ReadPiece(driver, sizes[i]);
      if c == |out| {
        assert driver.Content()[..c + |piece|] == driver.Content()[..c] + driver.Content()[c..c + |piece|];
      } else {
        assert out + piece == out;
      }
      out := out + piece;
    }
    assert sizes[..|sizes|] == sizes;
  }

  lemma {:induction false} AdvanceSector(v: Volume, p: Place, k: nat)
    requires p.sector < v.sectorsPerCluster
    ensures v.Advance(p, k).sector < v.sectorsPerCluster
  {
    if k != 0 {
      AdvanceSector(v, p, k - 1);
    }
  }

  lemma ReachesFurther(v: Volume, p: Place, k: nat)
    requires v.Reaches(p, k) && v.ValidCluster(v.Advance(p, k).cluster)
    ensures v.Reaches(p, k + 1)
  {
  }

  /** A chain that ends after k sectors is long enough for files of at most k sectors, and no others. */
  lemma ChainEnds(v: Volume, p: Place, k: nat, size: nat)
    requires v.Reaches(p, k) && !v.ValidCluster(v.Advance(p, k).cluster) && 0x200 * k <= size
    ensures v.Reaches(p, Sectors(size)) <==> size == 0x200 * k
  {
    hide Volume.Advance;
  }
}
