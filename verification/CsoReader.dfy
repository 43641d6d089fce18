/** The compressed-image reader of modules/galaxy/csoread.c: an index window and a data window in front of
    the image file. Deflate is an uninterpreted function of the bytes it is given. */
module CsoReader {
  import opened Bytes
  import opened Octets
  import opened Words

  const SECTOR: nat := 0x800
  const HEADER: nat := 0x18
  const INDEX_SIZE: nat := 128
  const BUF_SIZE: nat := 0x2000
  const NO_INDEX: nat := 0xffffffff
  const NO_POS: nat := 0xfff00000
  const MAX_FILE: nat := 0x7fffffff

  // ----- The image format

  function IndexPos(k: nat): nat { HEADER + 4 * k }

  /** Index entry k. */
  function Entry(file: seq<octet>, k: nat): nat
    requires IndexPos(k) + 4 <= |file|
  {
    Little32(file[IndexPos(k)..IndexPos(k) + 4])
  }

  predicate IsPlain(entry: nat) { entry / 0x80000000 % 2 == 1 }

  function Position(entry: nat, align: nat): nat { entry % 0x80000000 * Pow2(align) }

  function MinNat(a: nat, b: nat): nat { if a <= b then a else b }

  /** How many bytes a compressed block may take: up to the next block, but never more than a sector. */
  function BlockSize(pos: nat, next: nat): (n: nat)
    ensures 0 < n <= SECTOR
  {
    if next <= pos || SECTOR < next - pos then SECTOR else next - pos
  }

  /** The stored bytes of block k, as far as the file goes. */
  function Stored(file: seq<octet>, align: nat, k: nat): seq<octet>
    requires IndexPos(k + 1) + 4 <= |file|
  {
    var pos := Position(Entry(file, k), align);
    var n := BlockSize(pos, Position(Entry(file, k + 1), align));
    if pos <= |file| then file[pos..MinNat(pos + n, |file|)] else []
  }

  type Inflate = seq<octet> -> Option<seq<octet>>

  function Block(image: seq<octet>, k: nat): (b: seq<octet>)
    requires SECTOR * (k + 1) <= |image|
    ensures |b| == SECTOR
  {
    image[SECTOR * k..SECTOR * (k + 1)]
  }

  /** Block k of the file holds block k of the image: in plain, or as a compressed stream that ends within
      its stored bytes, whatever follows them. */
  ghost predicate Holds(file: seq<octet>, align: nat, inflate: Inflate, image: seq<octet>, k: nat)
    requires SECTOR * (k + 1) <= |image|
  {
    IndexPos(k + 1) + 4 <= |file| &&
    var pos := Position(Entry(file, k), align);
    pos < MAX_FILE
    && if IsPlain(Entry(file, k)) then pos + SECTOR <= |file| && file[pos..pos + SECTOR] == Block(image, k)
       else Position(Entry(file, k + 1), align) < MAX_FILE
            && forall rest :: inflate(Stored(file, align, k) + rest) == Some(Block(image, k))
  }

  ghost predicate WellFormed(file: seq<octet>, align: nat, inflate: Inflate, image: seq<octet>) {
    |file| < MAX_FILE && |image| % SECTOR == 0 && |image| < MAX_FILE
    && forall k: nat | SECTOR * (k + 1) <= |image| :: Holds(file, align, inflate, image, k)
  }

  /** A window matches the file wherever the file reaches. */
  ghost predicate Matches(window: seq<octet>, pos: nat, file: seq<octet>) {
    forall i | 0 <= i < |window| && pos + i < |file| :: window[i] == file[pos + i]
  }

  // ----- The reader

  class Reader {
    const file: seq<octet>
    const align: nat
    const inflate: Inflate
    ghost const image: seq<octet>
    const faulty: bool             // whether device reads may fail

    const index_buf: array<octet>
    const data_buf: array<octet>
    const ciso_sector: array<octet>
    var cur_index: nat
    var buf_pos: nat

    /** CisoOpen, for a file that is such an image: both windows empty. */
    constructor (file: seq<octet>, align: nat, inflate: Inflate, ghost image: seq<octet>, faulty: bool)
      requires WellFormed(file, align, inflate, image)
      ensures Valid() && this.image == image && this.faulty == faulty
      ensures fresh(index_buf) && fresh(data_buf) && fresh(ciso_sector)
    {
      this.file, this.align, this.inflate, this.image, this.faulty := file, align, inflate, image, faulty;
      index_buf := new octet[4 * INDEX_SIZE];
      data_buf := new octet[BUF_SIZE];
      ciso_sector := new octet[SECTOR];
      cur_index, buf_pos := NO_INDEX, 0x7FFFFFFF;
    }

    ghost predicate Valid()
      reads this, index_buf, data_buf
    {
      && index_buf != data_buf && index_buf != ciso_sector && data_buf != ciso_sector
      && index_buf.Length == 4 * INDEX_SIZE && data_buf.Length == BUF_SIZE && ciso_sector.Length == SECTOR
      && WellFormed(file, align, inflate, image)
      && (cur_index == NO_INDEX || Matches(index_buf[..], IndexPos(cur_index), file))
      && Matches(data_buf[..], buf_pos, file)
    }

    /** ReadUmdFileRetry: the bytes of the file from pos, as many as there are; or a failure that writes
        nothing. */
    method ReadUmd(buf: array<octet>, at: nat, size: nat, pos: nat) returns (res: int)
      requires at + size <= buf.Length
      modifies buf
      ensures res < 0 ==> buf[..] == old(buf[..]) && faulty
      ensures 0 <= res ==> var n := if pos <= |file| then MinNat(size, |file| - pos) else 0;
                           res == n && buf[..] == Splice(old(buf[..]), at, if n == 0 then [] else file[pos..pos + n])
    {
      if * {
        if faulty {
          return -1;
        }
      }
      var n := if pos <= |file| then MinNat(size, |file| - pos) else 0;
      for i := 0 to n
        invariant forall k | 0 <= k < buf.Length ::
                    buf[k] == if at <= k < at + i then file[pos + k - at] else old(buf[k])
      {
        buf[at + i] := file[pos + i];
      }
      res := n;
    }

    /** A whole window of the file, from pos. */
    method ReadWindow(buf: array<octet>, pos: nat) returns (res: int)
      modifies buf
      ensures res < 0 ==> buf[..] == old(buf[..]) && faulty
      ensures 0 <= res ==> Matches(buf[..], pos, file)
    {
      hide Splice;
      ghost var was := buf[..];
      res := ReadUmd(buf, 0, buf.Length, pos);
      if 0 <= res {
        WindowMatches(was, buf[..], pos, file, res);
      }
    }

    /** The index window moved to `sector`, unless that entry is in it already. */
    method FillIndexWindow(sector: nat) returns (res: int)
      requires Valid() && IndexPos(sector) + 4 <= |file|
      modifies this`cur_index, index_buf
      ensures Valid() && (res < 0 ==> faulty)
      ensures 0 <= res ==> cur_index != NO_INDEX && cur_index <= sector < cur_index + INDEX_SIZE
    {
      assert |file| < MAX_FILE;
      hide WellFormed, Matches;
      var index_off := sector - cur_index;
      if cur_index == NO_INDEX || index_off < 0 || INDEX_SIZE <= index_off {
        res := ReadWindow(index_buf, IndexPos(sector));
        if res < 0 {
          return res;
        }
        cur_index := sector;
      }
      res := 0;
    }

    /** ciso_get_index: entry `sector`, through the index window. */
    method GetIndex(sector: nat) returns (res: int, index: nat)
      requires Valid() && IndexPos(sector) + 4 <= |file|
      modifies this`cur_index, index_buf
      ensures Valid() && (res < 0 ==> faulty)
      ensures 0 <= res ==> index == Entry(file, sector)
    {
      hide WellFormed, Little32;
      index := 0;
      res := FillIndexWindow(sector);
      if res < 0 {
        return res, 0;
      }
      var index_off := sector - cur_index;
      EntryInWindow(index_buf[..], cur_index, file, index_off);
      assert index_buf[4 * index_off..4 * index_off + 4] == index_buf[..][4 * index_off..4 * index_off + 4];
      index := Little32(index_buf[4 * index_off..4 * index_off + 4]);
    }

    /** The data window moved to pos, unless the n bytes there are in it already. */
    method FillDataWindow(pos: nat, n: nat) returns (res: int)
      requires Valid() && pos < MAX_FILE && n <= SECTOR
      modifies this`buf_pos, data_buf
      ensures Valid() && (res < 0 ==> faulty)
      ensures 0 <= res ==> buf_pos <= pos && pos + n <= buf_pos + BUF_SIZE
    {
      assert |file| < MAX_FILE;
      hide WellFormed, Matches;
      if pos < buf_pos || buf_pos + BUF_SIZE < pos + n {
        res := ReadWindow(data_buf, pos);
        if res < 0 {
          NoWindow(data_buf[..], file);
          buf_pos := NO_POS;
          return res;
        }
        buf_pos := pos;
      }
      res := 0;
    }

    /** ciso_read_one: block `sector` of the image, into buf at position at. */
    method ReadOne(buf: array<octet>, at: nat, sector: nat) returns (res: int)
      requires Valid() && at + SECTOR <= buf.Length && buf != index_buf && buf != data_buf
      requires SECTOR * (sector + 1) <= |image|
      modifies this`cur_index, this`buf_pos, index_buf, data_buf, buf
      ensures Valid() && (res < 0 ==> faulty && buf[..] == old(buf[..]))
      ensures 0 <= res ==> buf[..] == Splice(old(buf[..]), at, Block(image, sector))
    {
      hide WellFormed, Splice, Stored, Position;
      HeldBlock(file, align, inflate, image, sector);
      var index: nat, index2: nat;
      res, index := GetIndex(sector);
      if res < 0 {
        return res;
      }
      var dpos := Position(index, align);
      if IsPlain(index) {
        res := ReadUmd(buf, at, SECTOR, dpos);
        return res;
      }
      res, index2 := GetIndex(sector + 1);
      if res < 0 {
        return res;
      }
      var dsize := BlockSize(dpos, Position(index2, align));
      res := FillDataWindow(dpos, dsize);
      if res < 0 {
        return res;
      }
      res := Decompress(buf, at, dpos, sector);
    }

    /** sceKernelDeflateDecompress from the place of dpos in the data window. */
    method Decompress(buf: array<octet>, at: nat, dpos: nat, sector: nat) returns (res: int)
      requires Valid() && at + SECTOR <= buf.Length && buf != index_buf && buf != data_buf
      requires SECTOR * (sector + 1) <= |image| && IndexPos(sector + 1) + 4 <= |file|
      requires !IsPlain(Entry(file, sector)) && dpos == Position(Entry(file, sector), align)
      requires var n := BlockSize(dpos, Position(Entry(file, sector + 1), align));
               buf_pos <= dpos && dpos + n <= buf_pos + BUF_SIZE
      modifies buf
      ensures Valid() && res == SECTOR && buf[..] == Splice(old(buf[..]), at, Block(image, sector))
    {
      hide WellFormed, Splice, Position;
      HeldBlock(file, align, inflate, image, sector);
      ghost var n := BlockSize(dpos, Position(Entry(file, sector + 1), align));
      StoredInWindow(data_buf[..], buf_pos, file, dpos, n);
      ghost var stored := Stored(file, align, sector);
      var src := data_buf[dpos - buf_pos..];
      StartsWith(src, stored);
      var out := inflate(src);
      PutBytes(buf, at, out.value);
      res := SECTOR;
    }

    /** Part of a block, from offset x of it, through the sector buffer. */
    method ReadPart(buf: array<octet>, p: nat, sector: nat, x: nat, m: nat) returns (res: int)
      requires Valid() && x + m <= SECTOR && p + m <= buf.Length
      requires buf != index_buf && buf != data_buf && buf != ciso_sector && SECTOR * (sector + 1) <= |image|
      modifies this`cur_index, this`buf_pos, index_buf, data_buf, ciso_sector, buf
      ensures Valid() && (res < 0 ==> faulty && buf[..] == old(buf[..]))
      ensures 0 <= res ==> buf[..] == Splice(old(buf[..]), p, Block(image, sector)[x..x + m])
    {
      hide WellFormed, Block;
      res := ReadOne(ciso_sector, 0, sector);
      if res < 0 {
        return res;
      }
      assert ciso_sector[..] == Block(image, sector);
      assert ciso_sector[x..x + m] == ciso_sector[..][x..x + m];
      Copy(ciso_sector, x, buf, p, m);
    }

    /** The whole blocks in the middle of a request, directly into the caller's buffer. */
    method ReadWhole(buf: array<octet>, start: nat, first: nat, nsectors: nat, ghost offset: nat, ghost was: seq<octet>)
      returns (res: int)
      requires Valid() && buf != index_buf && buf != data_buf && buf != ciso_sector && buf.Length == |was|
      requires 0 < nsectors ==> offset + start == SECTOR * first && SECTOR * (first + nsectors) <= |image|
      requires start + SECTOR * nsectors <= buf.Length && Delivered(buf[..], was, image, offset, start)
      modifies this`cur_index, this`buf_pos, index_buf, data_buf, buf
      ensures Valid() && (res < 0 ==> faulty)
      ensures 0 <= res ==> Delivered(buf[..], was, image, offset, start + SECTOR * nsectors)
    {
      hide WellFormed, Block, Delivered;
      var p, lba := start, first;
      for i := 0 to nsectors
        invariant Valid() && p == start + SECTOR * i && lba == first + i
        invariant Delivered(buf[..], was, image, offset, p)
      {
        ghost var now := buf[..];
        res := ReadOne(buf, p, lba);
        if res < 0 {
          return res;
        }
        WholeBlockDelivered(now, was, image, offset, p, lba);
        p := p + SECTOR;
        lba := lba + 1;
      }
      res := 0;
    }

    /** The part of a request before the first block boundary. */
    method ReadHead(buf: array<octet>, size: nat, offset: nat, x: nat, lba: nat) returns (res: int, read: nat)
      requires Valid() && size <= buf.Length && offset + size <= |image| && x < SECTOR && offset == SECTOR * lba + x
      requires buf != index_buf && buf != data_buf && buf != ciso_sector
      modifies this`cur_index, this`buf_pos, index_buf, data_buf, ciso_sector, buf
      ensures Valid() && (res < 0 ==> faulty)
      ensures 0 <= res ==> read == (if x == 0 then 0 else MinNat(SECTOR - x, size))
                           && Delivered(buf[..], old(buf[..]), image, offset, read)
    {
      BlockInside(image, offset, lba, x);
      hide WellFormed, Block, Delivered;
      NothingDelivered(buf[..], image, offset);
      res, read := 0, 0;
      if x != 0 {
        var m := SECTOR - x;
        if size < m {
          m := size;
        }
        ghost var was := buf[..];
        res := ReadPart(buf, 0, lba, x, m);
        if res < 0 {
          return res, 0;
        }
        PartDelivered(was, was, image, offset, 0, lba, x, m);
        read := m;
      }
    }

    /** The part behind the last block boundary. */
    method ReadTail(buf: array<octet>, read: nat, lba: nat, remaining: nat, ghost offset: nat, ghost was: seq<octet>)
      returns (res: int)
      requires Valid() && buf != index_buf && buf != data_buf && buf != ciso_sector && buf.Length == |was|
      requires 0 < remaining < SECTOR && offset + read == SECTOR * lba && offset + read + remaining <= |image|
      requires read + remaining <= buf.Length && Delivered(buf[..], was, image, offset, read)
      modifies this`cur_index, this`buf_pos, index_buf, data_buf, ciso_sector, buf
      ensures Valid() && (res < 0 ==> faulty)
      ensures 0 <= res ==> Delivered(buf[..], was, image, offset, read + remaining)
    {
      BlockInside(image, offset + read, lba, 0);
      hide WellFormed, Block, Delivered;
      ghost var now := buf[..];
      res := ReadPart(buf, read, lba, 0, remaining);
      if res < 0 {
        return res;
      }
      PartDelivered(now, was, image, offset, read, lba, 0, remaining);
    }

    /** The whole blocks and the part behind them. */
    method ReadBlocks(buf: array<octet>, start: nat, first: nat, size: nat, ghost offset: nat, ghost was: seq<octet>)
      returns (res: int)
      requires Valid() && buf != index_buf && buf != data_buf && buf != ciso_sector && buf.Length == |was|
      requires size != 0 ==> offset + start == SECTOR * first
      requires offset + start + size <= |image|
      requires start + size <= buf.Length && Delivered(buf[..], was, image, offset, start)
      modifies this`cur_index, this`buf_pos, index_buf, data_buf, ciso_sector, buf
      ensures Valid() && (res < 0 ==> faulty)
      ensures 0 <= res ==> res == start + size && Delivered(buf[..], was, image, offset, start + size)
    {
      assert |image| % SECTOR == 0;
      hide WellFormed, Block, Delivered;
      var read, remaining, lba := start, size, first;
      var nsectors := remaining / SECTOR;
      BlocksInside(|image|, offset, read, remaining, lba, nsectors);
      res := ReadWhole(buf, read, lba, nsectors, offset, was);
      if res < 0 {
        return res;
      }
      read, remaining, lba := read + SECTOR * nsectors, remaining - SECTOR * nsectors, lba + nsectors;
      if remaining != 0 {
        res := ReadTail(buf, read, lba, remaining, offset, was);
        if res < 0 {
          return res;
        }
        read := read + remaining;
      }
      res := read;
    }

    /** CisoReadFile: the bytes of the image from offset, or a failure of the device. What earlier calls left
        in the windows does not matter. */
    method ReadFile(buf: array<octet>, size: nat, offset: nat) returns (res: int)
      requires Valid() && size <= buf.Length && offset + size <= |image|
      requires buf != index_buf && buf != data_buf && buf != ciso_sector
      modifies this`cur_index, this`buf_pos, index_buf, data_buf, ciso_sector, buf
      ensures Valid() && (res < 0 ==> faulty)
      ensures 0 <= res ==> res == size && buf[..] == image[offset..offset + size] + old(buf[..])[size..]
    {
      hide WellFormed, Block, Delivered, Valid, MinNat, FirstBlock, InBlock;
      ghost var was := buf[..];
      var lba, x, read: nat := FirstBlock(offset), InBlock(offset), 0;
      BlockAndRest(offset);
      res, read := ReadHead(buf, size, offset, x, lba);
      if res < 0 {
        return res;
      }
      NextBoundary(offset, size, lba, x, read);
      if x != 0 {
        lba := lba + 1;
      }
      res := ReadBlocks(buf, read, lba, size - read, offset, was);
      if res < 0 {
        return res;
      }
      AllDelivered(buf[..], was, image, offset, size);
    }
  }

  /** Where the part before the first block boundary ends. */
  lemma NextBoundary(offset: nat, size: nat, lba: nat, x: nat, read: nat)
    requires x < SECTOR && offset == SECTOR * lba + x && read == if x == 0 then 0 else MinNat(SECTOR - x, size)
    ensures read <= size && (read < size ==> offset + read == SECTOR * (if x != 0 then lba + 1 else lba))
  {
  }

  function FirstBlock(offset: nat): nat { offset / SECTOR }
  function InBlock(offset: nat): nat { offset % SECTOR }

  lemma BlockAndRest(offset: nat)
    ensures offset == SECTOR * FirstBlock(offset) + InBlock(offset) && InBlock(offset) < SECTOR
  {
  }

  lemma StartsWith(src: seq<octet>, stored: seq<octet>)
    requires |stored| <= |src| && src[..|stored|] == stored
    ensures src == stored + src[|stored|..]
  {
  }

  lemma HeldBlock(file: seq<octet>, align: nat, inflate: Inflate, image: seq<octet>, k: nat)
    requires WellFormed(file, align, inflate, image) && SECTOR * (k + 1) <= |image|
    ensures Holds(file, align, inflate, image, k)
  {
  }

  lemma WindowMatches(was: seq<octet>, now: seq<octet>, pos: nat, file: seq<octet>, n: nat)
    requires n == (if pos <= |file| then MinNat(|was|, |file| - pos) else 0)
    requires now == Splice(was, 0, if n == 0 then [] else file[pos..pos + n])
    ensures Matches(now, pos, file)
  {
    var p := if n == 0 then [] else file[pos..pos + n];
    forall i | 0 <= i < |now| && pos + i < |file|
      ensures now[i] == file[pos + i]
    {
      assert i < n && now[i] == p[i];
    }
  }

  /** An invalid window lies behind every file. */
  lemma NoWindow(window: seq<octet>, file: seq<octet>)
    requires |file| < MAX_FILE
    ensures Matches(window, NO_POS, file)
  {
  }

  lemma EntryInWindow(window: seq<octet>, cur: nat, file: seq<octet>, off: nat)
    requires |window| == 4 * INDEX_SIZE && off < INDEX_SIZE && Matches(window, IndexPos(cur), file)
    requires IndexPos(cur + off) + 4 <= |file|
    ensures window[4 * off..4 * off + 4] == file[IndexPos(cur + off)..IndexPos(cur + off) + 4]
  {
  }

  lemma StoredInWindow(window: seq<octet>, pos: nat, file: seq<octet>, dpos: nat, n: nat)
    requires |window| == BUF_SIZE && Matches(window, pos, file) && pos <= dpos && dpos + n <= pos + BUF_SIZE
    ensures var stored := if dpos <= |file| then file[dpos..MinNat(dpos + n, |file|)] else [];
            |stored| <= |window[dpos - pos..]| && window[dpos - pos..][..|stored|] == stored
  {
  }

  /** The first n bytes asked for are in the buffer, the rest is as it was. */
  ghost predicate Delivered(now: seq<octet>, was: seq<octet>, image: seq<octet>, offset: nat, n: nat) {
    n <= |was| && offset + n <= |image| && now == Splice(was, 0, image[offset..offset + n])
  }

  lemma NothingDelivered(was: seq<octet>, image: seq<octet>, offset: nat)
    requires offset <= |image|
    ensures Delivered(was, was, image, offset, 0)
  {
  }

  lemma AllDelivered(now: seq<octet>, was: seq<octet>, image: seq<octet>, offset: nat, size: nat)
    requires Delivered(now, was, image, offset, size)
    ensures now == image[offset..offset + size] + was[size..]
  {
  }

  lemma PartDelivered(now: seq<octet>, was: seq<octet>, image: seq<octet>, offset: nat, p: nat, lba: nat, x: nat,
                      m: nat)
    requires Delivered(now, was, image, offset, p) && offset + p == SECTOR * lba + x && x + m <= SECTOR
    requires SECTOR * (lba + 1) <= |image| && p + m <= |was|
    ensures Delivered(Splice(now, p, Block(image, lba)[x..x + m]), was, image, offset, p + m)
  {
    hide Splice;
    SliceOfSlice(image, SECTOR * lba, SECTOR, x, m);
    var a, b := image[offset..offset + p], image[offset + p..offset + p + m];
    assert a + b == image[offset..offset + (p + m)];
    SpliceTwice(was, 0, a, b);
  }

  lemma WholeBlockDelivered(now: seq<octet>, was: seq<octet>, image: seq<octet>, offset: nat, p: nat, lba: nat)
    requires Delivered(now, was, image, offset, p) && offset + p == SECTOR * lba
    requires SECTOR * (lba + 1) <= |image| && p + SECTOR <= |was|
    ensures Delivered(Splice(now, p, Block(image, lba)), was, image, offset, p + SECTOR)
  {
    hide Splice;
    PartDelivered(now, was, image, offset, p, lba, 0, SECTOR);
    assert Block(image, lba)[0..SECTOR] == Block(image, lba);
  }

  lemma BlockInside(image: seq<octet>, o: nat, lba: nat, x: nat)
    requires |image| % SECTOR == 0 && o <= |image| && o == SECTOR * lba + x && x < SECTOR
    ensures o < |image| ==> SECTOR * (lba + 1) <= |image|
    ensures x != 0 ==> o < |image|
  {
  }

  lemma BlocksInside(total: nat, offset: nat, read: nat, remaining: nat, lba: nat, nsectors: nat)
    requires total % SECTOR == 0 && offset + read + remaining <= total && nsectors == remaining / SECTOR
    requires remaining != 0 ==> offset + read == SECTOR * lba
    ensures 0 < nsectors ==> SECTOR * (lba + nsectors) <= total
    ensures remaining - SECTOR * nsectors < SECTOR
  {
  }
}
