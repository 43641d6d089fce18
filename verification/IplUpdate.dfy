/** Writing the initial program loader and reading it back: modules/ipl_update/main.c. */
module IplUpdate {
  import opened Bytes
  import opened Octets
  import opened Nand
  import opened IplBlocks

  /** Every block outside a range, and every block from `upto` on, is as it was. */
  ghost predicate SameOutside(c: Contents, was: Contents, from: nat, upto: nat) {
    forall b | 0 <= b < TOTAL_BLOCKS && !(from <= b < upto) :: c[b] == was[b]
  }

  class Updater {
    const chip: Chip
    const user: array<octet>
    const spare: array<octet>

    constructor (chip: Chip)
      ensures Valid() && this.chip == chip && fresh(user) && fresh(spare)
    {
      this.chip := chip;
      user := new octet[BLOCK_SIZE];
      spare := new octet[SPARE_SIZE];
    }

    ghost predicate Valid() { user.Length == BLOCK_SIZE && spare.Length == SPARE_SIZE && user != spare }

    /** sceNandEraseIplBlockWithRetry: nothing outside the area of the loader is touched. */
    method EraseIplBlock(ppn: nat) returns (res: int)
      requires ppn % PAGES_PER_BLOCK == 0
      modifies chip
      ensures forall b | 0 <= b < TOTAL_BLOCKS && (0x30 <= b || b != ppn / PAGES_PER_BLOCK) ::
                chip.content[b] == old(chip.content)[b]
      ensures 0 <= res ==> ppn / PAGES_PER_BLOCK < 0x30 && chip.content[ppn / PAGES_PER_BLOCK] == ERASED
    {
      if 0x600 <= ppn {
        return -1;
      }
      res := chip.EraseBlock(ppn);
    }

    /** sceNandWriteIplBlockWithVerify. */
    method WriteIplBlock(ppn: nat, data: BlockUser, sp: BlockSpare) returns (res: int)
      requires ppn % PAGES_PER_BLOCK == 0
      modifies chip
      ensures forall b | 0 <= b < TOTAL_BLOCKS && (0x30 <= b || b != ppn / PAGES_PER_BLOCK) ::
                chip.content[b] == old(chip.content)[b]
      ensures 0 <= res ==> ppn / PAGES_PER_BLOCK < 0x30 && chip.content[ppn / PAGES_PER_BLOCK] == Block(data, sp)
      ensures res < 0 && ppn / PAGES_PER_BLOCK < 0x30 ==> !chip.writable(ppn / PAGES_PER_BLOCK)
      ensures 0 <= res && chip.certain ==> chip.writable(ppn / PAGES_PER_BLOCK)
    {
      if 0x600 <= ppn {
        return -1;
      }
      res := chip.WriteBlock(ppn, data, sp);
    }

    /** pspIplClearIpl: every block of the area is erased or has failed; the others are not touched. */
    method ClearIpl() returns (res: int)
      modifies chip
      ensures res == 0 && SameOutside(chip.content, old(chip.content), 0, 0x30)
    {
      for block := 0 to 0x30
        invariant SameOutside(chip.content, old(chip.content), 0, block)
      {
        var r := EraseIplBlock(block * PAGES_PER_BLOCK);
      }
      res := 0;
    }

    // ----- Writing

    /** The spare bytes of data blocks: the same twelve for each page. */
    method InitSpare(key: nat)
      requires Valid() && key < 0x10000
      modifies spare
      ensures IsDataSpare(spare[..], key)
    {
      hide Put16, Put32;
      for i := 0 to PAGES_PER_BLOCK
        invariant forall k | 0 <= k < i :: spare[12 * k..12 * k + 12] == PageSpare(key)
      {
        ghost var was := spare[..];
        PutBytes(spare, 12 * i, PageSpare(key));
        forall k | 0 <= k <= i
          ensures spare[12 * k..12 * k + 12] == PageSpare(key)
        {
          if k == i {
            SpliceRead(was, 12 * i, PageSpare(key));
            assert spare[12 * k..12 * k + 12] == spare[..][12 * k..12 * k + 12];
          } else {
            SpliceElsewhere(was, 12 * i, PageSpare(key), 12 * k, 12 * k + 12);
            assert spare[12 * k..12 * k + 12] == spare[..][12 * k..12 * k + 12] == was[12 * k..12 * k + 12];
          }
        }
      }
      assert forall k | 0 <= k < PAGES_PER_BLOCK :: spare[..][12 * k..12 * k + 12] == spare[12 * k..12 * k + 12];
    }

    /** A data block into the next block that takes it. The search goes on past the end of the area, until the page
        number wraps around, and ends if there is a good block in the area at all. As long as one is ahead, it stays
        inside the area. `n` is the number of blocks passed over. */
    method WriteOne(data: BlockUser, from: nat) returns (block: nat, ghost n: nat)
      requires Valid() && from < 0x1_0000_0000 && exists b: nat :: b < 0x30 && chip.writable(b)
      modifies chip
      ensures block == Later(from, n) && n < 0x800_0000 && PassedOver(chip.writable, from, n)
      ensures Slot(block) < 0x30 && chip.content[Slot(block)] == Block(data, spare[..])
      ensures chip.certain ==> chip.writable(Slot(block))
      ensures SameOutside(chip.content, old(chip.content), 0, 0x30)
      ensures 0 < WritableFrom(chip.writable, from) ==>
                from <= block < 0x30 && SameOutside(chip.content, old(chip.content), from, 0x30)
                && WritableFrom(chip.writable, from) <= WritableFrom(chip.writable, block + 1) + 1
    {
      hide Later, Slot, Gap, Takes, PassedOver, WritableFrom, SameOutside;
      ghost var good: nat :| good < 0x30 && chip.writable(good);
      ghost var was := chip.content;
      block, n := from, 0;
      LaterNext(from, 0);
      GapBounds(from, good);
      Beginning(chip.writable, from);
      Untouched(was, 0);
      Untouched(was, from);
      while true
        invariant block < 0x1_0000_0000 && block == Later(from, n) && PassedOver(chip.writable, from, n)
        invariant 0 <= Gap(block, good) < 0x800_0000 && n + Gap(block, good) == Gap(from, good)
        invariant SameOutside(chip.content, was, 0, 0x30)
        invariant 0 < WritableFrom(chip.writable, from) ==>
                    from <= block < 0x30 && SameOutside(chip.content, was, from, 0x30)
                    && WritableFrom(chip.writable, from) == WritableFrom(chip.writable, block)
        decreases Gap(block, good)
      {
        Beginning(chip.writable, (block + 1) % 0x1_0000_0000);
        StillAhead(chip.writable, block);
        ghost var before := chip.content;
        var taken := TryBlock(data, block);
        OneTouched(was, before, chip.content, 0, block);
        if 0 < WritableFrom(chip.writable, from) {
          OneTouched(was, before, chip.content, from, block);
        }
        if taken {
          break;
        }
        OneStep(chip.writable, from, block, n, good);
        block := (block + 1) % 0x1_0000_0000;
        n := n + 1;
      }
    }

    /** One block number: its block takes the data, or is erased if it can be. */
    method TryBlock(data: BlockUser, block: nat) returns (taken: bool)
      requires Valid() && block < 0x1_0000_0000
      modifies chip
      ensures forall b | 0 <= b < TOTAL_BLOCKS && (0x30 <= b || b != Slot(block)) ::
                chip.content[b] == old(chip.content)[b]
      ensures taken ==> Slot(block) < 0x30 && chip.content[Slot(block)] == Block(data, spare[..])
                        && (chip.certain ==> chip.writable(Slot(block)))
      ensures !taken ==> !Takes(chip.writable, block)
      ensures block < 0x30 ==> Slot(block) == block
    {
      SlotIs(block);
      hide Slot;
      var ppn := block * PAGES_PER_BLOCK % 0x1_0000_0000;
      var res := WriteIplBlock(ppn, data, spare[..]);
      taken := 0 <= res;
      if res < 0 {
        res := EraseIplBlock(ppn);
      }
    }

    /** The data of block i, through the buffer `user` if it is the last block and not whole. */
    method PieceOf(buf: array<octet>, size: nat, i: nat, nblocks: nat) returns (piece: BlockUser)
      requires Valid() && size <= buf.Length && size < 0x1_0000_0000 && buf != user
      requires nblocks == BlockCount(size) && i < nblocks
      modifies user
      ensures BLOCK_SIZE * i < size && piece == Piece(buf[..size], i)
    {
      BlockStarts(size, i);
      var at := BLOCK_SIZE * i;
      if i == nblocks - 1 && size % BLOCK_SIZE != 0 {
        var mod := size % BLOCK_SIZE;
        Fill(user, 0, BLOCK_SIZE, 0xFF);
        ghost var filled := user[..];
        Copy(buf, at, user, 0, mod);
        piece := user[..];
        assert piece == buf[at..size] + filled[mod..];
        assert buf[..size][at..] == buf[at..size];
      } else {
        piece := buf[at..at + BLOCK_SIZE];
        assert buf[..size][at..at + BLOCK_SIZE] == buf[at..at + BLOCK_SIZE];
      }
    }

    /** The data blocks, and the lower halves of their numbers in the table. If the data area has enough good blocks,
        the data stays in it; on a perfect chip, 32 blocks of data end in block 0. */
    method WriteData(buf: array<octet>, size: nat, nblocks: nat, blocktable: array<nat>)
      requires Valid() && size <= buf.Length && size < 0x1_0000_0000 && nblocks == BlockCount(size)
      requires nblocks <= blocktable.Length && nblocks <= MAX_DATA_BLOCKS && buf != user && buf != spare
      requires 0 < nblocks ==> exists b: nat :: b < 0x30 && chip.writable(b)
      modifies chip, user, blocktable
      ensures SameOutside(chip.content, old(chip.content), 0, 0x30)
      ensures InBlocks(chip.writable, chip.certain, blocktable[..nblocks])
      ensures Room(chip.writable, nblocks) ==>
                SameOutside(chip.content, old(chip.content), 0x11, 0x30)
                && HoldsData(chip.content, blocktable[..nblocks], buf[..size])
                && SparesAre(chip.content, blocktable[..nblocks], spare[..])
      ensures Perfect(chip.writable) && nblocks == MAX_DATA_BLOCKS ==>
                BLOCK_SIZE * 31 < size && blocktable[..nblocks] == Overflowed()
                && chip.content[0].user == Piece(buf[..size], 31)
    {
      hide Piece, BlockCount, WritableFrom, HoldsData, SparesAre, Later, Slot, Overflowed, InBlocks, Progress,
        PassedOver;
      var block := 0x11;
      ghost var t: seq<nat>, data, was, w := [], buf[..size], chip.content, chip.writable;
      NoProgress(was, data, spare[..], w, chip.certain, nblocks);
      for i := 0 to nblocks
        invariant block < 0x1_0000_0000 && blocktable[..i] == t
        invariant Progress(chip.content, was, t, data, spare[..], w, chip.certain, block, i, nblocks)
      {
        ghost var before, from, n := chip.content, block, 0;
        var piece := PieceOf(buf, size, i, nblocks);
        block, n := WriteOne(piece, block);
        blocktable[i] := block % 0x10000;
        MoreProgress(before, chip.content, was, t, data, spare[..], w, chip.certain, from, block, n, i, nblocks);
        t := t + [block % 0x10000];
        block := (block + 1) % 0x1_0000_0000;
      }
      ProgressMade(chip.content, was, t, data, spare[..], w, chip.certain, block, nblocks);
    }

    /** The page of the table: its entries, and zeros behind them. */
    method PutTable(blocktable: array<nat>, nblocks: nat)
      requires Valid() && nblocks <= 32 && nblocks <= blocktable.Length
      modifies user
      ensures HoldsTable(user[..], blocktable[..nblocks])
    {
      hide Put16;
      Fill(user, 0, BLOCK_SIZE, 0);
      for i := 0 to nblocks
        invariant user[..2 * i] == TableBytes(blocktable[..i])
        invariant forall k | 2 * i <= k < BLOCK_SIZE :: user[k] == 0
      {
        ghost var t := blocktable[..i];
        var entry := Put16(blocktable[i]);
        user[2 * i] := entry[0];
        user[2 * i + 1] := entry[1];
        assert blocktable[..i + 1][..i] == t;
        assert user[..2 * (i + 1)] == user[..2 * i] + entry;
      }
      assert user[..2 * nblocks] == user[..][..2 * nblocks];
    }

    method SignSpare()
      requires Valid()
      modifies spare
      ensures spare[..] == SignedSpare()
    {
      hide Put32;
      Fill(spare, 0, SPARE_SIZE, 0xFF);
      PutBytes(spare, 4, Put32(SIGNATURE));
    }

    /** The table into all mirrors; those that fail are erased, if they can be. */
    method WriteMirrors(ghost t: seq<nat>) returns (written: bool)
      requires Valid() && HoldsTable(user[..], t) && spare[..] == SignedSpare()
      modifies chip
      ensures SameOutside(chip.content, old(chip.content), 4, 0x0C)
      ensures written ==> exists b | 4 <= b < 0x0C :: IsMirror(chip.content[b], t)
      ensures !written ==> forall b | 4 <= b < 0x0C :: !chip.writable(b)
      ensures forall b | 4 <= b < 0x0C :: IsMirror(chip.content[b], t) || !chip.writable(b)
    {
      hide HoldsTable, SignedSpare;
      written := false;
      for block := 4 to 0x0C
        invariant SameOutside(chip.content, old(chip.content), 4, block)
        invariant written ==> exists b | 4 <= b < block :: IsMirror(chip.content[b], t)
        invariant !written ==> forall b | 4 <= b < block :: !chip.writable(b)
        invariant forall b | 4 <= b < block :: IsMirror(chip.content[b], t) || !chip.writable(b)
      {
        var ppn := block * PAGES_PER_BLOCK;
        var res := WriteIplBlock(ppn, user[..], spare[..]);
        if res < 0 {
          res := EraseIplBlock(ppn);
        } else {
          assert IsMirror(chip.content[block], t);
          written := true;
        }
      }
    }

    /** pspIplSetIpl. It ends if there is a good block in the area; `t` is the table written. The data stays in the
        data area if that has enough good blocks; where faults are certain, that is if and only if. */
    method SetIpl(buf: array<octet>, size: nat, key: nat) returns (res: int, ghost t: seq<nat>)
      requires Valid() && size <= buf.Length && size < 0x1_0000_0000 && key < 0x10000 && buf != user && buf != spare
      requires 0 < BlockCount(size) <= MAX_DATA_BLOCKS ==> exists b: nat :: b < 0x30 && chip.writable(b)
      modifies chip, user, spare
      ensures res == 0 || res == -1
      ensures SameOutside(chip.content, old(chip.content), 0, 0x30)
      ensures MAX_DATA_BLOCKS < BlockCount(size) ==> res == -1 && chip.content == old(chip.content)
      ensures BlockCount(size) <= MAX_DATA_BLOCKS ==> |t| == BlockCount(size) && MirrorsWritten(res, t)
      ensures BlockCount(size) <= MAX_DATA_BLOCKS && Room(chip.writable, BlockCount(size)) ==>
                HoldsData(chip.content, t, buf[..size]) && Spares(chip.content, t, key)
                && forall b | 0 <= b < TOTAL_BLOCKS && !(4 <= b < 0x0C || 0x11 <= b < 0x30) ::
                     chip.content[b] == old(chip.content)[b]
      ensures BlockCount(size) <= MAX_DATA_BLOCKS && chip.certain ==>
                (DataBlocks(t) <==> Room(chip.writable, BlockCount(size)))
      ensures BlockCount(size) == MAX_DATA_BLOCKS && Perfect(chip.writable) ==>
                BLOCK_SIZE * 31 < size && t == Overflowed() && chip.content[0].user == Piece(buf[..size], 31)
    {
      hide BlockCount, HoldsTable, WritableFrom, IsMirror, SignedSpare, Piece, Overflowed;
      var nblocks := BlockCount(size);
      t := [];
      if MAX_DATA_BLOCKS < nblocks {
        return -1, [];
      }
      InitSpare(key);
      var blocktable := new nat[32];
      WriteData(buf, size, nblocks, blocktable);
      t := blocktable[..nblocks];
      ghost var data := buf[..size];
      if chip.certain && DataBlocks(t) {
        GoodBlocksAreEnough(chip.writable, t, 0x11);
      }
      PutTable(blocktable, nblocks);
      SignSpare();
      var written := WriteMirrors(t);
      res := if written then 0 else -1;
    }

    /** Every mirror holds the table or is a block that may fail; the result tells whether one of them holds it. */
    ghost predicate MirrorsWritten(res: int, t: seq<nat>)
      reads chip
    {
      && (forall b | 4 <= b < 0x0C :: IsMirror(chip.content[b], t) || !chip.writable(b))
      && (res == 0 ==> exists b | 4 <= b < 0x0C :: IsMirror(chip.content[b], t))
      && (res == -1 ==> forall b | 4 <= b < 0x0C :: !chip.writable(b))
    }

    // ----- Reading

    /** The first mirror that can be found. */
    method FindMirror() returns (res: int, block: nat)
      requires Valid()
      modifies user, spare
      ensures res < 0 ==> exists b | 4 <= b < 0x0C :: chip.mayFail(b)
      ensures 0 <= res ==> 4 <= block <= 0x0C && forall b | 4 <= b < block :: !Carries(chip.content[b])
      ensures 0 <= res && block < 0x0C ==>
                Carries(chip.content[block]) && user[..512] == chip.content[block].user[..512]
    {
      hide Little32;
      block := 4;
      res := 0;
      while block < 0x0C
        invariant 4 <= block <= 0x0C && 0 <= res && forall b | 4 <= b < block :: !Carries(chip.content[b])
      {
        res := chip.ReadFirstPageRaw(block * PAGES_PER_BLOCK, user, spare);
        if res < 0 {
          return;
        }
        RawSpare(spare[4..16], spare[..16], chip.content[block].spare);
        assert spare[..16][5] == spare[5] && spare[..16][8..12] == spare[8..12];
        if spare[5] == 0xFF {
          if Little32(spare[8..12]) == SIGNATURE {
            break;
          }
        }
        block := block + 1;
      }
    }

    method ReadTable(blocktable: array<nat>) returns (nblocks: nat)
      requires Valid() && blocktable.Length == 32
      modifies blocktable
      ensures nblocks <= 32 && blocktable[..nblocks] == TableFrom(user[..], 0)
    {
      hide Little16, TableFrom;
      nblocks := 0;
      ghost var u, t: seq<nat> := user[..], [];
      while nblocks < 32
        invariant nblocks == |t| <= 32 && blocktable[..nblocks] == t && TableFrom(u, 0) == t + TableFrom(u, nblocks)
      {
        TableStep(u, nblocks);
        EntryOf(u, user[2 * nblocks..2 * nblocks + 2], nblocks);
        blocktable[nblocks] := Little16(user[2 * nblocks..2 * nblocks + 2]);
        assert blocktable[..nblocks] == t;
        if blocktable[nblocks] == 0 {
          break;
        }
        Regroup(t, blocktable[nblocks], TableFrom(u, nblocks + 1));
        t := t + [blocktable[nblocks]];
        nblocks := nblocks + 1;
      }
      if nblocks == 32 {
        TableEnds(u, nblocks);
      }
      assert t + [] == t;
    }

    method ReadData(blocktable: array<nat>, nblocks: nat, buf: array<octet>) returns (res: int)
      requires nblocks <= 32 && nblocks <= blocktable.Length && 32 * BLOCK_SIZE <= buf.Length
      modifies buf
      ensures 0 <= res ==> (forall i | 0 <= i < nblocks :: blocktable[..nblocks][i] < TOTAL_BLOCKS)
                           && res == nblocks * BLOCK_SIZE && buf[..res] == Fetched(chip.content, blocktable[..nblocks])
      ensures res < 0 ==> exists i | 0 <= i < nblocks :: TOTAL_BLOCKS <= blocktable[i] || chip.mayFail(blocktable[i])
    {
      var size := 0;
      for i := 0 to nblocks
        invariant size == i * BLOCK_SIZE && (forall k | 0 <= k < i :: blocktable[..i][k] < TOTAL_BLOCKS)
        invariant buf[..size] == Fetched(chip.content, blocktable[..i])
      {
        var r := chip.ReadBlock(blocktable[i] * PAGES_PER_BLOCK, buf, size);
        if r < 0 {
          return r;
        }
        assert blocktable[..i + 1][..i] == blocktable[..i];
        assert buf[..size + BLOCK_SIZE] == buf[..size] + buf[size..size + BLOCK_SIZE];
        size := size + BLOCK_SIZE;
      }
      res := size;
    }

    /** pspIplGetIpl: the data of the blocks in the table of the first mirror. */
    method GetIpl(buf: array<octet>) returns (res: int, ghost m: nat)
      requires Valid() && 32 * BLOCK_SIZE <= buf.Length && buf != user && buf != spare
      modifies user, spare, buf
      ensures res <= 32 * BLOCK_SIZE
      ensures 0 <= res ==> FirstMirror(chip.content, m) && InRange(TableOf(chip.content, m))
                           && buf[..res] == DataOf(chip.content, m)
      ensures res < 0 ==> (exists b | 4 <= b < 0x0C :: chip.mayFail(b)) || NoMirror(chip.content)
                          || (FirstMirror(chip.content, m) && Unreadable(chip.mayFail, TableOf(chip.content, m)))
    {
      hide Carries, TableFrom, Fetched;
      var block;
      res, block := FindMirror();
      m := block;
      if res < 0 {
        return;
      }
      if block == 0x0C {
        return -1, m;
      }
      var blocktable := new nat[32];
      SameTable(user[..], chip.content[m].user, 0);
      var nblocks := ReadTable(blocktable);
      ghost var t := blocktable[..nblocks];
      assert forall i | 0 <= i < nblocks :: t[i] == blocktable[i];
      res := ReadData(blocktable, nblocks, buf);
    }

    /** What has been written is read back, filled up with FF, unless a mirror that failed carries the signature. */
    method SetThenGet(data: array<octet>, size: nat, key: nat, buf: array<octet>)
      returns (stored: int, got: int, ghost t: seq<nat>)
      requires Valid() && size <= data.Length && size <= 0xFFFF_C000 && key < 0x10000 && data != user && data != spare
      requires 0 < BlockCount(size) <= MAX_DATA_BLOCKS ==> exists b: nat :: b < 0x30 && chip.writable(b)
      requires 32 * BLOCK_SIZE <= buf.Length && buf != user && buf != spare && buf != data
      requires forall b: nat :: !chip.mayFail(b)
      modifies chip, user, spare, buf
      ensures stored == 0 && NoStaleMirror(chip.content, t) && Room(chip.writable, BlockCount(size)) ==>
                0 <= got <= 32 * BLOCK_SIZE && buf[..got] == Padded(data[..size])
      ensures Perfect(chip.writable) && BlockCount(size) == MAX_DATA_BLOCKS ==> stored == 0 && got == 31 * BLOCK_SIZE
    {
      hide Padded, HoldsData, BlockCount, WritableFrom, FirstMirror, Spares, DataOf, TableOf, IsMirror, Carries;
      ghost var m;
      stored, t := SetIpl(data, size, key);
      got, m := GetIpl(buf);
      if stored == 0 && NoStaleMirror(chip.content, t) && Room(chip.writable, BlockCount(size)) {
        RoundTrip(chip.content, t, data[..size]);
      }
      if Perfect(chip.writable) && BlockCount(size) == MAX_DATA_BLOCKS {
        assert chip.writable(4) && forall b | 4 <= b < 0x0C :: chip.writable(b);
        OverflowRead(chip.content, t);
      }
    }
  }

  // ----- The blocks of the data

  lemma Beginning(w: nat -> bool, from: nat)
    ensures PassedOver(w, from, 0) && (0 < WritableFrom(w, from) ==> from < 0x30)
  {
  }

  lemma StillAhead(w: nat -> bool, block: nat)
    ensures WritableFrom(w, block) <= WritableFrom(w, block + 1) + 1
  {
  }

  lemma OneStep(w: nat -> bool, from: nat, block: nat, n: nat, good: nat)
    requires block == Later(from, n) && PassedOver(w, from, n) && !Takes(w, block) && good < 0x30 && w(good)
    ensures (block + 1) % 0x1_0000_0000 == Later(from, n + 1) && PassedOver(w, from, n + 1)
    ensures 0 <= Gap((block + 1) % 0x1_0000_0000, good) == Gap(block, good) - 1
    ensures block < 0x30 ==> WritableFrom(w, block) == WritableFrom(w, block + 1) && block + 1 < 0x1_0000_0000
  {
    if block < 0x30 {
      SlotIs(block);
    }
    hide Slot, Gap;
    GapShrinks(block, good);
    LaterNext(from, n);
  }

  /** The data area has this many good blocks. */
  ghost predicate Room(w: nat -> bool, n: nat) { n <= WritableFrom(w, 0x11) }

  /** Every block of the area is good. */
  ghost predicate Perfect(w: nat -> bool) { forall b: nat | b < 0x30 :: w(b) }

  /** All blocks of the table are blocks of the area, and good ones on a chip whose faults are certain. */
  ghost predicate InBlocks(w: nat -> bool, certain: bool, t: seq<nat>) {
    forall i | 0 <= i < |t| :: t[i] < 0x30 && (certain ==> w(t[i]))
  }

  lemma NoBlocksYet(w: nat -> bool, certain: bool)
    ensures InBlocks(w, certain, [])
  {
  }

  lemma OneMoreInBlocks(w: nat -> bool, certain: bool, t: seq<nat>, b: nat)
    requires InBlocks(w, certain, t) && b < 0x30 && (certain ==> w(b))
    ensures InBlocks(w, certain, t + [b])
  {
  }

  lemma Untouched(was: Contents, from: nat)
    ensures SameOutside(was, was, from, 0x30)
  {
  }

  lemma OneTouched(was: Contents, before: Contents, now: Contents, from: nat, block: nat)
    requires SameOutside(before, was, from, 0x30) && from <= Slot(block)
    requires forall b | 0 <= b < TOTAL_BLOCKS && (0x30 <= b || b != Slot(block)) :: now[b] == before[b]
    ensures SameOutside(now, was, from, 0x30)
  {
    hide Slot;
  }

  /** The lower half of a block number names the block that the number leads to. */
  lemma LowerHalf(b: nat)
    requires Slot(b) < 0x30
    ensures b % 0x10000 == Slot(b)
  {
    SlotIs(b);
    hide Slot;
    LowerHalfOf(b, 0x800 * (b / 0x800_0000), b % 0x800_0000);
  }

  lemma LowerHalfOf(b: nat, q: nat, r: nat)
    requires r < 0x10000 && b == 0x10000 * q + r
    ensures b % 0x10000 == r
  {
  }

  /** The data written so far is in the data area, and there are enough good blocks for the rest. */
  ghost predicate InArea(c: Contents, was: Contents, t: seq<nat>, data: seq<octet>, s: seq<octet>, w: nat -> bool,
                         block: nat, left: int)
  {
    && 0x11 <= block && left <= WritableFrom(w, block) && SameOutside(c, was, 0x11, 0x30)
    && (forall k | 0 <= k < |t| :: t[k] < block)
    && HoldsData(c, t, data) && SparesAre(c, t, s)
  }

  lemma InAreaNext(before: Contents, c: Contents, was: Contents, t: seq<nat>, data: seq<octet>, s: BlockSpare,
                   w: nat -> bool, from: nat, block: nat, left: int)
    requires InArea(before, was, t, data, s, w, from, left) && 0 < left
    requires from <= block < 0x30 && SameOutside(c, before, from, 0x30)
    requires WritableFrom(w, from) <= WritableFrom(w, block + 1) + 1
    requires BLOCK_SIZE * |t| < |data| && Slot(block) < 0x30 && c[Slot(block)] == Block(Piece(data, |t|), s)
    ensures block % 0x10000 == block == (block + 1) % 0x1_0000_0000 - 1
    ensures InArea(c, was, t + [block], data, s, w, block + 1, left - 1)
  {
    SlotIs(block);
    hide Piece, HoldsData, SparesAre, WritableFrom, Slot;
    OneMoreBlock(before, c, t, from, block, data, s);
  }

  /** The table of 32 blocks of data on a perfect chip: all blocks of the data area, and block 0. */
  function Overflowed(): (t: seq<nat>)
    ensures |t| == 32
  {
    seq(32, i requires 0 <= i => if i < 31 then 0x11 + i else 0)
  }

  lemma OverflowedIs(t: seq<nat>)
    requires |t| == 32 && (forall k | 0 <= k < 31 :: t[k] == 0x11 + k) && t[31] == 0
    ensures t == Overflowed()
  {
  }

  lemma PerfectNext(w: nat -> bool, from: nat, block: nat, n: nat, i: nat)
    requires Perfect(w) && from == 0x11 + i && i < 32 && block == Later(from, n) && n < 0x800_0000
    requires PassedOver(w, from, n) && Slot(block) < 0x30
    ensures if i < 31 then block == from else Slot(block) == 0
  {
    if i < 31 {
      SlotIs(from);
      hide Slot;
      LaterNext(from, 0);
      hide Later;
      assert Takes(w, Later(from, 0));
    } else {
      hide Slot, Later;
      PastTheArea(w, n);
    }
  }

  /** The first i blocks of the data are written, and the search for the next one starts at a block number. */
  ghost predicate Progress(c: Contents, was: Contents, t: seq<nat>, data: seq<octet>, s: seq<octet>, w: nat -> bool,
                           certain: bool, block: nat, i: nat, nblocks: nat)
  {
    && |t| == i && InBlocks(w, certain, t) && SameOutside(c, was, 0, 0x30)
    && (Room(w, nblocks) ==> InArea(c, was, t, data, s, w, block, nblocks - i))
    && (Perfect(w) && i <= 31 ==> block == 0x11 + i && forall k | 0 <= k < i :: t[k] == 0x11 + k)
    && (Perfect(w) && i == 32 ==> BLOCK_SIZE * 31 < |data| && t == Overflowed() && c[0].user == Piece(data, 31))
  }

  lemma NoProgress(c: Contents, data: seq<octet>, s: seq<octet>, w: nat -> bool, certain: bool, nblocks: nat)
    ensures Progress(c, c, [], data, s, w, certain, 0x11, 0, nblocks)
  {
    hide Piece, WritableFrom, Overflowed, HoldsData, SparesAre;
    NoDataYet(c, data, s);
  }

  lemma MoreProgress(before: Contents, c: Contents, was: Contents, t: seq<nat>, data: seq<octet>, s: BlockSpare,
                     w: nat -> bool, certain: bool, from: nat, block: nat, n: nat, i: nat, nblocks: nat)
    requires Progress(before, was, t, data, s, w, certain, from, i, nblocks) && i < nblocks <= 32
    requires block == Later(from, n) && n < 0x800_0000 && PassedOver(w, from, n)
    requires BLOCK_SIZE * i < |data| && Slot(block) < 0x30 && c[Slot(block)] == Block(Piece(data, i), s)
    requires (certain ==> w(Slot(block))) && SameOutside(c, before, 0, 0x30)
    requires 0 < WritableFrom(w, from) ==>
               from <= block < 0x30 && SameOutside(c, before, from, 0x30)
               && WritableFrom(w, from) <= WritableFrom(w, block + 1) + 1
    ensures Progress(c, was, t + [block % 0x10000], data, s, w, certain, (block + 1) % 0x1_0000_0000, i + 1, nblocks)
  {
    hide Piece, WritableFrom, Overflowed, HoldsData, SparesAre, Later, Slot, PassedOver, InBlocks, InArea;
    LowerHalf(block);
    OneMoreInBlocks(w, certain, t, Slot(block));
    if Room(w, nblocks) {
      AreaHasRoom(before, was, t, data, s, w, from, nblocks - i);
      InAreaNext(before, c, was, t, data, s, w, from, block, nblocks - i);
    }
    if Perfect(w) {
      PerfectNext(w, from, block, n, i);
      if i == 31 {
        OverflowedIs(t + [block % 0x10000]);
      } else {
        SmallNumber(block);
      }
    }
  }

  lemma SmallNumber(b: nat)
    requires b < 0x30
    ensures b % 0x10000 == b && (b + 1) % 0x1_0000_0000 == b + 1
  {
  }

  lemma AreaHasRoom(c: Contents, was: Contents, t: seq<nat>, data: seq<octet>, s: seq<octet>, w: nat -> bool,
                    block: nat, left: int)
    requires InArea(c, was, t, data, s, w, block, left) && 0 < left
    ensures 0 < WritableFrom(w, block)
  {
    hide WritableFrom, HoldsData, SparesAre;
  }

  lemma ProgressMade(c: Contents, was: Contents, t: seq<nat>, data: seq<octet>, s: seq<octet>, w: nat -> bool,
                     certain: bool, block: nat, nblocks: nat)
    requires Progress(c, was, t, data, s, w, certain, block, nblocks, nblocks)
    ensures InBlocks(w, certain, t) && SameOutside(c, was, 0, 0x30)
    ensures Room(w, nblocks) ==> SameOutside(c, was, 0x11, 0x30) && HoldsData(c, t, data) && SparesAre(c, t, s)
    ensures Perfect(w) && nblocks == 32 ==>
              BLOCK_SIZE * 31 < |data| && t == Overflowed() && c[0].user == Piece(data, 31)
  {
    hide Piece, WritableFrom, Overflowed, HoldsData, SparesAre;
  }

  /** 32 blocks of data cannot be read back even from a perfect chip: the table seems to end before the last one. */
  lemma OverflowIsLost(u: seq<octet>)
    requires HoldsTable(u, Overflowed())
    ensures TableFrom(u, 0) == Overflowed()[..31]
  {
    var t := Overflowed();
    hide Put16;
    TableEntry(t, 31);
    assert Put16(0) == [0, 0] by {
      ZeroBytes();
    }
    assert u[62..64] == u[..64][62..64];
    assert t == t[..31] + [0];
    TablePrefix(t[..31], 0);
    assert u[..62] == u[..64][..62];
    TableReadBack(u, t[..31], 0);
  }

  lemma ZeroBytes()
    ensures Put16(0) == [0, 0]
  {
  }

  lemma TablePrefix(t: seq<nat>, n: nat)
    ensures TableBytes(t + [n])[..2 * |t|] == TableBytes(t)
  {
    assert (t + [n])[..|t|] == t;
  }

  // ----- What is read is what was written

  function TableOf(c: Contents, m: nat): seq<nat> { if m < TOTAL_BLOCKS then TableFrom(c[m].user, 0) else [] }

  ghost predicate Unreadable(mayFail: nat -> bool, t: seq<nat>) {
    exists i | 0 <= i < |t| :: TOTAL_BLOCKS <= t[i] || mayFail(t[i])
  }

  /** The data that the table in block m leads to. */
  function DataOf(c: Contents, m: nat): seq<octet> {
    var t := TableOf(c, m);
    if InRange(t) then Fetched(c, t) else []
  }

  predicate InRange(t: seq<nat>) { forall i | 0 <= i < |t| :: t[i] < TOTAL_BLOCKS }

  ghost predicate NoMirror(c: Contents) { forall m: nat :: !FirstMirror(c, m) }

  /** No mirror other than those just written carries the signature. */
  ghost predicate NoStaleMirror(c: Contents, t: seq<nat>) {
    forall b | 4 <= b < 0x0C :: IsMirror(c[b], t) || !Carries(c[b])
  }

  lemma RoundTrip(c: Contents, t: seq<nat>, data: seq<octet>)
    requires HoldsData(c, t, data) && |t| == BlockCount(|data|) && |data| <= 0xFFFF_C000
    requires NoStaleMirror(c, t) && exists b | 4 <= b < 0x0C :: IsMirror(c[b], t)
    ensures !NoMirror(c)
    ensures forall m: nat | FirstMirror(c, m) ::
              DataOf(c, m) == Padded(data) && InRange(TableOf(c, m))
  {
    hide IsMirror, Carries, HoldsData, BlockCount, FirstMirror, Padded, TableFrom, Fetched;
    SomeMirror(c, t);
    forall m: nat | FirstMirror(c, m)
      ensures DataOf(c, m) == Padded(data) && InRange(TableOf(c, m))
    {
      MirrorInRange(c, m);
      DataInRange(c, t, data);
      StoredIsFetched(c, t, data, m);
    }
  }

  lemma MirrorsHoldTables(t: seq<nat>)
    ensures forall b: Block | IsMirror(b, t) :: HoldsTable(b.user, t)
  {
  }

  lemma OverflowRead(c: Contents, t: seq<nat>)
    requires t == Overflowed() && forall b | 4 <= b < 0x0C :: IsMirror(c[b], t)
    ensures !NoMirror(c)
    ensures forall m: nat | FirstMirror(c, m) ::
              TableOf(c, m) == t[..31] && InRange(TableOf(c, m)) && |DataOf(c, m)| == 31 * BLOCK_SIZE
  {
    hide Carries, FirstMirror, TableFrom, Fetched, IsMirror;
    assert IsMirror(c[4], t);
    SomeMirror(c, t);
    MirrorsHoldTables(t);
    forall m: nat | FirstMirror(c, m)
      ensures TableOf(c, m) == t[..31] && InRange(TableOf(c, m)) && |DataOf(c, m)| == 31 * BLOCK_SIZE
    {
      MirrorInRange(c, m);
      assert IsMirror(c[m], t);
      OverflowIsLost(c[m].user);
    }
  }

  lemma MirrorInRange(c: Contents, m: nat)
    requires FirstMirror(c, m)
    ensures 4 <= m < 0x0C
  {
  }

  lemma DataInRange(c: Contents, t: seq<nat>, data: seq<octet>)
    requires HoldsData(c, t, data)
    ensures forall i | 0 <= i < |t| :: t[i] < TOTAL_BLOCKS
  {
  }

  lemma SomeMirror(c: Contents, t: seq<nat>)
    requires exists b | 4 <= b < 0x0C :: IsMirror(c[b], t)
    ensures exists m: nat :: FirstMirror(c, m)
  {
    hide IsMirror, Carries;
    var b :| 4 <= b < 0x0C && IsMirror(c[b], t);
    MirrorCarries(c[b], t);
    MirrorIsFound(c, 4, b);
  }

  lemma RawSpare(small: seq<octet>, raw: seq<octet>, stored: BlockSpare)
    requires |small| == 12 && |raw| == 16 && raw[4..] == small == stored[..12]
    ensures raw[5] == stored[1] && raw[8..12] == stored[4..8]
  {
    assert raw[5] == raw[4..][1] && stored[1] == stored[..12][1];
    assert raw[8..12] == raw[4..][4..8] && stored[4..8] == stored[..12][4..8];
  }

  lemma EntryOf(u: seq<octet>, e: seq<octet>, n: nat)
    requires 2 * n + 2 <= |u| && e == u[2 * n..2 * n + 2]
    ensures Little16(e) == Little16(u[2 * n..2 * n + 2])
  {
  }

  lemma Regroup(t: seq<nat>, x: nat, rest: seq<nat>)
    ensures t + ([x] + rest) == (t + [x]) + rest
  {
  }

  lemma TableStep(u: seq<octet>, n: nat)
    requires 64 <= |u| && n < 32
    ensures var x := Little16(u[2 * n..2 * n + 2]); TableFrom(u, n) == if x == 0 then [] else [x] + TableFrom(u, n + 1)
  {
  }

  lemma TableEnds(u: seq<octet>, n: nat)
    requires 64 <= |u| && n == 32
    ensures TableFrom(u, n) == []
  {
  }

  lemma EntryInFront(u: seq<octet>, i: nat)
    requires 512 <= |u| && i + 2 <= 512
    ensures u[i..i + 2] == u[..512][i..i + 2]
  {
  }

  lemma {:induction false} SameTable(u: seq<octet>, v: seq<octet>, n: nat)
    requires 512 <= |u| && 512 <= |v| && u[..512] == v[..512] && n <= 32
    ensures TableFrom(u, n) == TableFrom(v, n)
    decreases 32 - n
  {
    if n < 32 {
      EntryInFront(u, 2 * n);
      EntryInFront(v, 2 * n);
      SameTable(u, v, n + 1);
    }
  }

  /** The spare bytes of the data blocks. */
  ghost predicate Spares(c: Contents, t: seq<nat>, key: nat) {
    forall i | 0 <= i < |t| && t[i] < TOTAL_BLOCKS :: IsDataSpare(c[t[i]].spare, key)
  }

  ghost predicate SparesAre(c: Contents, t: seq<nat>, s: seq<octet>) {
    forall i | 0 <= i < |t| && t[i] < TOTAL_BLOCKS :: c[t[i]].spare == s
  }

  lemma NoDataYet(c: Contents, data: seq<octet>, s: seq<octet>)
    ensures HoldsData(c, [], data) && SparesAre(c, [], s)
  {
  }

  /** Writing a further block keeps those already written. */
  lemma OneMoreBlock(before: Contents, c: Contents, t: seq<nat>, from: nat, block: nat, data: seq<octet>, s: BlockSpare)
    requires HoldsData(before, t, data) && SparesAre(before, t, s) && (forall k | 0 <= k < |t| :: t[k] < from)
    requires SameOutside(c, before, from, 0x30) && 0x11 <= from <= block < 0x30
    requires BLOCK_SIZE * |t| < |data| && c[block] == Block(Piece(data, |t|), s)
    ensures HoldsData(c, t + [block], data) && SparesAre(c, t + [block], s)
  {
    hide Piece;
  }

  ghost predicate IsDataSpare(s: seq<octet>, key: nat)
    requires |s| == SPARE_SIZE
  {
    forall k | 0 <= k < PAGES_PER_BLOCK :: s[12 * k..12 * k + 12] == PageSpare(key)
  }

  function PageSpare(key: nat): (s: seq<octet>)
    ensures |s| == 12
  {
    [0xFF, 0xFF] + Put16(key) + Put32(SIGNATURE) + [0xFF, 0xFF, 0xFF, 0xFF]
  }
}
