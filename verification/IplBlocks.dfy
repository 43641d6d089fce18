/** What modules/ipl_update/main.c stores in the flash memory: data blocks, and mirrors of a table of them. */
module IplBlocks {
  import opened Octets
  import opened Nand

  const SIGNATURE: nat := 0x6DC64A38
  const MAX_DATA_BLOCKS: nat := 0x20

  // ----- The block table

  /** A good block with the signature in the spare bytes of its first page. */
  predicate Carries(b: Block) { b.spare[1] == 0xFF && Little32(b.spare[4..8]) == SIGNATURE }

  /** The first mirror of the table. */
  predicate FirstMirror(c: Contents, m: nat) {
    4 <= m < 0x0C && Carries(c[m]) && forall b | 4 <= b < m :: !Carries(c[b])
  }

  /** The table in a page: 32 entries, or fewer if there is a zero. */
  function TableFrom(u: seq<octet>, n: nat): (t: seq<nat>)
    requires 64 <= |u| && n <= 32
    ensures |t| <= 32 - n
    decreases 32 - n
  {
    if n == 32 || Little16(u[2 * n..2 * n + 2]) == 0 then []
    else [Little16(u[2 * n..2 * n + 2])] + TableFrom(u, n + 1)
  }

  function TableBytes(t: seq<nat>): (b: seq<octet>)
    ensures |b| == 2 * |t|
  {
    if t == [] then [] else TableBytes(t[..|t| - 1]) + Put16(t[|t| - 1])
  }

  lemma {:induction false} TableEntry(t: seq<nat>, i: nat)
    requires i < |t|
    ensures TableBytes(t)[2 * i..2 * i + 2] == Put16(t[i])
  {
    if i < |t| - 1 {
      TableEntry(t[..|t| - 1], i);
      assert TableBytes(t)[2 * i..2 * i + 2] == TableBytes(t[..|t| - 1])[2 * i..2 * i + 2];
    }
  }

  /** The rest of a page behind the table is zero. */
  predicate HoldsTable(u: seq<octet>, t: seq<nat>) {
    64 <= |u| && |t| <= 32 && u[..2 * |t|] == TableBytes(t) && (forall i | 2 * |t| <= i < 64 :: u[i] == 0)
  }

  lemma {:induction false} TableReadBack(u: seq<octet>, t: seq<nat>, n: nat)
    requires HoldsTable(u, t) && n <= |t| && (forall i | 0 <= i < |t| :: 0 < t[i] < 0x10000)
    ensures TableFrom(u, n) == t[n..]
    decreases |t| - n
  {
    hide TableBytes, Put16;
    if n < |t| {
      TableEntry(t, n);
      assert u[2 * n..2 * n + 2] == u[..2 * |t|][2 * n..2 * n + 2];
      LoadStored16(t[n]);
      TableReadBack(u, t, n + 1);
    } else if n < 32 {
      assert u[2 * n..2 * n + 2] == [0, 0];
    }
  }

  // ----- The data

  /** The data of the blocks of a table. */
  function Fetched(c: Contents, t: seq<nat>): (d: seq<octet>)
    requires forall i | 0 <= i < |t| :: t[i] < TOTAL_BLOCKS
    ensures |d| == BLOCK_SIZE * |t|
  {
    if t == [] then [] else Fetched(c, t[..|t| - 1]) + c[t[|t| - 1]].user
  }

  /** Block i of the data; FF fills up the last one. */
  function Piece(data: seq<octet>, i: nat): BlockUser
    requires BLOCK_SIZE * i <= |data|
  {
    if BLOCK_SIZE * i + BLOCK_SIZE <= |data| then data[BLOCK_SIZE * i..BLOCK_SIZE * i + BLOCK_SIZE]
    else data[BLOCK_SIZE * i..] + seq(BLOCK_SIZE * i + BLOCK_SIZE - |data|, _ => 0xFF)
  }

  /** The data in whole blocks. */
  function Padded(data: seq<octet>): (d: seq<octet>)
    ensures |d| % BLOCK_SIZE == 0 && |data| <= |d| < |data| + BLOCK_SIZE
    ensures d[..|data|] == data && forall i | |data| <= i < |d| :: d[i] == 0xFF
  {
    data + seq((BLOCK_SIZE - |data| % BLOCK_SIZE) % BLOCK_SIZE, _ => 0xFF)
  }

  lemma PieceOfPadded(data: seq<octet>, i: nat)
    requires BLOCK_SIZE * i < |data|
    ensures BLOCK_SIZE * i + BLOCK_SIZE <= |Padded(data)|
    ensures Piece(data, i) == Padded(data)[BLOCK_SIZE * i..BLOCK_SIZE * i + BLOCK_SIZE]
  {
    var r := |data| % BLOCK_SIZE;
    assert |data| == BLOCK_SIZE * (|data| / BLOCK_SIZE) + r;
  }

  /** How many blocks the code takes the data to need: the sum wraps around. */
  function BlockCount(size: nat): nat { (size + (BLOCK_SIZE - 1)) % 0x1_0000_0000 / BLOCK_SIZE }

  lemma EnoughBlocks(data: seq<octet>)
    requires |data| <= 0xFFFF_C000
    ensures BLOCK_SIZE * BlockCount(|data|) == |Padded(data)|
  {
  }

  /** A size within a block of 2^32 counts as none. */
  lemma HugeIsNothing(size: nat)
    requires 0xFFFF_C000 < size < 0x1_0000_0000
    ensures BlockCount(size) == 0
  {
  }

  lemma BlockStarts(size: nat, i: nat)
    requires size < 0x1_0000_0000 && i < BlockCount(size)
    ensures BLOCK_SIZE * i < size
    ensures BLOCK_SIZE * i + BLOCK_SIZE <= size <==> i != BlockCount(size) - 1 || size % BLOCK_SIZE == 0
    ensures i == BlockCount(size) - 1 && size % BLOCK_SIZE != 0 ==> size - BLOCK_SIZE * i == size % BLOCK_SIZE
  {
    assert size <= 0xFFFF_C000;
    var q, r := size / BLOCK_SIZE, size % BLOCK_SIZE;
    assert size == BLOCK_SIZE * q + r;
    assert BlockCount(size) == if r == 0 then q else q + 1;
  }

  lemma {:induction false} PiecesFetched(c: Contents, t: seq<nat>, data: seq<octet>, n: nat)
    requires n <= |t| && BLOCK_SIZE * n <= |Padded(data)| && (forall i | 0 <= i < |t| :: t[i] < TOTAL_BLOCKS)
    requires forall i | 0 <= i < n :: BLOCK_SIZE * i < |data| && c[t[i]].user == Piece(data, i)
    ensures Fetched(c, t[..n]) == Padded(data)[..BLOCK_SIZE * n]
  {
    hide Piece, Padded;
    if n != 0 {
      PiecesFetched(c, t, data, n - 1);
      PieceOfPadded(data, n - 1);
      assert t[..n][..n - 1] == t[..n - 1];
      Joined(Padded(data), BLOCK_SIZE * (n - 1), BLOCK_SIZE);
    }
  }

  lemma Joined(d: seq<octet>, at: nat, n: nat)
    requires at + n <= |d|
    ensures d[..at] + d[at..at + n] == d[..at + n]
  {
  }

  // ----- Space

  /** How many blocks from b on, below 0x30, can always be written. */
  ghost function WritableFrom(w: nat -> bool, b: nat): (n: nat)
    ensures n <= if b < 0x30 then 0x30 - b else 0
    decreases 0x30 - b
  {
    if 0x30 <= b then 0 else (if w(b) then 1 else 0) + WritableFrom(w, b + 1)
  }

  predicate Increasing(t: seq<nat>) { forall i, j | 0 <= i < j < |t| :: t[i] < t[j] }

  /** The blocks that hold the data: in the data area, in increasing order. */
  predicate DataBlocks(t: seq<nat>) { Increasing(t) && forall i | 0 <= i < |t| :: 0x11 <= t[i] < 0x30 }

  /** Blocks of a table that starts at `from` are among the good ones. */
  lemma {:induction false} GoodBlocksAreEnough(w: nat -> bool, t: seq<nat>, from: nat)
    requires Increasing(t) && forall i | 0 <= i < |t| :: from <= t[i] < 0x30 && w(t[i])
    ensures |t| <= WritableFrom(w, from)
    decreases 0x30 - from
  {
    if t != [] {
      if t[0] == from {
        GoodBlocksAreEnough(w, t[1..], from + 1);
      } else {
        GoodBlocksAreEnough(w, t, from + 1);
      }
    }
  }

  /** The data area has room for 31 blocks, one fewer than the code allows. */
  lemma AreaIsTooSmall(t: seq<nat>)
    requires DataBlocks(t)
    ensures |t| < MAX_DATA_BLOCKS
  {
    GoodBlocksAreEnough(b => true, t, 0x11);
  }

  // ----- Block numbers are 32-bit words

  /** The block that a block number leads to: its page number wraps around. */
  function Slot(b: nat): nat { b * PAGES_PER_BLOCK % 0x1_0000_0000 / PAGES_PER_BLOCK }

  /** A block number that is sure to be accepted. */
  predicate Takes(w: nat -> bool, b: nat) { Slot(b) < 0x30 && w(Slot(b)) }

  lemma SlotIs(b: nat)
    ensures var ppn := b * PAGES_PER_BLOCK % 0x1_0000_0000;
            ppn % PAGES_PER_BLOCK == 0 && ppn / PAGES_PER_BLOCK == Slot(b)
    ensures Slot(b) == b % 0x800_0000 && (b < 0x30 ==> Slot(b) == b)
  {
    var q, r := b / 0x800_0000, b % 0x800_0000;
    assert b == 0x800_0000 * q + r;
    PageRemainder(b * PAGES_PER_BLOCK, q, r * PAGES_PER_BLOCK);
  }

  lemma PageRemainder(x: nat, q: nat, r: nat)
    requires r < 0x1_0000_0000 && x == 0x1_0000_0000 * q + r
    ensures x % 0x1_0000_0000 == r
  {
  }

  /** The block number after n steps. */
  function Later(b: nat, n: nat): nat { (b + n) % 0x1_0000_0000 }

  /** With no good block at all, no block number is accepted, and the search for one does not end. */
  lemma NothingTakes(w: nat -> bool, b: nat)
    requires forall k: nat | k < 0x30 :: !w(k)
    ensures !Takes(w, b)
  {
  }

  lemma LaterNext(b: nat, n: nat)
    ensures (Later(b, n) + 1) % 0x1_0000_0000 == Later(b, n + 1)
    ensures b < 0x1_0000_0000 ==> Later(b, 0) == b
  {
  }

  /** How many steps a block is ahead of a block number. */
  function Gap(b: nat, block: nat): int {
    if Slot(b) <= block then block - Slot(b) else 0x800_0000 + block - Slot(b)
  }

  lemma GapBounds(b: nat, block: nat)
    requires block < 0x30
    ensures 0 <= Gap(b, block) < 0x800_0000
  {
    SlotIs(b);
    hide Slot;
  }

  lemma GapShrinks(b: nat, block: nat)
    requires block < 0x30 && Slot(b) != block
    ensures 0 <= Gap((b + 1) % 0x1_0000_0000, block) < Gap(b, block) < 0x800_0000
    ensures Gap((b + 1) % 0x1_0000_0000, block) == Gap(b, block) - 1
  {
    SlotIs(b);
    SlotIs((b + 1) % 0x1_0000_0000);
    hide Slot;
    StepAround(b);
  }

  lemma StepAround(b: nat)
    ensures (b + 1) % 0x1_0000_0000 % 0x800_0000 == (b + 1) % 0x800_0000
    ensures (b + 1) % 0x800_0000 == if b % 0x800_0000 == 0x7FF_FFFF then 0 else b % 0x800_0000 + 1
  {
    var q, r := b / 0x800_0000, b % 0x800_0000;
    if r == 0x7FF_FFFF { Remainder(b + 1, q + 1, 0); } else { Remainder(b + 1, q, r + 1); }
    var h := (b + 1) % 0x1_0000_0000;
    Remainder(b + 1, 32 * ((b + 1) / 0x1_0000_0000) + h / 0x800_0000, h % 0x800_0000);
  }

  lemma Remainder(x: nat, q: nat, r: nat)
    requires r < 0x800_0000 && x == 0x800_0000 * q + r
    ensures x % 0x800_0000 == r
  {
  }

  /** The numbers passed over before a good block is found. */
  ghost predicate PassedOver(w: nat -> bool, from: nat, n: nat) {
    forall i: nat | i < n :: !Takes(w, Later(from, i))
  }

  /** Behind the data area the next block number that leads to a block of the area is 8000000, for block 0. */
  lemma PastTheArea(w: nat -> bool, n: nat)
    requires (forall b: nat | b < 0x30 :: w(b)) && PassedOver(w, 0x30, n)
    requires Slot(Later(0x30, n)) < 0x30 && n < 0x800_0000
    ensures Later(0x30, n) == 0x800_0000 && Slot(Later(0x30, n)) == 0
  {
    SlotIs(Later(0x30, n));
    SlotIs(0x800_0000);
    assert Takes(w, Later(0x30, 0x800_0000 - 0x30));
  }

  /** The pieces of the data are in the blocks of the table. */
  ghost predicate HoldsData(c: Contents, t: seq<nat>, data: seq<octet>) {
    && DataBlocks(t)
    && forall i | 0 <= i < |t| :: BLOCK_SIZE * i < |data| && c[t[i]].user == Piece(data, i)
  }

  function SignedSpare(): BlockSpare {
    seq(4, _ => 0xFF) + Put32(SIGNATURE) + seq(SPARE_SIZE - 8, _ => 0xFF)
  }

  /** A mirror of the table. */
  ghost predicate IsMirror(b: Block, t: seq<nat>) { HoldsTable(b.user, t) && b.spare == SignedSpare() }

  lemma MirrorCarries(b: Block, t: seq<nat>)
    requires IsMirror(b, t)
    ensures Carries(b)
  {
    hide Put32, Little32;
    LoadStored32(SIGNATURE);
    assert b.spare[4..8] == Put32(SIGNATURE);
  }

  /** Some mirror has been written, and no other one carries the signature. */
  ghost predicate Mirrored(c: Contents, t: seq<nat>) {
    && (exists b | 4 <= b < 0x0C :: IsMirror(c[b], t))
    && (forall b | 4 <= b < 0x0C :: IsMirror(c[b], t) || !Carries(c[b]))
  }

  /** Whichever mirror a reader finds first, it finds the data through it. */
  lemma StoredIsFetched(c: Contents, t: seq<nat>, data: seq<octet>, m: nat)
    requires HoldsData(c, t, data) && Mirrored(c, t) && |t| == BlockCount(|data|) && |data| <= 0xFFFF_C000
    requires FirstMirror(c, m)
    ensures TableFrom(c[m].user, 0) == t && Fetched(c, t) == Padded(data)
  {
    hide Carries, Piece, TableFrom;
    assert IsMirror(c[m], t);
    TableReadBack(c[m].user, t, 0);
    EnoughBlocks(data);
    PiecesFetched(c, t, data, |t|);
    assert t[..|t|] == t && t[0..] == t;
    assert Padded(data)[..|Padded(data)|] == Padded(data);
  }

  lemma {:induction false} MirrorIsFound(c: Contents, from: nat, b: nat)
    requires 4 <= from <= b < 0x0C && Carries(c[b]) && (forall k | 4 <= k < from :: !Carries(c[k]))
    ensures exists m :: FirstMirror(c, m)
    decreases b - from
  {
    hide Carries;
    if Carries(c[from]) {
      assert FirstMirror(c, from);
    } else {
      MirrorIsFound(c, from + 1, b);
    }
  }
}
