/** The flash memory under modules/ipl_update/main.c, block by block. */
module Nand {
  import opened Octets

  const BLOCK_SIZE: nat := 0x4000
  const SPARE_SIZE: nat := 384
  const PAGES_PER_BLOCK: nat := 32
  const TOTAL_BLOCKS: nat := 2048

  type BlockUser = u: seq<octet> | |u| == BLOCK_SIZE witness seq(BLOCK_SIZE, _ => 0xFF)
  type BlockSpare = s: seq<octet> | |s| == SPARE_SIZE witness seq(SPARE_SIZE, _ => 0xFF)

  /** The data of a block and its spare bytes, twelve for each page; the four bytes of error correction code in
      front of them are not part of it. */
  datatype Block = Block(user: BlockUser, spare: BlockSpare)

  const ERASED := Block(seq(BLOCK_SIZE, _ => 0xFF), seq(SPARE_SIZE, _ => 0xFF))

  type Contents = c: seq<Block> | |c| == TOTAL_BLOCKS witness seq(TOTAL_BLOCKS, _ => ERASED)

  class Chip {
    var content: Contents
    /** The blocks that can always be written. Any other block may fail, and always does on a chip that is certain. */
    const writable: nat -> bool
    const certain: bool
    /** The blocks a read of which may fail. */
    const mayFail: nat -> bool

    constructor (content: Contents, writable: nat -> bool, certain: bool, mayFail: nat -> bool)
      ensures this.content == content && this.mayFail == mayFail
      ensures this.writable == writable && this.certain == certain
    {
      this.content, this.writable, this.certain, this.mayFail := content, writable, certain, mayFail;
    }

    /** A block that failed holds anything. */
    method Scribble(b: nat)
      requires b < TOTAL_BLOCKS
      modifies this
      ensures forall c | 0 <= c < TOTAL_BLOCKS && c != b :: content[c] == old(content)[c]
    {
      var user := seq(BLOCK_SIZE, i => 0);
      var spare := seq(SPARE_SIZE, i => 0);
      for i := 0 to BLOCK_SIZE
        invariant |user| == BLOCK_SIZE
      {
        var x: octet := *;
        user := user[i := x];
      }
      for i := 0 to SPARE_SIZE
        invariant |spare| == SPARE_SIZE
      {
        var x: octet := *;
        spare := spare[i := x];
      }
      content := content[b := Block(user, spare)];
    }

    /** sceNandWriteBlockWithVerify: after a failure the block may hold anything. */
    method WriteBlock(ppn: nat, user: BlockUser, spare: BlockSpare) returns (res: int)
      requires ppn % PAGES_PER_BLOCK == 0
      modifies this
      ensures 0 <= res ==> ppn / PAGES_PER_BLOCK < TOTAL_BLOCKS
                           && content == old(content)[ppn / PAGES_PER_BLOCK := Block(user, spare)]
                           && (certain ==> writable(ppn / PAGES_PER_BLOCK))
      ensures res < 0 ==> ppn / PAGES_PER_BLOCK < TOTAL_BLOCKS ==>
                !writable(ppn / PAGES_PER_BLOCK)
                && forall b | 0 <= b < TOTAL_BLOCKS && b != ppn / PAGES_PER_BLOCK :: content[b] == old(content)[b]
      ensures TOTAL_BLOCKS <= ppn / PAGES_PER_BLOCK ==> content == old(content)
    {
      var b, fails: bool := ppn / PAGES_PER_BLOCK, *;
      if TOTAL_BLOCKS <= b {
        return -1;
      }
      if (fails || certain) && !writable(b) {
        Scribble(b);
        return -1;
      }
      content := content[b := Block(user, spare)];
      res := 0;
    }

    /** sceNandEraseBlockWithRetry. */
    method EraseBlock(ppn: nat) returns (res: int)
      requires ppn % PAGES_PER_BLOCK == 0
      modifies this
      ensures 0 <= res ==> ppn / PAGES_PER_BLOCK < TOTAL_BLOCKS
                           && content == old(content)[ppn / PAGES_PER_BLOCK := ERASED]
      ensures forall b | 0 <= b < TOTAL_BLOCKS && b != ppn / PAGES_PER_BLOCK :: content[b] == old(content)[b]
    {
      var b, fails: bool := ppn / PAGES_PER_BLOCK, *;
      if TOTAL_BLOCKS <= b {
        return -1;
      }
      if fails {
        Scribble(b);
        return -1;
      }
      content := content[b := ERASED];
      res := 0;
    }

    /** sceNandReadPagesRawAll for the first page of a block: its data, and its spare bytes behind the code. */
    method ReadFirstPageRaw(ppn: nat, user: array<octet>, spare: array<octet>) returns (res: int)
      requires ppn % PAGES_PER_BLOCK == 0 && ppn / PAGES_PER_BLOCK < TOTAL_BLOCKS
      requires 512 <= user.Length && 16 <= spare.Length && user != spare
      modifies user, spare
      ensures res < 0 ==> mayFail(ppn / PAGES_PER_BLOCK)
      ensures 0 <= res ==> var block := content[ppn / PAGES_PER_BLOCK];
                           user[..512] == block.user[..512] && spare[4..16] == block.spare[..12]
    {
      var b, fails: bool := ppn / PAGES_PER_BLOCK, *;
      if fails && mayFail(b) {
        return -1;
      }
      var block := content[b];
      forall i | 0 <= i < 512 {
        user[i] := block.user[i];
      }
      forall i | 4 <= i < 16 {
        spare[i] := block.spare[i - 4];
      }
      res := 0;
    }

    /** sceNandReadBlockWithRetry: the data of a block. */
    method ReadBlock(ppn: nat, buf: array<octet>, at: nat) returns (res: int)
      requires ppn % PAGES_PER_BLOCK == 0 && at + BLOCK_SIZE <= buf.Length
      modifies buf
      ensures res < 0 ==> ppn / PAGES_PER_BLOCK < TOTAL_BLOCKS ==> mayFail(ppn / PAGES_PER_BLOCK)
      ensures 0 <= res ==> ppn / PAGES_PER_BLOCK < TOTAL_BLOCKS
                           && buf[at..at + BLOCK_SIZE] == content[ppn / PAGES_PER_BLOCK].user
      ensures buf[..at] == old(buf[..at])
    {
      var b, fails: bool := ppn / PAGES_PER_BLOCK, *;
      if TOTAL_BLOCKS <= b {
        return -1;
      }
      if fails && mayFail(b) {
        return -1;
      }
      var block := content[b];
      forall i | at <= i < at + BLOCK_SIZE {
        buf[i] := block.user[i - at];
      }
      res := 0;
    }
  }
}
