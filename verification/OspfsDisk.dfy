/** Disk layout of OSPFS: blocks of bytes, block numbers stored as little-endian
    32-bit words, inodes, and the block tree hanging off an inode. */
module OspfsDisk {

  const BLKSIZE: nat := 1024
  const NDIRECT: nat := 10
  const NINDIRECT: nat := 256
  const MAXFILEBLKS: nat := 65802 // NDIRECT + NINDIRECT + NINDIRECT * NINDIRECT
  const TWO32: nat := 0x1_0000_0000

  const FTYPE_REG: nat := 0
  const FTYPE_DIR: nat := 1
  const FTYPE_SYMLINK: nat := 2

  type Byte = x: int | 0 <= x < 256
  type Word32 = x: int | 0 <= x < 0x1_0000_0000
  type Block = b: seq<Byte> | |b| == 1024 witness seq(1024, _ => 0)
  type Pointers = s: seq<Word32> | |s| == 10 witness seq(10, _ => 0)

  function ZeroBlock(): Block { seq(1024, _ => 0) }

  /** The i'th 32-bit word of a block, as a C cast to `uint32_t *` reads it. */
  function Word(b: Block, i: nat): Word32
    requires i < NINDIRECT
  {
    var b0: int, b1: int, b2: int, b3: int := b[4 * i], b[4 * i + 1], b[4 * i + 2], b[4 * i + 3];
    b0 + 0x100 * b1 + 0x1_0000 * b2 + 0x100_0000 * b3
  }

  function SetWord(b: Block, i: nat, w: Word32): Block
    requires i < NINDIRECT
  {
    var x: int := w;
    b[4 * i := x % 256][4 * i + 1 := x / 0x100 % 256][4 * i + 2 := x / 0x1_0000 % 256][4 * i + 3 := x / 0x100_0000]
  }

  lemma BytesOfWord(x: nat)
    requires x < TWO32
    ensures x == x % 256 + 0x100 * (x / 0x100 % 256) + 0x1_0000 * (x / 0x1_0000 % 256)
                 + 0x100_0000 * (x / 0x100_0000)
    ensures x / 0x100_0000 < 256
  {
    var y, z := x / 0x100, x / 0x1_0000;
    assert x == x % 256 + 0x100 * y && y == y % 256 + 0x100 * (y / 0x100);
    assert y / 0x100 == z && z == z % 256 + 0x100 * (z / 0x100);
    assert z / 0x100 == x / 0x100_0000;
  }

  lemma WordAfterSet(b: Block, i: nat, w: Word32, j: nat)
    requires i < NINDIRECT && j < NINDIRECT
    ensures Word(SetWord(b, i, w), j) == if i == j then w else Word(b, j)
  {
    var x: int := w;
    var c := SetWord(b, i, w);
    BytesOfWord(x);
    if i == j {
      assert c[4 * i] == x % 256 && c[4 * i + 1] == x / 0x100 % 256;
      assert c[4 * i + 2] == x / 0x1_0000 % 256 && c[4 * i + 3] == x / 0x100_0000;
    } else {
      assert c[4 * j] == b[4 * j] && c[4 * j + 1] == b[4 * j + 1];
      assert c[4 * j + 2] == b[4 * j + 2] && c[4 * j + 3] == b[4 * j + 3];
    }
  }

  lemma SetWordSame(b: Block, i: nat)
    requires i < NINDIRECT
    ensures SetWord(b, i, Word(b, i)) == b
  {
    var b0: int, b1: int, b2: int, b3: int := b[4 * i], b[4 * i + 1], b[4 * i + 2], b[4 * i + 3];
    var x: int := Word(b, i);
    assert x % 256 == b0;
    assert x / 0x100 == b1 + 0x100 * b2 + 0x1_0000 * b3;
    assert x / 0x1_0000 == b2 + 0x100 * b3;
    assert x / 0x100_0000 == b3;
  }

  /** Kernel inode fields (the mode plays no part in the model). */
  datatype Inode = Inode(size: Word32, ftype: nat, nlink: nat,
                         direct: Pointers, indirect: Word32, indirect2: Word32)

  /** ospfs_size2nblocks; the addition wraps at 32 bits. */
  function Size2Nblocks(size: Word32): nat {
    (size + BLKSIZE - 1) % TWO32 / BLKSIZE
  }

  /** The three index helpers of the kernel module, for zero-based file block b. */
  function Indir2Index(b: nat): int {
    if b + 1 > NDIRECT + NINDIRECT then 0 else -1
  }

  function IndirIndex(b: nat): int {
    if b + 1 <= NDIRECT then -1
    else if b + 1 <= NDIRECT + NINDIRECT then 0
    else (b - NDIRECT - NINDIRECT) / NINDIRECT
  }

  function DirectIndex(b: nat): nat {
    if b + 1 <= NDIRECT then b
    else if b + 1 <= NDIRECT + NINDIRECT then b - NDIRECT
    else (b - NDIRECT) % NINDIRECT
  }

  /** What a block in a file's tree is for: file block b, the indirect block, the
      doubly indirect block, or the k'th indirect block below the latter. */
  datatype Role = Data(b: nat) | Ind | Ind2 | Sub(k: nat)

  predicate IsRole(r: Role) {
    match r
    case Data(b) => b < MAXFILEBLKS
    case Sub(k) => k < NINDIRECT
    case _ => true
  }

  /** Whether a tree that holds file blocks 0..h-1 needs a block in role r. */
  predicate InTree(r: Role, h: nat) {
    match r
    case Data(b) => b < h
    case Ind => h > NDIRECT
    case Ind2 => h > NDIRECT + NINDIRECT
    case Sub(k) => h > NDIRECT + NINDIRECT + NINDIRECT * k
  }

  function Blk(disk: seq<Block>, p: nat): Block {
    if p < |disk| then disk[p] else ZeroBlock()
  }

  /** The pointer an inode's tree holds in role r, decoded as ospfs_inode_blockno
      does; a null index pointer is followed to block 0, as the code would. */
  function At(disk: seq<Block>, oi: Inode, r: Role): Word32
    requires IsRole(r)
  {
    match r
    case Ind => oi.indirect
    case Ind2 => oi.indirect2
    case Sub(k) => Word(Blk(disk, oi.indirect2), k)
    case Data(b) =>
      if b >= NDIRECT + NINDIRECT then
        var off := b - (NDIRECT + NINDIRECT);
        Word(Blk(disk, Word(Blk(disk, oi.indirect2), off / NINDIRECT)), off % NINDIRECT)
      else if b >= NDIRECT then
        Word(Blk(disk, oi.indirect), b - NDIRECT)
      else
        oi.direct[b]
  }

  /** ospfs_inode_blockno: the disk block that holds byte `offset`, or 0. */
  function InodeBlockno(disk: seq<Block>, oi: Inode, offset: Word32): Word32
    requires offset < oi.size ==> offset / BLKSIZE < MAXFILEBLKS
  {
    if offset >= oi.size || oi.ftype == FTYPE_SYMLINK then 0 else At(disk, oi, Data(offset / BLKSIZE))
  }
}
