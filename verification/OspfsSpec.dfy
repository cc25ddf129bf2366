/** The allocator, add_block, remove_block and change_size of lab3/ospfsmod.c as
    functions of the volume and one inode.  They follow the code step for step,
    including what it does at index n instead of n - 1 in remove_block. */
module OspfsSpec {
  import opened OspfsDisk
  import opened OspfsTree

  /** The free map: true means free.  Disks are smaller than the largest file. */
  type Bitmap = s: seq<bool> | |s| <= 65802 witness []

  datatype Vol = Vol(first: nat, free: Bitmap, disk: seq<Block>)

  datatype Fs = Fs(vol: Vol, inodes: seq<Inode>)

  datatype Status = OK | ENOSPC

  function FirstFree(free: Bitmap, i: nat): (x: Word32)
    ensures x == 0 || (i <= x < |free| && free[x] && forall j | i <= j < x :: !free[j])
    ensures x == 0 && 0 < i ==> forall j | i <= j < |free| :: !free[j]
    decreases |free| - i
  {
    if i >= |free| then 0 else if free[i] then i else FirstFree(free, i + 1)
  }

  /** allocate_block followed by zero_out_block; block 0 means the disk is full. */
  function NewBlock(v: Vol): (Vol, Word32) {
    var x := FirstFree(v.free, 2);
    if x == 0 then (v, 0)
    else (v.(free := v.free[x := false], disk := if x < |v.disk| then v.disk[x := ZeroBlock()] else v.disk), x)
  }

  function FreeBlock(v: Vol, p: nat): Vol {
    if p < v.first || p >= |v.free| then v else v.(free := v.free[p := true])
  }

  function LinkIn(v: Vol, oi: Inode, r: Role, x: Word32): (Vol, Inode)
    requires IsRole(r)
  {
    var (d, i) := Link(v.disk, oi, r, x);
    (v.(disk := d), i)
  }

  /** add_block's work on file block n; on failure the inode keeps what the code
      leaves in it, which includes a fresh but freed doubly indirect block. */
  function AddAt(v: Vol, oi: Inode, n: nat): (Vol, Inode, bool)
    requires n < MAXFILEBLKS
  {
    var (v1, x) := NewBlock(v);
    if x == 0 then (v, oi, false)
    else if n < NDIRECT then
      var (v2, oi2) := LinkIn(v1, oi, Data(n), x);
      (v2, oi2, true)
    else if n < NDIRECT + NINDIRECT then AddMid(v1, oi, n, x)
    else AddDeep(v1, oi, n, x)
  }

  /** The branch for blocks under the indirect block; x is the new data block. */
  function AddMid(v: Vol, oi: Inode, n: nat, x: Word32): (Vol, Inode, bool)
    requires NDIRECT <= n < NDIRECT + NINDIRECT
  {
    if oi.indirect == 0 then
      var (v1, y) := NewBlock(v);
      if y == 0 then (FreeBlock(v, x), oi, false)
      else
        var (v2, oi2) := LinkIn(v1, oi, Ind, y);
        var (v3, oi3) := LinkIn(v2, oi2, Data(n), x);
        (v3, oi3, true)
    else
      var (v1, oi1) := LinkIn(v, oi, Data(n), x);
      (v1, oi1, true)
  }

  /** The branch for blocks under the doubly indirect block. */
  function AddDeep(v: Vol, oi: Inode, n: nat, x: Word32): (Vol, Inode, bool)
    requires NDIRECT + NINDIRECT <= n < MAXFILEBLKS
  {
    if oi.indirect2 == 0 then
      var (v1, z) := NewBlock(v);
      if z == 0 then (FreeBlock(v, x), oi, false)
      else
        var (v2, oi2) := LinkIn(v1, oi, Ind2, z);
        AddBelow(v2, oi2, n, x, z)
    else AddBelow(v, oi, n, x, 0)
  }

  /** The rest of add_block under the doubly indirect block; z is the block just
      allocated for it, if any. */
  function AddBelow(v: Vol, oi: Inode, n: nat, x: Word32, z: Word32): (Vol, Inode, bool)
    requires NDIRECT + NINDIRECT <= n < MAXFILEBLKS
  {
    var k: nat := IndirIndex(n);
    if At(v.disk, oi, Sub(k)) == 0 then
      var (v1, y) := NewBlock(v);
      if y == 0 then
        var v2 := FreeBlock(v, x);
        (if z != 0 then FreeBlock(v2, z) else v2, oi, false)
      else
        var (v2, oi2) := LinkIn(v1, oi, Sub(k), y);
        var (v3, oi3) := LinkIn(v2, oi2, Data(n), x);
        (v3, oi3, true)
    else
      var (v2, oi2) := LinkIn(v, oi, Data(n), x);
      (v2, oi2, true)
  }

  function Drop(v: Vol, oi: Inode, r: Role): (Vol, Inode)
    requires IsRole(r)
  {
    LinkIn(FreeBlock(v, At(v.disk, oi, r)), oi, r, 0)
  }

  /** remove_block's work, with the file block index it uses as a parameter. */
  function RemoveAt(v: Vol, oi: Inode, b: nat): (Vol, Inode)
    requires b < MAXFILEBLKS
  {
    var (v1, oi1) := Drop(v, oi, Data(b));
    if b == NDIRECT then Drop(v1, oi1, Ind)
    else if b >= NDIRECT + NINDIRECT && (b - NDIRECT) % NINDIRECT == 0 then
      var (v2, oi2) := Drop(v1, oi1, Sub(IndirIndex(b)));
      if b == NDIRECT + NINDIRECT then Drop(v2, oi2, Ind2) else (v2, oi2)
    else (v1, oi1)
  }

  function AddBlock(v: Vol, oi: Inode): (Vol, Inode, bool) {
    var n := Size2Nblocks(oi.size);
    if n >= MAXFILEBLKS then (v, oi, false)
    else
      var (v1, oi1, ok) := AddAt(v, oi, n);
      (v1, if ok then oi1.(size := (oi1.size + BLKSIZE) % TWO32) else oi1, ok)
  }

  /** remove_block hands the current block count n to its helpers as the index. */
  function RemoveBlock(v: Vol, oi: Inode): (Vol, Inode) {
    var n := Size2Nblocks(oi.size);
    var (v1, oi1) := if n < MAXFILEBLKS then RemoveAt(v, oi, n) else (v, oi);
    (v1, oi1.(size := (oi1.size + TWO32 - BLKSIZE) % TWO32))
  }

  lemma NblocksStep(size: Word32)
    ensures Size2Nblocks(size) < 4194303 ==>
              Size2Nblocks((size + BLKSIZE) % TWO32) == Size2Nblocks(size) + 1
    ensures Size2Nblocks(size) > 0 ==>
              Size2Nblocks((size + TWO32 - BLKSIZE) % TWO32) == Size2Nblocks(size) - 1
    ensures Size2Nblocks(size) <= 4194303
  {
    if size + 1023 < TWO32 {
      if size >= 1024 {
        assert (size + TWO32 - BLKSIZE) % TWO32 == size - 1024;
      } else if size > 0 {
        assert (size + TWO32 - BLKSIZE) % TWO32 == size + TWO32 - 1024;
      }
    }
  }

  lemma BlockOpsKeepSize(v: Vol, oi: Inode, n: nat)
    requires n < MAXFILEBLKS
    ensures AddAt(v, oi, n).1.size == oi.size
    ensures RemoveAt(v, oi, n).1.size == oi.size
  {
    hide At, FirstFree, Word, Poke;
  }

  /** The first loop of change_size. */
  function Grow(v: Vol, oi: Inode, target: nat): (Vol, Inode, bool)
    requires target <= 4194303
    decreases target - Size2Nblocks(oi.size)
  {
    if Size2Nblocks(oi.size) >= target then (v, oi, true)
    else
      var (v1, oi1, ok) := AddBlock(v, oi);
      if !ok then (v1, oi1, false)
      else
        assert Size2Nblocks(oi1.size) == Size2Nblocks(oi.size) + 1 by {
          NblocksStep(oi.size);
          BlockOpsKeepSize(v, oi, Size2Nblocks(oi.size));
        }
        Grow(v1, oi1, target)
  }

  /** The second loop of change_size, and the one that undoes a failed growth. */
  function Shrink(v: Vol, oi: Inode, target: nat): (Vol, Inode)
    decreases Size2Nblocks(oi.size)
  {
    if Size2Nblocks(oi.size) <= target then (v, oi)
    else
      var (v1, oi1) := RemoveBlock(v, oi);
      assert Size2Nblocks(oi1.size) == Size2Nblocks(oi.size) - 1 by {
        NblocksStep(oi.size);
        if Size2Nblocks(oi.size) < MAXFILEBLKS { BlockOpsKeepSize(v, oi, Size2Nblocks(oi.size)); }
      }
      Shrink(v1, oi1, target)
  }

  function ChangeSize(v: Vol, oi: Inode, want: Word32): (Vol, Inode, Status) {
    NblocksStep(want);
    var (v1, oi1, ok) := Grow(v, oi, Size2Nblocks(want));
    if !ok then
      var (v2, oi2) := Shrink(v1, oi1, Size2Nblocks(oi.size));
      (v2, oi2.(size := oi.size), ENOSPC)
    else
      var (v2, oi2) := Shrink(v1, oi1, Size2Nblocks(want));
      (v2, oi2.(size := want), OK)
  }

  /** change_size on file f of a file system. */
  function Resize(fs: Fs, f: nat, want: Word32): (Fs, Status)
    requires f < |fs.inodes|
  {
    var (v, oi, r) := ChangeSize(fs.vol, fs.inodes[f], want);
    (Fs(v, fs.inodes[f := oi]), r)
  }
}
