/** The image the formatter builds (lab3/ospfsformat.c): storeblk and the counter nextb
    on an uncached disk, against the kernel's decoder and the kernel's allocator. */
module FormatImage {
  import opened Options
  import opened OspfsDisk
  import opened OspfsTree
  import opened OspfsSpec
  import opened OspfsInv
  import opened OspfsBlocks
  import opened OspfsResize
  import opened OspfsChangeSize

  /** The program refuses larger disks. */
  const MAXBLOCKS: nat := 8192

  datatype Store = Store(disk: seq<Block>, oi: Inode, nextb: nat)

  /** getblk(nextb++, 1, ..): a zeroed block, or abort past the end of the disk. */
  function TakeZeroed(d: seq<Block>, nextb: nat): Option<seq<Block>> {
    if nextb < |d| then Some(d[nextb := ZeroBlock()]) else None
  }

  /** One word of a block that getblk finds. */
  function PutWord(d: seq<Block>, p: nat, i: nat, w: Word32): Option<seq<Block>>
    requires i < NINDIRECT
  {
    if p < |d| then Some(d[p := SetWord(d[p], i, w)]) else None
  }

  /** storeblk: make block b the nblk'th block of an inode; None where it aborts. */
  function StoreBlk(d: seq<Block>, oi: Inode, nextb: nat, b: Word32, nblk: nat): Option<Store>
    requires nextb < TWO32
  {
    if nblk < NDIRECT then Some(Store(d, oi.(direct := oi.direct[nblk := b]), nextb))
    else if nblk < NDIRECT + NINDIRECT then
      if oi.indirect == 0 then
        var d1 := TakeZeroed(d, nextb);
        if d1.None? then None
        else PutLast(d1.value, oi.(indirect := nextb), nextb + 1, nextb, nblk - NDIRECT, b)
      else PutLast(d, oi, nextb, oi.indirect, nblk - NDIRECT, b)
    else if nblk < MAXFILEBLKS then
      if oi.indirect2 == 0 then
        var d1 := TakeZeroed(d, nextb);
        if d1.None? || nextb + 1 >= TWO32 then None
          else StoreDeep(d1.value, oi.(indirect2 := nextb), nextb + 1, b, nblk - 266)
      else StoreDeep(d, oi, nextb, b, nblk - 266)
    else None
  }

  function PutLast(d: seq<Block>, oi: Inode, nextb: nat, p: nat, i: nat, b: Word32): Option<Store>
    requires i < NINDIRECT
  {
    var d1 := PutWord(d, p, i, b);
    if d1.None? then None else Some(Store(d1.value, oi, nextb))
  }

  /** The part of storeblk below the doubly indirect block; off counts from its first block. */
  function StoreDeep(d: seq<Block>, oi: Inode, nextb: nat, b: Word32, off: nat): Option<Store>
    requires nextb < TWO32 && off < 0x1_0000
  {
    if oi.indirect2 >= |d| then None
    else
      var y := Word(d[oi.indirect2], off / NINDIRECT);
      if y == 0 then
        var d1 := TakeZeroed(d, nextb);
        if d1.None? then None
        else
          var d2 := PutWord(d1.value, oi.indirect2, off / NINDIRECT, nextb);
          if d2.None? then None else PutLast(d2.value, oi, nextb + 1, nextb, off % NINDIRECT, b)
      else PutLast(d, oi, nextb, y, off % NINDIRECT, b)
  }

  /** The kernel's view of the disk while it is being built: blocks from nextb on are free. */
  function Unused(nblocks: nat, nextb: nat): Bitmap
    requires nblocks <= MAXBLOCKS
  {
    seq(nblocks, i => i >= nextb)
  }

  function View(first: nat, d: seq<Block>, nextb: nat): Vol
    requires |d| <= MAXBLOCKS
  {
    Vol(first, Unused(|d|, nextb), d)
  }

  /** The first free block of that map is nextb. */
  lemma {:induction false} FirstUnused(nblocks: nat, nextb: nat, i: nat)
    requires nblocks <= MAXBLOCKS && i <= nextb
    ensures FirstFree(Unused(nblocks, nextb), i) == if nextb < nblocks then nextb else 0
    decreases nextb - i
  {
    if i < nextb && i < nblocks { FirstUnused(nblocks, nextb, i + 1); }
  }

  lemma TakeIsNew(first: nat, d: seq<Block>, nextb: nat)
    requires |d| <= MAXBLOCKS && 2 <= nextb
    ensures NewBlock(View(first, d, nextb)) ==
            if nextb < |d| then (View(first, d[nextb := ZeroBlock()], nextb + 1), nextb) else (View(first, d, nextb), 0)
  {
    FirstUnused(|d|, nextb, 2);
    if nextb < |d| {
      assert Unused(|d|, nextb)[nextb := false] == Unused(|d|, nextb + 1);
    }
  }

  /** The pointers of the inode lie on the disk. */
  ghost predicate PointersFit(d: seq<Block>, oi: Inode) {
    && |d| > 0 && oi.indirect < |d| && oi.indirect2 < |d|
    && forall k | 0 <= k < NINDIRECT :: At(d, oi, Sub(k)) < |d|
  }

  /** storeblk is the rest of add_block once the data block is taken: same pointers, same
      index blocks in the same order. */
  lemma StoreIsAdd(first: nat, d: seq<Block>, oi: Inode, nextb: nat, n: nat)
    requires |d| <= MAXBLOCKS && 2 <= nextb < |d| && n < MAXFILEBLKS
    requires PointersFit(d[nextb := ZeroBlock()], oi)
    ensures var (v, oi', ok) := AddAt(View(first, d, nextb), oi, n);
            var s := StoreBlk(d[nextb := ZeroBlock()], oi, nextb + 1, nextb, n);
            && (ok <==> s.Some?)
            && (ok ==> |s.value.disk| == |d| && v == View(first, s.value.disk, s.value.nextb) && oi' == s.value.oi)
  {
    TakeIsNew(first, d, nextb);
    var d1 := d[nextb := ZeroBlock()];
    if NDIRECT <= n < 266 {
      StoreMid(first, d1, oi, nextb + 1, nextb, n);
    } else if 266 <= n {
      StoreHigh(first, d1, oi, nextb + 1, nextb, n);
    }
  }

  lemma StoreMid(first: nat, d: seq<Block>, oi: Inode, nextb: nat, x: Word32, n: nat)
    requires |d| <= MAXBLOCKS && 2 <= nextb <= |d| && NDIRECT <= n < 266 && PointersFit(d, oi)
    ensures var (v, oi', ok) := AddMid(View(first, d, nextb), oi, n, x);
            var s := StoreBlk(d, oi, nextb, x, n);
            && (ok <==> s.Some?)
            && (ok ==> |s.value.disk| == |d| && v == View(first, s.value.disk, s.value.nextb) && oi' == s.value.oi)
  {
    hide SetWord, Word, At;
    TakeIsNew(first, d, nextb);
  }

  lemma StoreHigh(first: nat, d: seq<Block>, oi: Inode, nextb: nat, x: Word32, n: nat)
    requires |d| <= MAXBLOCKS && 2 <= nextb <= |d| && 266 <= n < MAXFILEBLKS && PointersFit(d, oi)
    ensures var (v, oi', ok) := AddDeep(View(first, d, nextb), oi, n, x);
            var s := StoreBlk(d, oi, nextb, x, n);
            && (ok <==> s.Some?)
            && (ok ==> |s.value.disk| == |d| && v == View(first, s.value.disk, s.value.nextb) && oi' == s.value.oi)
  {
    hide SetWord, Word, At, AddBelow, StoreDeep, ZeroBlock;
    TakeIsNew(first, d, nextb);
    if oi.indirect2 != 0 {
      BelowIsDeep(first, d, oi, nextb, x, n, 0);
    } else if nextb < |d| {
      BelowIsDeep(first, d[nextb := ZeroBlock()], oi.(indirect2 := nextb), nextb + 1, x, n, nextb) by {
        FreshFits(d, oi, nextb);
      }
    }
  }

  /** A zeroed block as the doubly indirect block holds null pointers. */
  lemma FreshFits(d: seq<Block>, oi: Inode, z: nat)
    requires 0 < z < |d| && z < TWO32 && PointersFit(d, oi)
    ensures PointersFit(d[z := ZeroBlock()], oi.(indirect2 := z))
  {
    ZeroNoWords();
  }

  lemma BelowIsDeep(first: nat, d: seq<Block>, oi: Inode, nextb: nat, x: Word32, n: nat, z: Word32)
    requires |d| <= MAXBLOCKS && 2 <= nextb <= |d| && 266 <= n < MAXFILEBLKS && PointersFit(d, oi)
    ensures var (v, oi', ok) := AddBelow(View(first, d, nextb), oi, n, x, z);
            var s := StoreDeep(d, oi, nextb, x, n - 266);
            && (ok <==> s.Some?)
            && (ok ==> |s.value.disk| == |d| && v == View(first, s.value.disk, s.value.nextb) && oi' == s.value.oi)
  {
    hide SetWord, Word, ZeroBlock;
    var k := (n - 266) / 256;
    assert IndirIndex(n) == k < 256 && DirectIndex(n) == (n - 266) % 256;
    TakeIsNew(first, d, nextb);
    assert At(d, oi, Sub(k)) == Word(d[oi.indirect2], k);
    if At(d, oi, Sub(k)) == 0 && nextb < |d| {
      var d1 := d[nextb := ZeroBlock()];
      var d2 := Poke(d1, oi.indirect2, k, nextb);
      PokeWord(d1, oi.indirect2, k, nextb, oi.indirect2, k);
      assert At(d2, oi, Sub(k)) == nextb;
      assert Holder(d2, oi, Data(n)) == nextb;
    } else {
      assert Holder(d, oi, Data(n)) == At(d, oi, Sub(k));
    }
  }

  /** The kernel's decoder finds block b where storeblk put it. */
  lemma StoreDecodes(d: seq<Block>, oi: Inode, nextb: nat, b: Word32, n: nat)
    requires 2 <= nextb <= |d| && |d| <= MAXBLOCKS && n < MAXFILEBLKS && PointersFit(d, oi) && IndexSound(d, oi)
    requires oi.indirect < nextb && oi.indirect2 < nextb
    requires StoreBlk(d, oi, nextb, b, n).Some?
    ensures var s := StoreBlk(d, oi, nextb, b, n).value;
            At(s.disk, s.oi, Data(n)) == b && nextb <= s.nextb <= |s.disk| == |d|
  {
    hide SetWord, Word, ZeroBlock;
    var s := StoreBlk(d, oi, nextb, b, n).value;
    if NDIRECT <= n < 266 {
      var p := s.oi.indirect;
      var d1 := if oi.indirect == 0 then d[nextb := ZeroBlock()] else d;
      PokeWord(d1, p, n - 10, b, p, n - 10);
    } else if 266 <= n {
      var off := n - 266;
      if oi.indirect2 == 0 {
        var d1, oi1 := d[nextb := ZeroBlock()], oi.(indirect2 := nextb);
        assert Word(d1[nextb], off / 256) == 0 by { ZeroNoWords(); }
        DeepDecodes(d1, oi1, nextb + 1, b, off);
      } else {
        assert At(d, oi, Sub(off / 256)) == Word(d[oi.indirect2], off / 256);
        assert At(d, oi, Ind2) == oi.indirect2;
        DeepDecodes(d, oi, nextb, b, off);
      }
    }
  }

  lemma DeepDecodes(d: seq<Block>, oi: Inode, nextb: nat, b: Word32, off: nat)
    requires |d| <= MAXBLOCKS && nextb <= |d| && off < 0x1_0000
    requires 0 < oi.indirect2 < nextb && oi.indirect2 < |d|
    requires Word(d[oi.indirect2], off / NINDIRECT) != oi.indirect2
    requires StoreDeep(d, oi, nextb, b, off).Some?
    ensures var s := StoreDeep(d, oi, nextb, b, off).value;
            s.oi == oi && At(s.disk, oi, Data(266 + off)) == b && nextb <= s.nextb <= |s.disk| == |d|
  {
    hide SetWord, Word, ZeroBlock;
    var k, j, q := off / NINDIRECT, off % NINDIRECT, oi.indirect2;
    var y := Word(d[q], k);
    if y == 0 {
      var d1 := d[nextb := ZeroBlock()];
      var d2 := Poke(d1, q, k, nextb);
      PokeWord(d1, q, k, nextb, q, k);
      PokeWord(d2, nextb, j, b, q, k);
      PokeWord(d2, nextb, j, b, nextb, j);
    } else {
      PokeWord(d, y, j, b, q, k);
      PokeWord(d, y, j, b, y, j);
    }
  }

  /** storeblk does not look at the data block, whatever is in it. */
  lemma StoreCommutes(d: seq<Block>, oi: Inode, nextb: nat, b: Word32, n: nat, x: nat, c: Block)
    requires 0 < x < nextb <= |d| && |d| <= MAXBLOCKS && n < MAXFILEBLKS
    requires x != oi.indirect && x != oi.indirect2 && forall k | 0 <= k < NINDIRECT :: At(d, oi, Sub(k)) != x
    ensures var s := StoreBlk(d, oi, nextb, b, n);
            var t := StoreBlk(d[x := c], oi, nextb, b, n);
            && (s.Some? <==> t.Some?)
            && (s.Some? ==> |s.value.disk| == |d| && t.value == s.value.(disk := s.value.disk[x := c]))
  {
    hide SetWord, Word, ZeroBlock;
    if NDIRECT <= n < 266 {
      assert oi.indirect == 0 && nextb < |d| ==> d[nextb := ZeroBlock()][x := c] == d[x := c][nextb := ZeroBlock()];
      var d1 := if oi.indirect == 0 && nextb < |d| then d[nextb := ZeroBlock()] else d;
      var p := if oi.indirect == 0 then nextb else oi.indirect;
      if p < |d| { Swap(d1, x, p, c, SetWord(d1[p], n - 10, b)); }
    } else if 266 <= n {
      if oi.indirect2 != 0 {
        if oi.indirect2 < |d| { assert At(d, oi, Sub((n - 266) / 256)) == Word(d[oi.indirect2], (n - 266) / 256); }
        DeepCommutes(d, oi, nextb, b, n - 266, x, c);
      } else if nextb < |d| {
        var d1 := d[nextb := ZeroBlock()];
        assert d1[x := c] == d[x := c][nextb := ZeroBlock()];
        assert Word(d1[nextb], (n - 266) / 256) == 0 by { ZeroNoWords(); }
        DeepCommutes(d1, oi.(indirect2 := nextb), nextb + 1, b, n - 266, x, c);
      }
    }
  }

  lemma Swap(d: seq<Block>, p: nat, q: nat, a: Block, b: Block)
    requires p < |d| && q < |d| && p != q
    ensures d[p := a][q := b] == d[q := b][p := a]
  {
  }

  lemma DeepCommutes(d: seq<Block>, oi: Inode, nextb: nat, b: Word32, off: nat, x: nat, c: Block)
    requires 0 < x < nextb <= |d| && |d| <= MAXBLOCKS && off < 0x1_0000 && x != oi.indirect2
    requires oi.indirect2 < |d| ==> Word(d[oi.indirect2], off / NINDIRECT) != x
    ensures var s := StoreDeep(d, oi, nextb, b, off);
            var t := StoreDeep(d[x := c], oi, nextb, b, off);
            && (s.Some? <==> t.Some?)
            && (s.Some? ==> |s.value.disk| == |d| && t.value == s.value.(disk := s.value.disk[x := c]))
  {
    hide SetWord, Word, ZeroBlock;
    var k, j, q := off / NINDIRECT, off % NINDIRECT, oi.indirect2;
    if q < |d| {
      var y := Word(d[q], k);
      if y == 0 {
        if nextb < |d| {
          var d1 := d[nextb := ZeroBlock()];
          var d2 := d1[q := SetWord(d1[q], k, nextb)];
          Swap(d, x, nextb, c, ZeroBlock());
          Swap(d1, x, q, c, SetWord(d1[q], k, nextb));
          Swap(d2, x, nextb, c, SetWord(d2[nextb], j, b));
        }
      } else if y < |d| {
        Swap(d, x, y, c, SetWord(d[y], j, b));
      }
    }
  }
}
