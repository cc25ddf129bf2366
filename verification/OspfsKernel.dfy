/** The in-place form of the kernel module: the free map is an array of 32-bit words,
    the disk an array of blocks, the inode table an array of inodes.  Every method is
    proved equal to the step of OspfsSpec it performs. */
module OspfsKernel {
  import opened OspfsDisk
  import opened OspfsTree
  import opened OspfsSpec
  import opened OspfsInv
  import opened OspfsBlocks
  import opened OspfsResize
  import opened OspfsChangeSize
  import opened OspfsBytes
  import opened OspfsBits

  const EIO: int := 5
  const ENOSPC_CODE: int := 28

  /** The pointers add_block follows lie on the disk. */
  ghost predicate CanAdd(v: Vol, oi: Inode) {
    && Nb(oi) < MAXFILEBLKS && |v.disk| == |v.free|
    && (Nb(oi) >= 10 ==> oi.indirect < |v.disk|)
    && (Nb(oi) >= 266 ==>
          && oi.indirect2 < |v.disk|
          && At(NewBlock(v).0.disk, oi, Sub((Nb(oi) - 266) / 256)) < |v.disk|)
  }

  /** The pointers remove_block follows and frees lie on the disk. */
  ghost predicate CanRemove(v: Vol, oi: Inode) {
    var n := Nb(oi);
    && 0 < n < MAXFILEBLKS && |v.disk| == |v.free|
    && At(v.disk, oi, Data(n)) < |v.disk|
    && (n >= 10 ==> oi.indirect < |v.disk|)
    && (n >= 266 ==> oi.indirect2 < |v.disk| && At(v.disk, oi, Sub((n - 266) / 256)) < |v.disk|)
  }

  /** After word k of the doubly indirect block is set to y, y holds the pointer. */
  lemma HolderIs(disk: seq<Block>, oi: Inode, n: nat, y: Word32)
    requires 266 <= n < MAXFILEBLKS && oi.indirect2 < |disk|
    ensures var (d, i) := Link(disk, oi, Sub((n - 266) / 256), y);
            i == oi && Holder(d, i, Data(n)) == y
    ensures IndirIndex(n) == (n - 266) / 256 < 256
  {
    hide Word, SetWord;
    PokeWord(disk, oi.indirect2, (n - 266) / 256, y, oi.indirect2, (n - 266) / 256);
  }

  lemma SubIsWord(disk: seq<Block>, oi: Inode, k: nat)
    requires k < 256 && oi.indirect2 < |disk|
    ensures At(disk, oi, Sub(k)) == Word(disk[oi.indirect2], k)
  {
  }

  lemma SubIndex(n: nat)
    requires 266 <= n < MAXFILEBLKS
    ensures IndirIndex(n) == (n - 266) / 256 && 0 <= IndirIndex(n) < 256
  {
  }

  /** Every add_block that growing to target file blocks performs stays on the disk. */
  ghost predicate AllAddable(v: Vol, oi: Inode, target: nat)
    requires target <= 4194303
    decreases target - Nb(oi)
  {
    Nb(oi) >= target ||
    (CanAdd(v, oi) &&
     (OspfsSpec.AddBlock(v, oi).2 ==>
        assert Nb(OspfsSpec.AddBlock(v, oi).1) == Nb(oi) + 1 by { AddBlockIs(v, oi); }
        AllAddable(OspfsSpec.AddBlock(v, oi).0, OspfsSpec.AddBlock(v, oi).1, target)))
  }

  /** Every remove_block that shrinking to target file blocks performs stays on the disk. */
  ghost predicate AllRemovable(v: Vol, oi: Inode, target: nat)
    decreases Nb(oi)
  {
    Nb(oi) <= target ||
    (CanRemove(v, oi) &&
     (assert Nb(OspfsSpec.RemoveBlock(v, oi).1) == Nb(oi) - 1 by { RemoveBlockIs(v, oi); }
      AllRemovable(OspfsSpec.RemoveBlock(v, oi).0, OspfsSpec.RemoveBlock(v, oi).1, target)))
  }

  lemma CoreInRange(v: Vol, inodes: seq<Inode>, own: Owners, data: nat, f: nat, r: Role)
    requires Core(v, inodes, own, data) && f < |inodes| && IsRole(r)
    ensures At(v.disk, inodes[f], r) < |v.disk| == |v.free|
  {
    hide At;
    assert A(v, inodes, f, r) == At(v.disk, inodes[f], r);
  }

  lemma CoreCanRemove(v: Vol, inodes: seq<Inode>, own: Owners, data: nat, f: nat)
    requires Core(v, inodes, own, data) && f < |inodes| && 0 < Nb(inodes[f]) < MAXFILEBLKS
    ensures CanRemove(v, inodes[f])
  {
    hide At, Core;
    var n := Nb(inodes[f]);
    Ind2At(v.disk, inodes[f]);
    CoreInRange(v, inodes, own, data, f, Ind);
    CoreInRange(v, inodes, own, data, f, Ind2);
    CoreInRange(v, inodes, own, data, f, Data(n));
    if n >= 266 { CoreInRange(v, inodes, own, data, f, Sub((n - 266) / 256)); }
  }

  lemma CoreCanAdd(v: Vol, inodes: seq<Inode>, own: Owners, data: nat, f: nat)
    requires Core(v, inodes, own, data) && f < |inodes| && Nb(inodes[f]) < MAXFILEBLKS
    ensures CanAdd(v, inodes[f])
  {
    hide At, Core, NewBlock;
    var n := Nb(inodes[f]);
    Ind2At(v.disk, inodes[f]);
    CoreInRange(v, inodes, own, data, f, Ind);
    CoreInRange(v, inodes, own, data, f, Ind2);
    if n >= 266 {
      var k := (n - 266) / 256;
      NewBlockCore(v, inodes, own, data);
      var (v1, x) := NewBlock(v);
      CoreInRange(v, inodes, own, data, f, Sub(k));
      assert A(v1, inodes, f, Sub(k)) == A(v, inodes, f, Sub(k));
    }
  }

  lemma CoreRemovable(v: Vol, inodes: seq<Inode>, own: Owners, data: nat, f: nat, h: nat, target: nat)
    requires f < |inodes| && Core(v, inodes, own, data) && Shape(v, inodes, f, h)
    requires Nb(inodes[f]) < MAXFILEBLKS && (h == Nb(inodes[f]) || h == Nb(inodes[f]) + 1)
    ensures AllRemovable(v, inodes[f], target)
    decreases Nb(inodes[f])
  {
    hide Core, Shape, Frame, A, OspfsSpec.RemoveBlock, CanRemove;
    if Nb(inodes[f]) > target {
      CoreCanRemove(v, inodes, own, data, f);
      var own1 := RemoveStep(v, inodes, own, data, f, h);
      var (v1, oi1) := OspfsSpec.RemoveBlock(v, inodes[f]);
      CoreRemovable(v1, inodes[f := oi1], own1, data, f, Nb(inodes[f]), target);
    }
  }

  lemma FitsAddable(v: Vol, inodes: seq<Inode>, own: Owners, data: nat, f: nat, h: nat, target: nat)
    requires Fits(v, inodes, own, data, f, h) && target <= 4194303
    ensures AllAddable(v, inodes[f], target)
    decreases target - Nb(inodes[f])
  {
    hide Core, Shape, Frame, A, OspfsSpec.AddBlock, CanAdd, Need, Within, Free, Stuck;
    if Nb(inodes[f]) < target {
      CoreCanAdd(v, inodes, own, data, f);
      if Need(Nb(inodes[f]), h) <= |Free(v)| {
        var own1 := AddStep(v, inodes, own, data, f, h);
        var (v1, oi1, _) := OspfsSpec.AddBlock(v, inodes[f]);
        FitsAddable(v1, inodes[f := oi1], own1, data, f, Nb(inodes[f]) + 1, target);
      } else {
        StuckBase(v, inodes, own, data, f, h);
      }
    }
  }

  /** The shrinking loops of change_size stay on the disk, also after a growth that
      failed with a dangling doubly indirect pointer. */
  lemma LoopsInRange(fs: Fs, f: nat, t: nat)
    requires Inv(fs) && f < |fs.inodes| && t <= 4194303
    ensures AllAddable(fs.vol, fs.inodes[f], t)
    ensures var (v, oi, ok) := Grow(fs.vol, fs.inodes[f], t);
            AllRemovable(v, oi, if ok then t else Nb(fs.inodes[f]))
  {
    hide Core, Shape, Frame, A, Grow, Need, NeedTo, High, Free, Within, CanRemove, OspfsSpec.RemoveBlock, RemoveAt;
    var own :| InvW(fs, own);
    InvFits(fs, own, f);
    var v, inodes, data := fs.vol, fs.inodes, DataStart(fs);
    var n, h := Nb(inodes[f]), High(fs, f);
    FitsAddable(v, inodes, own, data, f, h, t);
    if NeedTo(n, h, t) <= |Free(v)| {
      var own1 := GrowSucceeds(v, inodes, own, data, f, h, t);
      var (v1, oi1, _) := Grow(v, inodes[f], t);
      CoreRemovable(v1, inodes[f := oi1], own1, data, f, if n < t then t else h, t);
    } else {
      var own1, m := GrowFails(v, inodes, own, data, f, h, t);
      var (v1, oi1, _) := Grow(v, inodes[f], t);
      var d := DanglesAt(m, HighAfter(n, h, m), |Free(v1)|);
      var insm := inodes[f := Mended(oi1, d)];
      CoreRemovable(v1, insm, own1, data, f, HighAfter(n, h, m), n);
      if d && n < m {
        MendsRemovable(v1, insm, own1, data, f, oi1);
      }
    }
  }

  lemma MendsRemovable(v: Vol, inodes: seq<Inode>, own: Owners, data: nat, f: nat, oi: Inode)
    requires f < |inodes| && Core(v, inodes, own, data) && Shape(v, inodes, f, 266)
    requires inodes[f] == oi.(indirect2 := 0) && Nb(oi) == 266
    requires oi.indirect2 in Free(v) && v.disk[oi.indirect2] == ZeroBlock()
    ensures CanRemove(v, oi) && OspfsSpec.RemoveBlock(v, oi) == OspfsSpec.RemoveBlock(v, inodes[f])
  {
    hide RemoveAt, A, At;
    RemoveMends(v, oi);
    RemoveNull(v, inodes, own, data, f, 266);
    CoreInRange(v, inodes, own, data, f, Ind);
    Ind2At(v.disk, inodes[f]);
    FreshSub(v.disk, oi, 0);
    DataViaSub(v.disk, oi, 266);
    assert Word(Blk(v.disk, 0), 0) == 0 by { ZeroNoWords(); }
  }

  class Ospfs {
    const firstinob: nat
    const freemap: array<bv32>
    const data: array<Block>
    const inodes: array<Inode>

    ghost predicate Valid()
      reads this
    {
      && data.Length <= MAXFILEBLKS && data.Length <= 32 * freemap.Length
      && (data as object) != (freemap as object) && (data as object) != (inodes as object)
      && (freemap as object) != (inodes as object)
    }

    ghost function FreeBits(): Bitmap
      reads this, freemap
      requires Valid()
    {
      seq(data.Length, i requires 0 <= i < data.Length reads this, freemap => i < 32 * freemap.Length
        && BitOn(freemap[i / 32], i % 32))
    }

    ghost function V(): Vol
      reads this, freemap, data
      requires Valid()
    {
      Vol(firstinob, FreeBits(), data[..])
    }

    ghost function Abs(): Fs
      reads this, freemap, data, inodes
      requires Valid()
    {
      Fs(V(), inodes[..])
    }

    method BitvectorSet(i: nat)
      requires Valid() && i < data.Length
      modifies freemap
      ensures FreeBits() == old(FreeBits())[i := true]
    {
      hide BitOn, SetOn;
      ghost var w := freemap[..];
      freemap[i / 32] := SetOn(freemap[i / 32], i % 32);
      assert freemap[..] == w[i / 32 := SetOn(w[i / 32], i % 32)];
      forall j | 0 <= j < data.Length
        ensures FreeBits()[j] == old(FreeBits())[i := true][j]
      {
        BitUpdate(w, i, j);
        assert freemap[j / 32] == freemap[..][j / 32];
      }
    }

    method BitvectorClear(i: nat)
      requires Valid() && i < data.Length
      modifies freemap
      ensures FreeBits() == old(FreeBits())[i := false]
    {
      hide BitOn, SetOff;
      ghost var w := freemap[..];
      freemap[i / 32] := SetOff(freemap[i / 32], i % 32);
      assert freemap[..] == w[i / 32 := SetOff(w[i / 32], i % 32)];
      forall j | 0 <= j < data.Length
        ensures FreeBits()[j] == old(FreeBits())[i := false][j]
      {
        BitUpdate(w, i, j);
        assert freemap[j / 32] == freemap[..][j / 32];
      }
    }

    method BitvectorTest(i: nat) returns (b: bool)
      requires Valid() && i < data.Length
      ensures b == FreeBits()[i]
    {
      b := BitOn(freemap[i / 32], i % 32);
    }

    /** allocate_block: the lowest free block from 2 on, or 0. */
    method AllocateBlock() returns (x: Word32)
      requires Valid()
      modifies freemap
      ensures x == FirstFree(old(FreeBits()), 2)
      ensures FreeBits() == if x == 0 then old(FreeBits()) else old(FreeBits())[x := false]
    {
      var i := 2;
      while i < data.Length
        invariant 2 <= i && FreeBits() == old(FreeBits())
        invariant FirstFree(FreeBits(), 2) == FirstFree(FreeBits(), i)
      {
        var free := BitvectorTest(i);
        if free {
          BitvectorClear(i);
          return i;
        }
        i := i + 1;
      }
      return 0;
    }

    method FreeBlock(p: nat)
      requires Valid() && p < data.Length
      modifies freemap
      ensures V() == OspfsSpec.FreeBlock(old(V()), p)
    {
      hide BitOn;
      if p < firstinob { return; }
      var free := BitvectorTest(p);
      if !free { BitvectorSet(p); } else { assert FreeBits()[p := true] == FreeBits(); }
      assert FreeBits() == old(FreeBits())[p := true];
    }

    /** allocate_block and zero_out_block together. */
    method NewZeroBlock() returns (x: Word32)
      requires Valid()
      modifies freemap, data
      ensures (V(), x) == NewBlock(old(V()))
    {
      x := AllocateBlock();
      if x != 0 {
        data[x] := ZeroBlock();
        assert FreeBits() == old(FreeBits())[x := false];
      }
    }

    /** `((uint32_t *) ospfs_block(p))[i] = w` */
    method WriteWord(p: nat, i: nat, w: Word32)
      requires Valid() && p < data.Length && i < NINDIRECT
      modifies data
      ensures data[..] == Poke(old(data[..]), p, i, w)
      ensures V() == old(V()).(disk := Poke(old(V()).disk, p, i, w))
    {
      data[p] := SetWord(data[p], i, w);
      assert FreeBits() == old(FreeBits());
    }

    /** copy_from_user into a block, which is taken to succeed */
    method CopyFromUser(p: nat, offset: nat, bytes: seq<Byte>)
      requires Valid() && p < data.Length && offset + |bytes| <= BLKSIZE
      modifies data
      ensures V() == old(V()).(disk := old(data[..])[p := Splice(old(data[p]), offset, bytes)])
    {
      data[p] := Splice(data[p], offset, bytes);
      assert FreeBits() == old(FreeBits());
    }

    /** add_block's branch for file blocks 10..265 */
    method AddMid(f: nat, n: nat, x: Word32) returns (ok: bool)
      requires Valid() && f < inodes.Length && 10 <= n < 266
      requires 0 < x < data.Length && inodes[f].indirect < data.Length
      modifies freemap, data, inodes
      ensures var (v, oi, r) := OspfsSpec.AddMid(old(V()), old(inodes[f]), n, x);
              V() == v && inodes[..] == old(inodes[..])[f := oi] && ok == r
    {
      hide BitOn, Word, SetWord, At, FirstFree;
      if inodes[f].indirect == 0 {
        var y := NewZeroBlock();
        if y == 0 {
          FreeBlock(x);
          assert inodes[..] == old(inodes[..])[f := old(inodes[f])];
          return false;
        }
        assert y < data.Length by { NewInRange(old(V())); }
        inodes[f] := inodes[f].(indirect := y);
      }
      WriteWord(inodes[f].indirect, DirectIndex(n), x);
      return true;
    }

    /** add_block's branch for file blocks 266 and up, once there is a doubly indirect block */
    method AddBelow(f: nat, n: nat, x: Word32, z: Word32) returns (ok: bool)
      requires Valid() && f < inodes.Length && 266 <= n < MAXFILEBLKS
      requires 0 < x < data.Length && inodes[f].indirect2 < data.Length && z < data.Length
      requires At(V().disk, inodes[f], Sub((n - 266) / 256)) < data.Length
      modifies freemap, data
      ensures var (v, oi, r) := OspfsSpec.AddBelow(old(V()), inodes[f], n, x, z);
              V() == v && inodes[f] == oi && ok == r
    {
      hide BitOn, Word, SetWord, FirstFree, At;
      SubIndex(n);
      var k: nat := IndirIndex(n);
      var oi := inodes[f];
      SubIsWord(V().disk, oi, k);
      var sub := Word(data[oi.indirect2], k);
      if sub == 0 {
        var y := NewZeroBlock();
        if y == 0 {
          FreeBlock(x);
          if z != 0 { FreeBlock(z); }
          return false;
        }
        assert y < data.Length by { NewInRange(old(V())); }
        HolderIs(V().disk, oi, n, y);
        WriteWord(oi.indirect2, k, y);
        WriteWord(y, DirectIndex(n), x);
      } else {
        WriteWord(sub, DirectIndex(n), x);
      }
      return true;
    }

    /** add_block */
    method AddBlock(f: nat) returns (ok: bool)
      requires Valid() && f < inodes.Length && CanAdd(V(), inodes[f])
      modifies freemap, data, inodes
      ensures var (v, oi, r) := OspfsSpec.AddBlock(old(V()), old(inodes[f]));
              V() == v && inodes[..] == old(inodes[..])[f := oi] && ok == r
    {
      hide BitOn, Word, SetWord, At, FirstFree, OspfsSpec.AddMid, OspfsSpec.AddBelow, OspfsSpec.FreeBlock;
      var n := Size2Nblocks(inodes[f].size);
      var x := NewZeroBlock();
      if x == 0 {
        assert inodes[..] == old(inodes[..])[f := old(inodes[f])];
        return false;
      }
      NewInRange(old(V()));
      if n < NDIRECT {
        inodes[f] := inodes[f].(direct := inodes[f].direct[n := x]);
      } else if n < NDIRECT + NINDIRECT {
        ok := AddMid(f, n, x);
        if !ok { return; }
      } else {
        var z := 0;
        if inodes[f].indirect2 == 0 {
          label L:
          z := NewZeroBlock();
          if z == 0 {
            FreeBlock(x);
            assert inodes[..] == old(inodes[..])[f := old(inodes[f])];
            return false;
          }
          NewInRange(old@L(V()));
          inodes[f] := inodes[f].(indirect2 := z);
          FreshSub(V().disk, inodes[f], (n - 266) / 256);
        }
        ok := AddBelow(f, n, x, z);
        if !ok { return; }
      }
      inodes[f] := inodes[f].(size := (inodes[f].size + BLKSIZE) % TWO32);
      return true;
    }

    /** remove_block's branch for file blocks 266 and up */
    method RemoveBelow(f: nat, n: nat)
      requires Valid() && f < inodes.Length && 266 <= n < MAXFILEBLKS
      requires inodes[f].indirect2 < data.Length && At(V().disk, inodes[f], Sub((n - 266) / 256)) < data.Length
      requires At(V().disk, inodes[f], Data(n)) < data.Length
      modifies freemap, data, inodes
      ensures var (v, oi) := RemoveAt(old(V()), old(inodes[f]), n);
              V() == v && inodes[..] == old(inodes[..])[f := oi]
    {
      hide BitOn, Word, SetWord, At, OspfsSpec.FreeBlock;
      SubIndex(n);
      var k: nat := IndirIndex(n);
      var oi := inodes[f];
      SubIsWord(V().disk, oi, k);
      var sub := Word(data[oi.indirect2], k);
      DataViaSub(V().disk, oi, n);
      FreeBlock(Word(data[sub], DirectIndex(n)));
      PokeWord(V().disk, sub, DirectIndex(n), 0, oi.indirect2, k);
      WriteWord(sub, DirectIndex(n), 0);
      if (n - NDIRECT) % NINDIRECT == 0 {
        SubIsWord(V().disk, oi, k);
        FreeBlock(Word(data[oi.indirect2], k));
        WriteWord(oi.indirect2, k, 0);
      }
      if n == NDIRECT + NINDIRECT {
        assert At(V().disk, oi, Ind2) == oi.indirect2 by { Ind2At(V().disk, oi); }
        FreeBlock(oi.indirect2);
        inodes[f] := oi.(indirect2 := 0);
      }
      assert inodes[..] == old(inodes[..])[f := inodes[f]];
    }

    /** remove_block; false stands for -EIO */
    method RemoveBlock(f: nat) returns (ok: bool)
      requires Valid() && f < inodes.Length && (Nb(inodes[f]) > 0 ==> CanRemove(V(), inodes[f]))
      modifies freemap, data, inodes
      ensures ok == (Nb(old(inodes[f])) > 0)
      ensures ok ==> var (v, oi) := OspfsSpec.RemoveBlock(old(V()), old(inodes[f]));
                     V() == v && inodes[..] == old(inodes[..])[f := oi]
      ensures !ok ==> V() == old(V()) && inodes[..] == old(inodes[..])
    {
      hide BitOn, Word, SetWord, At, OspfsSpec.FreeBlock;
      var n := Size2Nblocks(inodes[f].size);
      if n <= 0 { return false; }
      if Indir2Index(n) == -1 {
        if IndirIndex(n) == -1 {
          assert At(V().disk, inodes[f], Data(n)) == inodes[f].direct[n] by { DirectAt(V().disk, inodes[f], n); }
          FreeBlock(inodes[f].direct[n]);
          inodes[f] := inodes[f].(direct := inodes[f].direct[n := 0]);
        } else {
          assert At(V().disk, inodes[f], Data(n)) == Word(data[inodes[f].indirect], DirectIndex(n)) by {
            MidAt(V().disk, inodes[f], n);
          }
          FreeBlock(Word(data[inodes[f].indirect], DirectIndex(n)));
          WriteWord(inodes[f].indirect, DirectIndex(n), 0);
          if n == NDIRECT {
            assert At(V().disk, inodes[f], Ind) == inodes[f].indirect by { Ind2At(V().disk, inodes[f]); }
            FreeBlock(inodes[f].indirect);
            inodes[f] := inodes[f].(indirect := 0);
          }
        }
      } else {
        RemoveBelow(f, n);
      }
      inodes[f] := inodes[f].(size := (inodes[f].size + TWO32 - BLKSIZE) % TWO32);
      return true;
    }

    /** change_size */
    method ChangeSize(f: nat, newSize: Word32) returns (r: Status)
      requires Valid() && f < inodes.Length && Inv(Abs())
      modifies freemap, data, inodes
      ensures (Abs(), r) == Resize(old(Abs()), f, newSize)
    {
      hide CanAdd, CanRemove, Inv, OspfsSpec.AddBlock, OspfsSpec.RemoveBlock, Grow, Shrink, Resize,
        OspfsSpec.ChangeSize;
      var oldSize := inodes[f].size;
      ghost var fs0, oi0, t := Abs(), inodes[f], Size2Nblocks(newSize);
      NblocksStep(newSize);
      LoopsInRange(fs0, f, t);
      while Size2Nblocks(inodes[f].size) < Size2Nblocks(newSize)
        invariant inodes[..] == fs0.inodes[f := inodes[f]]
        invariant Grow(V(), inodes[f], t) == Grow(fs0.vol, oi0, t)
        invariant AllAddable(V(), inodes[f], t)
        decreases Size2Nblocks(newSize) - Nb(inodes[f])
      {
        AddBlockIs(V(), inodes[f]) by { CanAddBound(V(), inodes[f]); }
        GrowUnfold(V(), inodes[f], t);
        var ok := AddBlock(f);
        if !ok {
          ghost var v1, oi1 := V(), inodes[f];
          while Size2Nblocks(inodes[f].size) > Size2Nblocks(oldSize)
            invariant inodes[..] == fs0.inodes[f := inodes[f]]
            invariant Shrink(V(), inodes[f], Nb(oi0)) == Shrink(v1, oi1, Nb(oi0))
            invariant AllRemovable(V(), inodes[f], Nb(oi0))
            decreases Nb(inodes[f])
          {
            RemoveBlockIs(V(), inodes[f]) by { CanRemoveBound(V(), inodes[f]); }
            ShrinkUnfold(V(), inodes[f], Nb(oi0));
            var _ := RemoveBlock(f);
          }
          ShrinkUnfold(V(), inodes[f], Nb(oi0));
          ResizeFails(fs0, f, newSize, v1, oi1, V(), inodes[f]);
          ghost var last := fs0.inodes[f := inodes[f].(size := oldSize)];
          inodes[f] := inodes[f].(size := oldSize);
          assert inodes[..] == last;
          return ENOSPC;
        }
      }
      GrowUnfold(V(), inodes[f], t);
      ghost var v1, oi1 := V(), inodes[f];
      while Size2Nblocks(inodes[f].size) > Size2Nblocks(newSize)
        invariant inodes[..] == fs0.inodes[f := inodes[f]]
        invariant Shrink(V(), inodes[f], t) == Shrink(v1, oi1, t)
        invariant AllRemovable(V(), inodes[f], t)
        decreases Nb(inodes[f])
      {
        RemoveBlockIs(V(), inodes[f]) by { CanRemoveBound(V(), inodes[f]); }
        ShrinkUnfold(V(), inodes[f], t);
        var ok := RemoveBlock(f);
      }
      ShrinkUnfold(V(), inodes[f], t);
      ResizeSucceeds(fs0, f, newSize, v1, oi1, V(), inodes[f]);
      ghost var last := fs0.inodes[f := inodes[f].(size := newSize)];
      inodes[f] := inodes[f].(size := newSize);
      assert inodes[..] == last;
      return OK;
    }

    /** ospfs_inode_blockno */
    method InodeBlockno(f: nat, offset: Word32) returns (b: Word32)
      requires Valid() && f < inodes.Length && Inv(Abs())
      ensures if offset < inodes[f].size then offset / BLKSIZE < MAXFILEBLKS else b == 0
      ensures b == OspfsDisk.InodeBlockno(V().disk, inodes[f], offset)
    {
      hide BitOn, Word, At, Core, Inv;
      var oi := inodes[f];
      InvSize(Abs(), f);
      if offset >= oi.size || oi.ftype == FTYPE_SYMLINK { return 0; }
      var blockno := offset / BLKSIZE;
      InBlock(offset, Nb(oi));
      if blockno >= NDIRECT + NINDIRECT {
        var blockoff := blockno - (NDIRECT + NINDIRECT);
        RolesInRange(Abs(), f, Sub(blockoff / NINDIRECT));
        RolesInRange(Abs(), f, Ind2);
        Ind2At(V().disk, oi);
        SubIsWord(V().disk, oi, blockoff / NINDIRECT);
        DataViaSub(V().disk, oi, blockno);
        b := Word(data[Word(data[oi.indirect2], blockoff / NINDIRECT)], blockoff % NINDIRECT);
      } else if blockno >= NDIRECT {
        RolesInRange(Abs(), f, Ind);
        Ind2At(V().disk, oi);
        MidAt(V().disk, oi, blockno);
        b := Word(data[oi.indirect], blockno - NDIRECT);
      } else {
        DirectAt(V().disk, oi, blockno);
        b := oi.direct[blockno];
      }
    }

    /** ospfs_read; count and pos are below 2^31, as the VFS guarantees.  `copied` is
        what reaches the user's buffer. */
    method Read(f: nat, count: nat, pos: nat) returns (retval: int, fpos: nat, copied: seq<Byte>)
      requires Valid() && f < inodes.Length && Inv(Abs()) && inodes[f].ftype != FTYPE_SYMLINK
      requires count < 0x8000_0000 && pos < 0x8000_0000
      ensures SizeFits(inodes[f])
      ensures pos <= inodes[f].size ==>
                && retval == (if count + pos > inodes[f].size then inodes[f].size - pos else count)
                && fpos == pos + retval && copied == Contents(Abs(), f)[pos..fpos]
      ensures pos > inodes[f].size ==> retval == -EIO && fpos == pos && copied == []
    {
      hide BitOn, Inv, OspfsDisk.At, A, FileByte, Contents, OspfsDisk.InodeBlockno, FreeBits, Blk, Size2Nblocks;
      ghost var fs := Abs();
      InvSize(fs, f);
      var oi := inodes[f];
      fpos, copied := pos, [];
      var amount, left := 0, count;
      if count + pos > oi.size { left := (oi.size + TWO32 - pos) % TWO32; }
      while amount < left
        invariant fpos == pos + amount && amount <= left
        invariant pos > oi.size ==> copied == [] && amount == 0
        invariant pos <= oi.size ==> copied == Contents(fs, f)[pos..fpos]
      {
        var blockno := InodeBlockno(f, fpos);
        if blockno == 0 {
          if pos <= oi.size { FileBlockNotNull(fs, f, fpos); assert false; }
          return -EIO, fpos, copied;
        }
        var offset := fpos % BLKSIZE;
        var n := if left - amount > BLKSIZE - offset then BLKSIZE - offset else left - amount;
        FileBlockBytes(fs, f, fpos, n);
        BlocknoIs(fs.vol.disk, oi, fpos);
        SliceJoin(Contents(fs, f), pos, fpos, fpos + n);
        copied := copied + data[blockno][offset..offset + n];
        amount := amount + n;
        fpos := fpos + n;
      }
      retval := amount;
    }

    /** ospfs_write of the user's bytes; the size it asks for must not wrap when rounded
        up to blocks. */
    method Write(f: nat, bytes: seq<Byte>, pos: nat, append: bool) returns (retval: int, fpos: nat)
      requires Valid() && f < inodes.Length && Inv(Abs()) && inodes[f].ftype != FTYPE_SYMLINK
      requires pos + |bytes| <= TWO32 - BLKSIZE && inodes[f].size + |bytes| <= TWO32 - BLKSIZE
      modifies freemap, data, inodes
      ensures WriteResult(old(Abs()), f, bytes, pos, append, Abs(), retval, fpos)
    {
      hide BitOn, Inv, OspfsDisk.At, FileByte, OspfsDisk.InodeBlockno, FreeBits, Blk, Resize, Wrote, SafeCall, InvW;
      var count := |bytes|;
      fpos := if append then inodes[f].size else pos;
      ghost var fs0, p := Abs(), fpos;
      if count > inodes[f].size - fpos {
        var r := ChangeSize(f, count + fpos);
        if r == ENOSPC { return -ENOSPC_CODE, fpos; }
        OkSafe(fs0, f, p + count);
        ResizeKeepsInv(fs0, f, p + count);
        ResizedSize(fs0, f, p + count);
      }
      ghost var fs1 := Abs();
      retval, fpos := WriteBlocks(f, bytes, fpos);
    }

    /** The copying loop of ospfs_write, once the file is long enough. */
    method WriteBlocks(f: nat, bytes: seq<Byte>, p: nat) returns (retval: int, fpos: nat)
      requires Valid() && f < inodes.Length && Inv(Abs()) && inodes[f].ftype != FTYPE_SYMLINK
      requires |bytes| > 0 ==> p + |bytes| <= inodes[f].size
      modifies data
      ensures retval == |bytes| && fpos == p + |bytes|
      ensures Inv(Abs()) && Wrote(old(Abs()), Abs(), f, p, bytes)
    {
      hide BitOn, Inv, OspfsDisk.At, FileByte, OspfsDisk.InodeBlockno, FreeBits, Blk, Wrote, InvW;
      ghost var fs1, own, oi := Abs(), OwnersOf(Abs()), inodes[f];
      InvSize(fs1, f);
      WroteNothing(fs1, f, p);
      assert bytes[..0] == [];
      var count, amount := |bytes|, 0;
      fpos := p;
      while amount < count
        invariant amount <= count && fpos == p + amount && FreeBits() == fs1.vol.free
        invariant InvW(Abs(), own) && Wrote(fs1, Abs(), f, p, bytes[..amount])
      {
        InvFrom(Abs(), own);
        var blockno := InodeBlockno(f, fpos);
        FileBlockNotNull(Abs(), f, fpos);
        BlocknoIs(V().disk, oi, fpos);
        if blockno == 0 { return -EIO, fpos; }
        var offset := fpos % BLKSIZE;
        var n := BLKSIZE - offset;
        if n > count - amount { n := count - amount; }
        ghost var fs := Abs();
        assert blockno < data.Length by { RolesInRange(fs, f, Data(fpos / BLKSIZE)); }
        CopyFromUser(blockno, offset, bytes[amount..amount + n]);
        BlockCopied(fs1, fs, Abs(), own, f, p, bytes, amount, n);
        amount := amount + n;
        fpos := fpos + n;
      }
      InvFrom(Abs(), own);
      assert bytes[..count] == bytes;
      retval := amount;
    }
  }

  /** What ospfs_write does: with O_APPEND it starts at the end; if the range reaches
      past the end, or starts there, the file is resized first; a failed resize is the
      whole effect, otherwise exactly the bytes of the range are replaced. */
  ghost predicate WriteResult(fs: Fs, f: nat, bytes: seq<Byte>, pos: nat, append: bool, fs': Fs, retval: int, fpos: nat)
    requires f < |fs.inodes| && pos + |bytes| < TWO32 && fs.inodes[f].size + |bytes| < TWO32
  {
    var p := if append then fs.inodes[f].size else pos;
    var (fs1, r) := if |bytes| > fs.inodes[f].size - p then Resize(fs, f, p + |bytes|) else (fs, OK);
    && (r == ENOSPC ==> retval == -ENOSPC_CODE && fpos == p && fs' == fs1)
    && (r == OK ==> retval == |bytes| && fpos == p + |bytes| && Inv(fs') && Wrote(fs1, fs', f, p, bytes))
  }

  ghost function OwnersOf(fs: Fs): (own: Owners)
    requires Inv(fs)
    ensures InvW(fs, own)
  {
    var own :| InvW(fs, own);
    own
  }

  lemma InvFrom(fs: Fs, own: Owners)
    requires InvW(fs, own)
    ensures Inv(fs)
  {
  }

  lemma ResizedSize(fs: Fs, f: nat, want: Word32)
    requires f < |fs.inodes| && Resize(fs, f, want).1 == OK && Inv(fs) && SafeCall(fs, f, want)
    ensures Resize(fs, f, want).0.inodes[f].size == want
    ensures Resize(fs, f, want).0.inodes[f].ftype == fs.inodes[f].ftype
  {
    hide ChangeSize;
    ResizeEffect(fs, f, want);
    var own :| InvW(fs, own);
    var own' := LoopsEffect(fs, own, f, want);
  }

  /** One turn of the loop of ospfs_write. */
  lemma BlockCopied(fs1: Fs, fs: Fs, fs': Fs, own: Owners, f: nat, p: nat, all: seq<Byte>, amount: nat, n: nat)
    requires InvW(fs, own) && f < |fs.inodes| && amount + n <= |all| && Wrote(fs1, fs, f, p, all[..amount])
    requires (p + amount) / BLKSIZE < Nb(fs.inodes[f]) < MAXFILEBLKS && (p + amount) % BLKSIZE + n <= BLKSIZE
    requires fs'.inodes == fs.inodes && fs'.vol.first == fs.vol.first && fs'.vol.free == fs.vol.free
    requires At(fs.vol.disk, fs.inodes[f], Data((p + amount) / BLKSIZE)) < |fs.vol.disk|
    requires var q := At(fs.vol.disk, fs.inodes[f], Data((p + amount) / BLKSIZE));
             fs'.vol.disk == fs.vol.disk[q := Splice(fs.vol.disk[q], (p + amount) % BLKSIZE, all[amount..amount + n])]
    ensures InvW(fs', own) && Wrote(fs1, fs', f, p, all[..amount + n])
  {
    hide At, InvW, Wrote;
    WroteStep(fs1, fs, own, f, p, all[..amount], all[amount..amount + n]);
    assert fs' == WithBytes(fs, f, p + amount, all[amount..amount + n]);
    assert all[..amount] + all[amount..amount + n] == all[..amount + n];
  }

  lemma SliceJoin(s: seq<Byte>, a: nat, b: nat, c: nat)
    requires a <= b <= c <= |s|
    ensures s[a..c] == s[a..b] + s[b..c]
  {
  }

  lemma RolesInRange(fs: Fs, f: nat, r: Role)
    requires Inv(fs) && f < |fs.inodes| && IsRole(r)
    ensures At(fs.vol.disk, fs.inodes[f], r) < |fs.vol.disk|
  {
    hide At;
    var own :| InvW(fs, own);
    CoreInRange(fs.vol, fs.inodes, own, DataStart(fs), f, r);
  }

  lemma BlocknoIs(disk: seq<Block>, oi: Inode, i: Word32)
    requires i < oi.size && i / BLKSIZE < MAXFILEBLKS && oi.ftype != FTYPE_SYMLINK
    ensures OspfsDisk.InodeBlockno(disk, oi, i) == At(disk, oi, Data(i / BLKSIZE))
  {
  }

  /** Inside a file there is a block for every byte. */
  lemma FileBlockNotNull(fs: Fs, f: nat, i: Word32)
    requires Inv(fs) && f < |fs.inodes| && i < fs.inodes[f].size && fs.inodes[f].ftype != FTYPE_SYMLINK
    ensures i / BLKSIZE < Nb(fs.inodes[f]) < MAXFILEBLKS
    ensures OspfsDisk.InodeBlockno(fs.vol.disk, fs.inodes[f], i) != 0
  {
    var own :| InvW(fs, own);
    assert SizeFits(fs.inodes[f]);
    InBlock(i, Nb(fs.inodes[f]));
    BelowHigh(fs, own, f, i / BLKSIZE);
  }

  /** A run of bytes inside one file block is a run of bytes of one disk block. */
  lemma FileBlockBytes(fs: Fs, f: nat, i: nat, n: nat)
    requires Inv(fs) && f < |fs.inodes| && SizeFits(fs.inodes[f]) && i + n <= fs.inodes[f].size && n > 0
    requires i % BLKSIZE + n <= BLKSIZE
    ensures i / BLKSIZE < MAXFILEBLKS
    ensures var q := At(fs.vol.disk, fs.inodes[f], Data(i / BLKSIZE));
            q < |fs.vol.disk| && Contents(fs, f)[i..i + n] == fs.vol.disk[q][i % BLKSIZE..i % BLKSIZE + n]
  {
    hide At, Inv;
    InBlock(i, Nb(fs.inodes[f]));
    RolesInRange(fs, f, Data(i / BLKSIZE));
    var s, t := Contents(fs, f)[i..i + n],
      fs.vol.disk[At(fs.vol.disk, fs.inodes[f], Data(i / BLKSIZE))][i % BLKSIZE..i % BLKSIZE + n];
    forall k | 0 <= k < n
      ensures s[k] == t[k]
    {
      SameBlock(i, k);
      InBlock(i + k, Nb(fs.inodes[f]));
    }
  }

  lemma SameBlock(i: nat, k: nat)
    requires i % BLKSIZE + k < BLKSIZE
    ensures (i + k) / BLKSIZE == i / BLKSIZE && (i + k) % BLKSIZE == i % BLKSIZE + k
  {
    assert i == BLKSIZE * (i / BLKSIZE) + i % BLKSIZE;
  }

  lemma GrowUnfold(v: Vol, oi: Inode, t: nat)
    requires t <= 4194303
    ensures var (v1, oi1, ok) := OspfsSpec.AddBlock(v, oi);
            Grow(v, oi, t) == if Nb(oi) >= t then (v, oi, true) else if !ok then (v1, oi1, false) else Grow(v1, oi1, t)
  {
    hide OspfsSpec.AddBlock;
  }

  lemma ShrinkUnfold(v: Vol, oi: Inode, t: nat)
    ensures var (v1, oi1) := OspfsSpec.RemoveBlock(v, oi);
            Shrink(v, oi, t) == if Nb(oi) <= t then (v, oi) else Shrink(v1, oi1, t)
  {
    hide OspfsSpec.RemoveBlock;
  }

  lemma ResizeFails(fs: Fs, f: nat, want: Word32, v1: Vol, oi1: Inode, v2: Vol, oi2: Inode)
    requires f < |fs.inodes| && Size2Nblocks(want) <= 4194303
    requires Grow(fs.vol, fs.inodes[f], Size2Nblocks(want)) == (v1, oi1, false)
    requires Shrink(v1, oi1, Nb(fs.inodes[f])) == (v2, oi2)
    ensures Resize(fs, f, want) == (Fs(v2, fs.inodes[f := oi2.(size := fs.inodes[f].size)]), ENOSPC)
  {
    hide Grow, Shrink;
  }

  lemma ResizeSucceeds(fs: Fs, f: nat, want: Word32, v1: Vol, oi1: Inode, v2: Vol, oi2: Inode)
    requires f < |fs.inodes| && Size2Nblocks(want) <= 4194303
    requires Grow(fs.vol, fs.inodes[f], Size2Nblocks(want)) == (v1, oi1, true)
    requires Shrink(v1, oi1, Size2Nblocks(want)) == (v2, oi2)
    ensures Resize(fs, f, want) == (Fs(v2, fs.inodes[f := oi2.(size := want)]), OK)
  {
    hide Grow, Shrink;
  }

  lemma CanAddBound(v: Vol, oi: Inode)
    requires CanAdd(v, oi)
    ensures Nb(oi) < MAXFILEBLKS
  {
  }

  lemma CanRemoveBound(v: Vol, oi: Inode)
    requires CanRemove(v, oi)
    ensures 0 < Nb(oi) < MAXFILEBLKS
  {
  }

  lemma DirectAt(disk: seq<Block>, oi: Inode, n: nat)
    requires n < 10
    ensures At(disk, oi, Data(n)) == oi.direct[n]
  {
  }

  lemma MidAt(disk: seq<Block>, oi: Inode, n: nat)
    requires 10 <= n < 266 && oi.indirect < |disk|
    ensures At(disk, oi, Data(n)) == Word(disk[oi.indirect], DirectIndex(n))
  {
  }

  lemma NewInRange(v: Vol)
    ensures NewBlock(v).1 < |v.free| || NewBlock(v).1 == 0
    ensures |NewBlock(v).0.disk| == |v.disk| && |NewBlock(v).0.free| == |v.free|
    ensures NewBlock(v).1 != 0 && |v.disk| == |v.free| ==> NewBlock(v).0.disk[NewBlock(v).1] == ZeroBlock()
  {
  }

  lemma FreshSub(disk: seq<Block>, oi: Inode, k: nat)
    requires k < 256 && oi.indirect2 < |disk| && disk[oi.indirect2] == ZeroBlock()
    ensures At(disk, oi, Sub(k)) == 0
  {
    hide Word;
    ZeroNoWords();
  }
}
