/** The formatter in place: storeblk, the data loop of writefile and finishfs over the
    block cache.  The inode table and the free map are arrays of their own. */
module FormatDisk {
  import opened Options
  import opened OspfsDisk
  import opened OspfsTree
  import opened OspfsSpec
  import opened OspfsInv
  import opened OspfsBlocks
  import opened OspfsResize
  import opened OspfsBits
  import opened OspfsChangeSize
  import opened FormatImage
  import opened FormatRuns
  import C = FormatCache

  // Block types.
  const BLOCK_DIR: nat := 1
  const BLOCK_FILE: nat := 2
  const BLOCK_BITS: nat := 3

  /** Room in the cache for what storeblk holds at once: two idle slots, and no index
      block held as a block of another type. */
  ghost predicate OneIdle(ss: seq<C.Slot>) { exists i :: 0 <= i < |ss| && ss[i].busy == 0 }

  ghost predicate TwoIdle(ss: seq<C.Slot>) { exists i, j :: 0 <= i < j < |ss| && ss[i].busy == 0 && ss[j].busy == 0 }

  ghost predicate NoClash(ss: seq<C.Slot>, d: seq<Block>, oi: Inode, nextb: nat) {
    forall i | 0 <= i < |ss| && ss[i].busy > 0 && IndexOf(d, oi, nextb, ss[i].bno) :: ss[i].typ == BLOCK_BITS
  }

  ghost predicate IndexOf(d: seq<Block>, oi: Inode, nextb: nat, p: nat) {
    || p == oi.indirect || p == oi.indirect2 || p >= nextb
    || exists k :: 0 <= k < NINDIRECT && p == At(d, oi, Sub(k))
  }

  /** Busy slots keep their blocks. */
  ghost predicate Kept(ss: seq<C.Slot>, ss': seq<C.Slot>) {
    |ss'| == |ss| && forall i | 0 <= i < |ss| && ss[i].busy > 0 :: ss'[i].bno == ss[i].bno && ss'[i].typ == ss[i].typ
  }

  /** So they do over a call that puts back what it gets. */
  ghost predicate Balanced(ss: seq<C.Slot>, ss': seq<C.Slot>) {
    Kept(ss, ss') && forall i | 0 <= i < |ss| :: ss'[i].busy == ss[i].busy
  }

  ghost predicate PutBack(ss: seq<C.Slot>, ss': seq<C.Slot>, r: nat) {
    && r < |ss| && Kept(ss, ss') && ss'[r].busy == ss[r].busy - 1
    && forall i | 0 <= i < |ss| && i != r :: ss'[i].busy == ss[i].busy
  }

  lemma BackInBalance(ss: seq<C.Slot>, ss1: seq<C.Slot>, ss2: seq<C.Slot>, r: nat)
    requires r < |ss| && Kept(ss, ss1) && ss1[r].busy == ss[r].busy + 1 && PutBack(ss1, ss2, r)
    requires forall i | 0 <= i < |ss| && i != r :: ss1[i] == ss[i]
    ensures Balanced(ss, ss2)
  {
  }

  lemma IdleAfter(ss: seq<C.Slot>, ss': seq<C.Slot>, r: nat)
    requires TwoIdle(ss) && |ss'| == |ss| && forall i | 0 <= i < |ss| && i != r :: ss'[i] == ss[i]
    ensures OneIdle(ss')
  {
    var i, j :| 0 <= i < j < |ss| && ss[i].busy == 0 && ss[j].busy == 0;
    var k := if i == r then j else i;
    assert ss'[k].busy == 0;
  }

  lemma TwoIsOne(ss: seq<C.Slot>)
    requires TwoIdle(ss)
    ensures OneIdle(ss)
  {
  }

  lemma ClashAfterTake(ss: seq<C.Slot>, ss': seq<C.Slot>, r: nat, d: seq<Block>, oi: Inode, nextb: nat)
    requires NoClash(ss, d, oi, nextb) && |ss'| == |ss| && r < |ss| && 0 < nextb < |d| <= MAXBLOCKS
    requires (forall i | 0 <= i < |ss| && i != r :: ss'[i] == ss[i]) && ss'[r].typ == BLOCK_BITS
    requires forall i | 0 <= i < |ss| && ss[i].busy > 0 :: ss[i].bno != 0
    ensures NoClash(ss', d[nextb := ZeroBlock()], oi.(indirect2 := nextb), nextb + 1)
  {
    ZeroNoWords();
    var d', oi' := d[nextb := ZeroBlock()], oi.(indirect2 := nextb);
    assert forall k | 0 <= k < NINDIRECT :: At(d', oi', Sub(k)) == 0;
    hide At;
    forall p: nat | p != 0 && IndexOf(d', oi', nextb + 1, p) ensures IndexOf(d, oi, nextb, p) {
    }
  }

  lemma ClashAfterGet(ss: seq<C.Slot>, ss': seq<C.Slot>, r: nat, d: seq<Block>, oi: Inode, nextb: nat)
    requires NoClash(ss, d, oi, nextb) && |ss'| == |ss| && r < |ss|
    requires (forall i | 0 <= i < |ss| && i != r :: ss'[i] == ss[i]) && ss'[r].typ == BLOCK_BITS
    ensures NoClash(ss', d, oi, nextb)
  {
    hide At, IndexOf;
  }

  /** What room in the cache means for the getblk calls of storeblk. */
  lemma Easy(ss: seq<C.Slot>, d: seq<Block>, oi: Inode, nextb: nat)
    ensures TwoIdle(ss) ==> OneIdle(ss) && exists i :: 0 <= i < |ss| && ss[i].busy == 0
    ensures NoClash(ss, d, oi, nextb) ==>
              forall i | 0 <= i < |ss| && ss[i].busy > 0
                && (ss[i].bno == oi.indirect || ss[i].bno == oi.indirect2 || ss[i].bno >= nextb) ::
                ss[i].typ == BLOCK_BITS
  {
    hide At;
    if TwoIdle(ss) { TwoIsOne(ss); }
  }

  lemma EasyOne(ss: seq<C.Slot>, d: seq<Block>, oi: Inode, nextb: nat, k: nat)
    requires k < NINDIRECT
    ensures OneIdle(ss) ==> exists i :: 0 <= i < |ss| && ss[i].busy == 0
    ensures NoClash(ss, d, oi, nextb) ==>
              forall i | 0 <= i < |ss| && ss[i].busy > 0 && (ss[i].bno == At(d, oi, Sub(k)) || ss[i].bno >= nextb) ::
                ss[i].typ == BLOCK_BITS
  {
    hide At;
  }

  lemma DeepNone(d: seq<Block>, oi: Inode, nextb: nat, b: Word32, off: nat)
    requires nextb < TWO32 && off < 0x1_0000 && oi.indirect2 >= |d|
    ensures StoreDeep(d, oi, nextb, b, off).None?
  {
  }

  class Formatter {
    const cache: C.Cache
    const inodes: array<Inode>
    const bits: array<bv32>
    const first: nat
    var nextb: nat
    ghost var files: seq<seq<Stored>>

    ghost predicate Valid()
      reads this, cache, cache.slots
    {
      cache.Valid() && 2 <= nextb < TWO32 && |cache.vol| <= MAXBLOCKS
    }

    ghost function Now(): Image
      reads this, cache, inodes
    {
      Image(first, cache.vol, nextb, inodes[..], files)
    }

    /** opendisk on a disk with room for its inode blocks. */
    constructor (nblocks: nat, ninodes: nat)
      requires nblocks <= MAXBLOCKS && Opened(nblocks, ninodes).nextb <= nblocks
      ensures Valid() && Now() == Opened(nblocks, ninodes)
      ensures fresh(cache) && fresh(cache.slots) && fresh(inodes) && fresh(bits)
        && {inodes as object, cache.slots} !! {bits as object}
      ensures forall i | 0 <= i < cache.slots.Length :: cache.slots[i].busy == 0
      ensures bits.Length == (nblocks + 8191) / 8192 * 256 && forall i | 0 <= i < bits.Length :: bits[i] == 0xFFFF_FFFF
    {
      cache := new C.Cache(nblocks);
      inodes := new Inode[ninodes](_ => Inode(0, FTYPE_REG, 0, seq(10, _ => 0), 0, 0));
      bits := new bv32[(nblocks + 8191) / 8192 * 256](_ => 0xFFFF_FFFF);
      first := 2 + (nblocks + 8191) / 8192;
      nextb := 2 + (nblocks + 8191) / 8192 + (ninodes + 15) / 16;
      files := seq(ninodes, _ => []);
    }

    /** One word of the block in slot r. */
    method SetEntry(r: nat, i: nat, w: Word32)
      requires cache.Valid() && r < C.NSLOTS && cache.slots[r].busy > 0 && i < NINDIRECT
      modifies cache`vol, cache.slots
      ensures cache.Valid() && Some(cache.vol) == PutWord(old(cache.vol), cache.slots[r].bno, i, w)
      ensures cache.slots[r] == old(cache.slots[r]).(data := cache.slots[r].data)
      ensures forall j | 0 <= j < C.NSLOTS && j != r :: cache.slots[j] == old(cache.slots[j])
    {
      cache.HeldData(r);
      hide SetWord;
      cache.Write(r, SetWord(cache.slots[r].data, i, w));
    }

    /** getblk(nextb++, 1, BLOCK_BITS) */
    method TakeIndex() returns (r: int)
      requires Valid()
      modifies this`nextb, cache, cache.slots
      ensures r == -1 || 0 <= r < C.NSLOTS
      ensures r == -1 ==> TakeZeroed(old(cache.vol), old(nextb)).None? || !old(OneIdle(cache.slots[..]))
                          || exists i :: 0 <= i < C.NSLOTS && old(cache.slots[i].bno == nextb && cache.slots[i].busy > 0
                               && cache.slots[i].typ != BLOCK_BITS)
      ensures r >= 0 ==> cache.slots[r].typ == BLOCK_BITS
      ensures r >= 0 ==> forall i | 0 <= i < C.NSLOTS && i != r :: cache.slots[i] == old(cache.slots[i])
      ensures r >= 0 ==> Valid() && TakeZeroed(old(cache.vol), old(nextb)) == Some(cache.vol) && nextb == old(nextb) + 1
      ensures r >= 0 ==> cache.slots[r].bno == old(nextb)
      ensures r >= 0 ==> cache.slots[r].busy == old(cache.slots[r].busy) + 1
      ensures r >= 0 ==> Kept(old(cache.slots[..]), cache.slots[..])
    {
      hide C.Chosen, C.Sound;
      r := cache.GetBlk(nextb, true, BLOCK_BITS);
      nextb := nextb + 1;
    }

    /** storeblk; not done where the program aborts. */
    method StoreBlock(f: nat, b: Word32, nblk: nat) returns (done: bool)
      requires Valid() && f < inodes.Length
      modifies this`nextb, inodes, cache, cache.slots
      ensures done ==>
        StoreBlk(old(cache.vol), old(inodes[f]), old(nextb), b, nblk) ==
        Some(Store(cache.vol, inodes[f], nextb))
      ensures done ==> Valid() && inodes[..] == old(inodes[..])[f := inodes[f]]
      ensures done ==> Balanced(old(cache.slots[..]), cache.slots[..])
      ensures !done ==> StoreBlk(old(cache.vol), old(inodes[f]), old(nextb), b, nblk).None?
                        || !old(TwoIdle(cache.slots[..]) && NoClash(cache.slots[..], cache.vol, inodes[f], nextb))
    {
      hide C.Chosen, C.Sound, SetWord, Word, ZeroBlock;
      var oi := inodes[f];
      Easy(cache.slots[..], cache.vol, oi, nextb);
      hide TwoIdle, OneIdle, NoClash;
      if nblk < NDIRECT {
        inodes[f] := oi.(direct := oi.direct[nblk := b]);
        return true;
      } else if nblk < NDIRECT + NINDIRECT {
        var r: int;
        if oi.indirect == 0 {
          r := TakeIndex();
          if r == -1 { return false; }
          inodes[f] := oi.(indirect := cache.slots[r].bno);
        } else {
          r := cache.GetBlk(oi.indirect, false, BLOCK_BITS);
          if r == -1 { return false; }
        }
        SetEntry(r, nblk - NDIRECT, b);
        cache.PutBlk(r);
        return true;
      } else if nblk < MAXFILEBLKS {
        done := StoreDeepBlock(f, b, nblk - (NDIRECT + NINDIRECT));
      } else {
        return false;
      }
    }

    method StoreDeepBlock(f: nat, b: Word32, off: nat) returns (done: bool)
      requires Valid() && f < inodes.Length && off < 0x1_0000
      modifies this`nextb, inodes, cache, cache.slots
      ensures done ==>
        StoreBlk(old(cache.vol), old(inodes[f]), old(nextb), b, 266 + off) ==
        Some(Store(cache.vol, inodes[f], nextb))
      ensures done ==> Valid() && inodes[..] == old(inodes[..])[f := inodes[f]]
      ensures done ==> Balanced(old(cache.slots[..]), cache.slots[..])
      ensures !done ==> StoreBlk(old(cache.vol), old(inodes[f]), old(nextb), b, 266 + off).None?
                        || !old(TwoIdle(cache.slots[..]) && NoClash(cache.slots[..], cache.vol, inodes[f], nextb))
    {
      hide C.Chosen, C.Sound, SetWord, Word, ZeroBlock, StoreDeep;
      hide TwoIdle, OneIdle, NoClash;
      var oi := inodes[f];
      var r2: int;
      ghost var ss, d, easy := cache.slots[..], cache.vol, TwoIdle(cache.slots[..])
        && NoClash(cache.slots[..], cache.vol, oi, nextb);
      Easy(ss, d, oi, nextb);
      cache.BusyNotZero();
      if oi.indirect2 >= |d| { DeepNone(d, oi, nextb, b, off); }
      if oi.indirect2 == 0 {
        r2 := TakeIndex();
        if r2 == -1 { return false; }
        inodes[f] := oi.(indirect2 := cache.slots[r2].bno);
        if easy { ClashAfterTake(ss, cache.slots[..], r2, d, oi, old(nextb)); }
      } else {
        r2 := cache.GetBlk(oi.indirect2, false, BLOCK_BITS);
        if r2 == -1 { return false; }
        if easy { ClashAfterGet(ss, cache.slots[..], r2, d, oi, nextb); }
      }
      if easy { IdleAfter(ss, cache.slots[..], r2); }
      done := StoreBelow(inodes[f], r2, b, off);
    }

    /** The rest of storeblk, with the doubly indirect block in slot r2. */
    method StoreBelow(oi: Inode, r2: nat, b: Word32, off: nat) returns (done: bool)
      requires Valid() && off < 0x1_0000
      requires r2 < C.NSLOTS && cache.slots[r2].busy > 0 && cache.slots[r2].bno == oi.indirect2
      modifies this`nextb, cache, cache.slots
      ensures done ==> StoreDeep(old(cache.vol), oi, old(nextb), b, off) == Some(Store(cache.vol, oi, nextb))
      ensures done ==> Valid()
      ensures done ==>
        cache.slots[r2].busy == old(cache.slots[r2].busy) - 1
        && Kept(old(cache.slots[..]), cache.slots[..])
      ensures done ==> forall i | 0 <= i < C.NSLOTS && i != r2 :: cache.slots[i].busy == old(cache.slots[i].busy)
      ensures !done ==> StoreDeep(old(cache.vol), oi, old(nextb), b, off).None?
                        || !old(OneIdle(cache.slots[..]) && NoClash(cache.slots[..], cache.vol, oi, nextb))
    {
      hide C.Chosen, C.Sound, SetWord, Word, ZeroBlock;
      ghost var ss := cache.slots[..];
      EasyOne(ss, cache.vol, oi, nextb, off / NINDIRECT);
      hide OneIdle, NoClash;
      cache.HeldData(r2);
      var y := Word(cache.slots[r2].data, off / NINDIRECT);
      var r: int;
      if y == 0 {
        r := TakeIndex();
        if r == -1 { return false; }
        SetEntry(r2, off / NINDIRECT, cache.slots[r].bno);
      } else {
        r := cache.GetBlk(y, false, BLOCK_BITS);
        if r == -1 { return false; }
      }
      SetEntry(r, off % NINDIRECT, b);
      cache.PutBlk(r);
      cache.PutBlk(r2);
      return true;
    }

    /** getblk(nextb), filled, and nextb++ */
    method TakeBlock(c: Block, typ: nat) returns (r: int)
      requires Valid()
      modifies this`nextb, cache, cache.slots
      ensures r == -1 || 0 <= r < C.NSLOTS
      ensures r == -1 ==> old(nextb) >= old(|cache.vol|) || !old(OneIdle(cache.slots[..]))
                          || exists i ::
                               0 <= i < C.NSLOTS
                               && old(cache.slots[i].bno == nextb && cache.slots[i].busy > 0)
      ensures r >= 0 ==> Valid() && nextb == old(nextb) + 1 && old(nextb) < |old(cache.vol)|
      ensures r >= 0 ==> cache.vol == old(cache.vol)[old(nextb) := c] && cache.slots[r].bno == old(nextb)
      ensures r >= 0 ==>
        cache.slots[r].busy == old(cache.slots[r].busy) + 1
        && Kept(old(cache.slots[..]), cache.slots[..])
      ensures r >= 0 ==> forall i | 0 <= i < C.NSLOTS && i != r :: cache.slots[i] == old(cache.slots[i])
    {
      hide C.Chosen, C.Sound, ZeroBlock;
      r := cache.GetBlk(nextb, true, typ);
      if r == -1 { return; }
      cache.Write(r, c);
      nextb := nextb + 1;
    }

    /** storeblk, and putblk of the data block in slot r */
    method LinkBlock(f: nat, x: Word32, nblk: nat, r: nat) returns (done: bool)
      requires Valid() && f < inodes.Length && r < C.NSLOTS && cache.slots[r].busy > 0
      modifies this`nextb, inodes, cache, cache.slots
      ensures done ==>
        StoreBlk(old(cache.vol), old(inodes[f]), old(nextb), x, nblk) ==
        Some(Store(cache.vol, inodes[f], nextb))
      ensures done ==> Valid() && inodes[..] == old(inodes[..])[f := inodes[f]]
      ensures done ==> PutBack(old(cache.slots[..]), cache.slots[..], r)
      ensures !done ==> StoreBlk(old(cache.vol), old(inodes[f]), old(nextb), x, nblk).None?
                        || !old(TwoIdle(cache.slots[..]) && NoClash(cache.slots[..], cache.vol, inodes[f], nextb))
    {
      hide C.Sound, StoreBlk, NoClash, TwoIdle;
      done := StoreBlock(f, x, nblk);
      if done { cache.PutBlk(r); }
    }

    /** One turn of writefile's loop that stores a block: getblk, fill, nextb++, storeblk,
        putblk. */
    method StoreNext(f: nat, c: Block, nblk: nat, typ: nat) returns (done: bool)
      requires Valid() && f < inodes.Length == |files| && nblk == |files[f]| && Behind(Now(), f)
      modifies this, inodes, cache, cache.slots
      ensures done ==> Valid() && Perform(old(Now()), Append(f, c)) == Some(Now())
      ensures done ==> Balanced(old(cache.slots[..]), cache.slots[..])
      ensures !done ==> Perform(old(Now()), Append(f, c)).None? || !old(Calm(cache.slots[..], Now(), f))
    {
      hide C.Sound, C.Chosen, StoreBlk, NoClash, TwoIdle, OneIdle, Calm, Perform, PutBack, Balanced, Behind;
      ghost var img, ss := Now(), cache.slots[..];
      CalmIs(ss, img, f);
      cache.BusyNotZero();
      var x := nextb;
      PerformAppend(img, f, c);
      var r := TakeBlock(c, typ);
      if r == -1 { return false; }
      CalmTakes(img, f, ss, cache.slots[..], r, c);
      ghost var ss1 := cache.slots[..];
      done := LinkBlock(f, x, nblk, r);
      if !done { return; }
      BackInBalance(ss, ss1, cache.slots[..], r);
      files := files[f := files[f] + [Stored(x, c)]];
    }

    /** getblk of the next block, and putblk because the file has ended. */
    method Peek() returns (done: bool)
      requires Valid()
      modifies cache, cache.slots
      ensures done ==> Valid() && nextb < |old(cache.vol)| && cache.vol == old(cache.vol)[nextb := ZeroBlock()]
      ensures done ==> Balanced(old(cache.slots[..]), cache.slots[..])
      ensures !done ==> nextb >= old(|cache.vol|) || !old(OneIdle(cache.slots[..]))
                        || exists i :: 0 <= i < C.NSLOTS && old(cache.slots[i].bno == nextb && cache.slots[i].busy > 0)
    {
      hide C.Sound, C.Chosen, ZeroBlock;
      var r := cache.GetBlk(nextb, true, BLOCK_FILE);
      if r == -1 { return false; }
      cache.PutBlk(r);
      return true;
    }

    /** StoreNext on a good image. */
    method StoreGood(f: nat, c: Block, nblk: nat, typ: nat, ghost own: Owners) returns (done: bool, ghost own': Owners)
      requires Valid() && f < inodes.Length && Good(Now(), own) && nblk == |files[f]|
      modifies this, inodes, cache, cache.slots
      ensures done ==>
        Valid() && Perform(old(Now()), Append(f, c)) == Some(Now()) && Good(Now(), own')
        && Spent(old(Now()), f, Now())
      ensures done ==> Balanced(old(cache.slots[..]), cache.slots[..])
      ensures done ==> old(Calm(cache.slots[..], Now(), f)) ==> Calm(cache.slots[..], Now(), f)
      ensures !done ==>
        nblk >= MAXFILEBLKS || Need(nblk, nblk) > old(|cache.vol| - nextb)
        || !old(Calm(cache.slots[..], Now(), f))
    {
      GoodBehind(Now(), own, f);
      hide C.Sound, Calm, Good, Balanced, Need, Perform, Behind, IndexAhead;
      own' := AppendGood(Now(), own, f, c);
      done := StoreNext(f, c, nblk, typ);
      if done {
        cache.BusyNotZero();
        if old(Calm(cache.slots[..], Now(), f)) {
          StaysCalm(old(cache.slots[..]), cache.slots[..], old(Now()), f, Now());
        }
      }
    }

    /** The loop invariant of writefile: the first k blocks of the data are stored. */
    ghost predicate Turn(img0: Image, ss0: seq<C.Slot>, f: nat, k: nat, data: seq<Byte>, own: Owners)
      reads this, cache, cache.slots, inodes
    {
      && Valid() && Good(Now(), own) && Writing(img0, Now(), f, k, data) && Balanced(ss0, cache.slots[..])
      && (Room(ss0, img0, f, |data|) ==> Calm(cache.slots[..], Now(), f))
    }

    lemma FirstTurn(f: nat, data: seq<Byte>, own: Owners)
      requires Valid() && Good(Now(), own) && f < |Now().files| == |Now().inodes| && Now().files[f] == []
      ensures Turn(Now(), cache.slots[..], f, 0, data, own)
    {
      WritingNone(Now(), f, data);
      hide Good, Writing, C.Sound, Calm;
    }

    /** The blocks taken once the file has ended. */
    lemma TookAll(img0: Image, ss0: seq<C.Slot>, f: nat, k: nat, data: seq<Byte>, own: Owners)
      requires Turn(img0, ss0, f, k, data, own) && k == (|data| + 1023) / 1024
        && (|data| % 1024 == 0 ==> nextb < |cache.vol|)
      ensures Taken(|data|) <= |img0.disk| - img0.nextb
    {
      hide Cost, Core, Shape, Decodes, C.Sound, Calm;
    }

    /** A turn that stores a block. */
    method StoreChunk(f: nat, nblk: nat, data: seq<Byte>, ghost img0: Image, ghost ss0: seq<C.Slot>, ghost own: Owners)
      returns (done: bool, ghost own': Owners)
      requires Turn(img0, ss0, f, nblk, data, own) && nblk * 1024 < |data| && f < inodes.Length
      modifies this, inodes, cache, cache.slots
      ensures done ==> Turn(img0, ss0, f, nblk + 1, data, own')
      ensures !done ==> !Room(ss0, img0, f, |data|)
    {
      RoomLeft(ss0, img0, Now(), f, nblk, data);
      WritingShape(img0, Now(), f, nblk, data);
      hide C.Sound, Calm, Good, Balanced, Perform, Writing, Behind, OneIdle, ThreeIdle, IndexAhead, OthersKept, Room;
      ghost var img, ss := Now(), cache.slots[..];
      var n := if |data| - nblk * 1024 < 1024 then |data| - nblk * 1024 else 1024;
      var c := Padded(data[nblk * 1024..nblk * 1024 + n]);
      assert forall j | 0 <= j < 1024 :: c[j] == if nblk * 1024 + j < |data| then data[nblk * 1024 + j] else 0;
      hide Padded;
      done, own' := StoreGood(f, c, nblk, BLOCK_FILE, own);
      if done {
        BalancedTwice(ss0, ss, cache.slots[..]);
        WritingStep(img0, img, f, nblk, data, c, Now());
      }
    }

    /** The turn that finds the end of a file of whole blocks. */
    method EndOfFile(f: nat, nblk: nat, data: seq<Byte>, ghost img0: Image, ghost ss0: seq<C.Slot>, ghost own: Owners)
      returns (done: bool)
      requires Turn(img0, ss0, f, nblk, data, own) && nblk * 1024 == |data| && f < inodes.Length
      modifies cache, cache.slots
      ensures done ==> Turn(img0, ss0, f, nblk, data, own) && nextb < |cache.vol|
      ensures !done ==> !Room(ss0, img0, f, |data|)
    {
      RoomLeft(ss0, img0, Now(), f, nblk, data);
      CalmIs(cache.slots[..], Now(), f);
      GoodBehind(Now(), own, f);
      hide C.Sound, Calm, Good, Balanced, Perform, Behind, OneIdle, ThreeIdle, IndexAhead, OthersKept, Room, ZeroBlock;
      ghost var img, ss := Now(), cache.slots[..];
      done := Peek();
      if done {
        UnusedWrite(img, own, ZeroBlock());
        BalancedTwice(ss0, ss, cache.slots[..]);
        cache.BusyNotZero();
        PeekCalm(img0, ss0, img, f, ss, cache.slots[..], |data|, Now());
      }
    }

    /** The data loop of writefile on a fresh inode. */
    method WriteData(f: nat, data: seq<Byte>, ghost own: Owners) returns (done: bool, ghost own': Owners)
      requires Valid() && Good(Now(), own) && f < inodes.Length && |files| == inodes.Length && files[f] == []
      modifies this, inodes, cache, cache.slots
      ensures done ==> Valid() && Good(Now(), own') && Balanced(old(cache.slots[..]), cache.slots[..])
      ensures done ==> HoldsBytes(files[f], data) && inodes[f].size == |data| && ZeroTail(files[f], |data|)
      ensures done ==> OthersKept(old(Now()), f, Now())
      ensures done ==> |cache.vol| == old(|cache.vol|)
                       && |cache.vol| - nextb == old(|cache.vol| - nextb) - Cost((|data| + 1023) / 1024)
      ensures done ==> Taken(|data|) <= old(|cache.vol| - nextb)
      ensures old(Calm(cache.slots[..], Now(), f)) ==> (done <==> Taken(|data|) <= old(|cache.vol| - nextb))
    {
      ghost var img0, ss0 := Now(), cache.slots[..];
      FirstTurn(f, data, own);
      RoomIs(ss0, img0, f, |data|);
      hide Turn, Good, Balanced, Writing, Room, OthersKept, HoldsBytes, ZeroTail, Calm, Taken;
      var size;
      done, size, own' := StoreAll(f, data, img0, ss0, own);
      if done { SetSize(f, size, data, img0, ss0, own'); }
    }

    /** The loop itself; the size is nblk * OSPFS_BLKSIZE + n. */
    method StoreAll(f: nat, data: seq<Byte>, ghost img0: Image, ghost ss0: seq<C.Slot>, ghost own: Owners)
      returns (done: bool, size: nat, ghost own': Owners)
      requires Turn(img0, ss0, f, 0, data, own) && f < inodes.Length
      modifies this, inodes, cache, cache.slots
      ensures done ==> size == |data| && Turn(img0, ss0, f, (|data| + 1023) / 1024, data, own')
      ensures done ==> Taken(|data|) <= |img0.disk| - img0.nextb
      ensures !done ==> !Room(ss0, img0, f, |data|)
    {
      hide Turn, Room, Taken;
      own', size := own, 0;
      var nblk, n := 0, 0;
      while true
        invariant Turn(img0, ss0, f, nblk, data, own') && nblk * 1024 <= |data|
        decreases |data| - nblk * 1024
      {
        n := if |data| - nblk * 1024 < 1024 then |data| - nblk * 1024 else 1024;
        if n == 0 {
          done := EndOfFile(f, nblk, data, img0, ss0, own');
          if !done { return; }
          TookAll(img0, ss0, f, nblk, data, own');
          break;
        }
        done, own' := StoreChunk(f, nblk, data, img0, ss0, own');
        if !done { return; }
        if n < 1024 {
          TookAll(img0, ss0, f, nblk + 1, data, own');
          break;
        }
        nblk := nblk + 1;
      }
      done, size := true, nblk * 1024 + n;
    }

    method SetSize(f: nat, size: nat, data: seq<Byte>, ghost img0: Image, ghost ss0: seq<C.Slot>, ghost own: Owners)
      requires size == |data| && Turn(img0, ss0, f, (|data| + 1023) / 1024, data, own) && f < inodes.Length
      modifies inodes
      ensures Valid() && Good(Now(), own) && Balanced(ss0, cache.slots[..]) && OthersKept(img0, f, Now())
      ensures |files| > f && HoldsBytes(files[f], data) && inodes[f].size == |data| && ZeroTail(files[f], |data|)
      ensures |cache.vol| == |img0.disk|
        && |cache.vol| - nextb == |img0.disk| - img0.nextb - Cost((|data| + 1023) / 1024)
    {
      ghost var img := Now();
      WritingSize(img0, img, f, data, own);
      hide Good, Balanced, Writing, Room, ZeroTail;
      inodes[f] := inodes[f].(size := size);
      FieldsGood(img, own, f, size, img.inodes[f].ftype, img.inodes[f].nlink);
      assert Now() == Perform(img, Fields(f, size, img.inodes[f].ftype, img.inodes[f].nlink)).value;
    }

    /** finishfs on the free map that opendisk filled with ones: bit i is set exactly when
        block i is on the disk and was not taken. */
    method FinishFs()
      requires Valid() && nextb <= |cache.vol| && bits.Length == (|cache.vol| + 8191) / 8192 * 256
      requires forall i | 0 <= i < bits.Length :: bits[i] == 0xFFFF_FFFF
      modifies bits
      ensures forall i: nat | i < 32 * bits.Length :: TestBit(bits[..], i) <==> nextb <= i < |cache.vol|
      ensures forall i | 0 <= i < |cache.vol| :: TestBit(bits[..], i) == HandedOver(Now()).vol.free[i]
    {
      hide TestBit;
      var nblocks := |cache.disk|;
      var nbitblock := (nblocks + 8191) / 8192;
      forall i: nat | i < 32 * bits.Length ensures TestBit(bits[..], i) { AllOnes(bits[..], i); }
      for i := 0 to nextb
        invariant forall j: nat | j < 32 * bits.Length :: TestBit(bits[..], j) <==> i <= j
      {
        ClearBit(i);
      }
      if nblocks != nbitblock * 8192 {
        var base := (nbitblock - 1) * 8192;
        for i := nblocks % 8192 to 8192
          invariant forall j: nat | j < 32 * bits.Length ::
            TestBit(bits[..], j) <==> nextb <= j && (j < nblocks || base + i <= j)
        {
          ClearBit(base + i);
        }
      }
    }

    method ClearBit(i: nat)
      requires i < 32 * bits.Length
      modifies bits
      ensures forall j: nat | j < 32 * bits.Length :: TestBit(bits[..], j) <==> j != i && old(TestBit(bits[..], j))
    {
      ghost var w := bits[..];
      forall j: nat | j < 32 * bits.Length
        ensures TestBit(w[i / 32 := SetOff(w[i / 32], i % 32)], j) == (i != j && TestBit(w, j))
      {
        BitUpdate(w, i, j);
      }
      hide SetOff, TestBit;
      bits[i / 32] := SetOff(bits[i / 32], i % 32);
      assert bits[..] == w[i / 32 := SetOff(w[i / 32], i % 32)];
    }

    /** allocdirentry's way to the last block of a directory of nblk + 1 blocks. */
    method LastDirBlock(f: nat, nblk: nat) returns (r: int)
      requires Valid() && f < inodes.Length && nblk < MAXFILEBLKS
      requires PointersFit(cache.vol, inodes[f]) && At(cache.vol, inodes[f], Data(nblk)) != 0
      requires nblk >= 10 ==> inodes[f].indirect != 0 || nblk >= 266
      requires nblk >= 266 ==> inodes[f].indirect2 != 0 && At(cache.vol, inodes[f], Sub((nblk - 266) / 256)) != 0
      modifies cache, cache.slots
      ensures r == -1 || 0 <= r < C.NSLOTS
      ensures r >= 0 ==> Valid() && cache.vol == old(cache.vol) && Kept(old(cache.slots[..]), cache.slots[..])
      ensures r >= 0 ==> cache.slots[r].busy > 0 && cache.slots[r].bno == At(cache.vol, inodes[f], Data(nblk))
    {
      hide C.Sound, C.Chosen, Word;
      var oi := inodes[f];
      if nblk >= NDIRECT + NINDIRECT {
        var off := nblk - NDIRECT - NINDIRECT;
        var r2 := cache.GetBlk(oi.indirect2, false, BLOCK_BITS);
        if r2 == -1 { return -1; }
        cache.HeldData(r2);
        r := EntryBlock(Word(cache.slots[r2].data, off / NINDIRECT), off % NINDIRECT);
        if r == -1 { return -1; }
        cache.PutBlk(r2);
      } else if nblk >= NDIRECT {
        r := EntryBlock(oi.indirect, nblk - NDIRECT);
      } else {
        r := cache.GetBlk(oi.direct[nblk], false, BLOCK_DIR);
      }
    }

    /** The directory block that entry i of index block p names. */
    method EntryBlock(p: nat, i: nat) returns (r: int)
      requires Valid() && 0 < p < |cache.vol| && i < NINDIRECT && Word(cache.vol[p], i) != 0
      modifies cache, cache.slots
      ensures r == -1 || 0 <= r < C.NSLOTS
      ensures r >= 0 ==> Valid() && cache.vol == old(cache.vol) && Kept(old(cache.slots[..]), cache.slots[..])
      ensures r >= 0 ==> cache.slots[r].busy > 0 && cache.slots[r].bno == Word(cache.vol[p], i)
      ensures r >= 0 ==> forall j | 0 <= j < C.NSLOTS ::
        cache.slots[j].busy == old(cache.slots[j].busy) + if j == r then 1 else 0
    {
      hide C.Sound, C.Chosen, Word;
      var r1 := cache.GetBlk(p, false, BLOCK_BITS);
      if r1 == -1 { return -1; }
      cache.HeldData(r1);
      r := cache.GetBlk(Word(cache.slots[r1].data, i), false, BLOCK_DIR);
      if r == -1 { return -1; }
      cache.PutBlk(r1);
    }
  }

  lemma AllOnes(w: seq<bv32>, i: nat)
    requires i < 32 * |w| && w[i / 32] == 0xFFFF_FFFF
    ensures TestBit(w, i)
  {
    OneBit(i % 32);
  }

  lemma OneBit(k: nat)
    requires k < 32
    ensures BitOn(0xFFFF_FFFF, k)
  {
  }

  lemma WritingShape(img0: Image, img: Image, f: nat, k: nat, data: seq<Byte>)
    requires Writing(img0, img, f, k, data)
    ensures f < |img.files| == |img.inodes| && |img.files[f]| == k
  {
  }

  lemma WritingSize(img0: Image, img: Image, f: nat, data: seq<Byte>, own: Owners)
    requires Writing(img0, img, f, (|data| + 1023) / 1024, data) && Good(img, own)
    ensures HoldsBytes(img.files[f], data) && |data| < TWO32 && ZeroTail(img.files[f], |data|)
    ensures |img.disk| == |img0.disk|
      && |img.disk| - img.nextb == |img0.disk| - img0.nextb - Cost((|data| + 1023) / 1024)
    ensures OthersKept(img0, f, img) && |img.files| == |img.inodes|
  {
    hide Core, Shape, A, Cost;
    assert Decodes(Volume(img), img.inodes, f, img.files[f]);
  }

  lemma PeekCalm(img0: Image, ss0: seq<C.Slot>, img: Image, f: nat, ss: seq<C.Slot>, ss': seq<C.Slot>, length: nat,
        img': Image)
    requires Balanced(ss, ss') && f < |img.inodes| && img.nextb < |img.disk| && Behind(img, f)
    requires img' == img.(disk := img.disk[img.nextb := ZeroBlock()])
    requires forall i | 0 <= i < |ss'| && ss'[i].busy > 0 :: ss'[i].bno != 0
    requires Room(ss0, img0, f, length) ==> Calm(ss, img, f)
    ensures Room(ss0, img0, f, length) ==> Calm(ss', img', f)
  {
    hide Room, Calm, IndexAhead;
    if Room(ss0, img0, f, length) {
      PeekAhead(img, f, img');
      StaysCalm(ss, ss', img, f, img');
    }
  }

  lemma PeekAhead(img: Image, f: nat, img': Image)
    requires f < |img.inodes| && 0 < img.nextb < |img.disk| && Behind(img, f)
    requires img' == img.(disk := img.disk[img.nextb := ZeroBlock()])
    ensures IndexAhead(img, f, img')
  {
    hide Word;
  }

  /** A stored block: the bytes read, and zeroes. */
  function Padded(bytes: seq<Byte>): (b: Block)
    requires |bytes| <= 1024
  {
    bytes + seq(1024 - |bytes|, _ => 0)
  }

  /** The blocks that the data loop takes for a file of this length: a file of whole blocks needs
      one more for its end to be found. */
  function Taken(length: nat): nat { Cost((length + 1023) / 1024) + if length % 1024 == 0 then 1 else 0 }

  /** Room for a file of this length: calm slots and enough blocks. */
  ghost predicate Room(ss: seq<C.Slot>, img: Image, f: nat, length: nat) {
    Calm(ss, img, f) && Taken(length) <= |img.disk| - img.nextb
  }

  /** The first k blocks of the data are stored in file f. */
  ghost predicate Writing(img0: Image, img: Image, f: nat, k: nat, data: seq<Byte>) {
    && OthersKept(img0, f, img) && |img.files[f]| == k
    && (forall i | 0 <= i < |data| && i / 1024 < k :: img.files[f][i / 1024].data[i % 1024] == data[i])
    && |img.disk| == |img0.disk| && |img.disk| - img.nextb == |img0.disk| - img0.nextb - Cost(k)
    && ZeroTail(img.files[f], |data|)
  }

  /** Behind the last byte of a file its last block holds zeroes. */
  ghost predicate ZeroTail(stored: seq<Stored>, n: nat) {
    forall i | n <= i < 1024 * |stored| :: stored[i / 1024].data[i % 1024] == 0
  }

  lemma WritingNone(img0: Image, f: nat, data: seq<Byte>)
    requires f < |img0.inodes| == |img0.files| && img0.files[f] == []
    ensures Writing(img0, img0, f, 0, data)
  {
  }

  lemma WritingStep(img0: Image, img: Image, f: nat, k: nat, data: seq<Byte>, c: Block, img': Image)
    requires Writing(img0, img, f, k, data) && CanAct(img, Append(f, c)) && Perform(img, Append(f, c)) == Some(img')
      && Spent(img, f, img')
    requires forall j | 0 <= j < 1024 :: c[j] == if k * 1024 + j < |data| then data[k * 1024 + j] else 0
    ensures Writing(img0, img', f, k + 1, data)
  {
    hide StoreBlk, Cost;
    forall i | |data| <= i < 1024 * (k + 1)
      ensures img'.files[f][i / 1024].data[i % 1024] == 0
    {
      assert i == 1024 * (i / 1024) + i % 1024;
    }
    forall i | 0 <= i < |data| && i / 1024 < k + 1
      ensures img'.files[f][i / 1024].data[i % 1024] == data[i]
    {
      assert i == 1024 * (i / 1024) + i % 1024;
    }
    assert img'.inodes[f].ftype == img.inodes[f].ftype && img'.inodes[f].nlink == img.inodes[f].nlink by {
      StoreFields(img, f, c);
    }
  }

  lemma StoreFields(img: Image, f: nat, c: Block)
    requires CanAct(img, Append(f, c)) && Perform(img, Append(f, c)).Some?
    ensures var oi := Perform(img, Append(f, c)).value.inodes[f];
            oi.ftype == img.inodes[f].ftype && oi.nlink == img.inodes[f].nlink
  {
    hide PutWord, TakeZeroed, Word;
  }

  lemma RoomLeft(ss: seq<C.Slot>, img0: Image, img: Image, f: nat, k: nat, data: seq<Byte>)
    requires Writing(img0, img, f, k, data) && k * 1024 <= |data| && |img.disk| <= MAXBLOCKS && 2 <= img.nextb
    ensures Room(ss, img0, f, |data|) ==> img.nextb < |img.disk|
    ensures Room(ss, img0, f, |data|) && k * 1024 < |data| ==> k < MAXFILEBLKS && Need(k, k) <= |img.disk| - img.nextb
  {
    hide Cost;
    NeedPositive(k, k);
    CostAtLeast(k + 1);
    if k * 1024 < |data| { CostGrows(k + 1, (|data| + 1023) / 1024); }
  }

  lemma RoomIs(ss: seq<C.Slot>, img: Image, f: nat, length: nat)
    ensures Room(ss, img, f, length) <==> Calm(ss, img, f) && Taken(length) <= |img.disk| - img.nextb
  {
  }

  lemma CostAtLeast(n: nat)
    ensures Cost(n) >= n
  {
  }

  lemma CostGrows(a: nat, b: nat)
    requires a <= b
    ensures Cost(a) <= Cost(b)
  {
  }

  lemma BalancedTwice(ss: seq<C.Slot>, ss1: seq<C.Slot>, ss2: seq<C.Slot>)
    requires Balanced(ss, ss1) && Balanced(ss1, ss2)
    ensures Balanced(ss, ss2)
  {
  }

  /** Blocks one more stored block takes. */
  ghost predicate Spent(img: Image, f: nat, img': Image) {
    && f < |img.files| && |img'.disk| == |img.disk|
    && img'.nextb == img.nextb + Need(|img.files[f]|, |img.files[f]|)
  }

  /** Other files, and the other fields of inode f, are as they were. */
  ghost predicate OthersKept(img: Image, f: nat, img': Image) {
    && f < |img.inodes| == |img'.inodes| == |img.files| == |img'.files|
    && (forall g | 0 <= g < |img.inodes| && g != f :: img'.inodes[g] == img.inodes[g] && img'.files[g] == img.files[g])
    && img'.inodes[f].ftype == img.inodes[f].ftype && img'.inodes[f].nlink == img.inodes[f].nlink
  }

  /** A calm cache stays calm while a file is written. */
  lemma StaysCalm(ss: seq<C.Slot>, ss': seq<C.Slot>, img: Image, f: nat, img': Image)
    requires Calm(ss, img, f) && Balanced(ss, ss') && IndexAhead(img, f, img') && img.nextb <= img'.nextb
    requires forall i | 0 <= i < |ss'| && ss'[i].busy > 0 :: ss'[i].bno != 0
    ensures Calm(ss', img', f)
  {
    assert ThreeIdle(ss') by {
      var i, j, k :| 0 <= i < j < k < |ss| && ss[i].busy == 0 && ss[j].busy == 0 && ss[k].busy == 0;
      assert ss'[i].busy == 0 && ss'[j].busy == 0 && ss'[k].busy == 0;
    }
    hide ThreeIdle;
    assert NoClash(ss', img'.disk, img'.inodes[f], img'.nextb) by {
      forall p: nat | 0 < p < img.nextb && IndexOf(img'.disk, img'.inodes[f], img'.nextb, p)
        ensures IndexOf(img.disk, img.inodes[f], img.nextb, p)
      {
        IndexBefore(img, f, img', p);
      }
      hide IndexOf, IndexAhead;
    }
  }

  lemma IndexBefore(img: Image, f: nat, img': Image, p: nat)
    requires IndexAhead(img, f, img') && img.nextb <= img'.nextb && 0 < p < img.nextb
    requires IndexOf(img'.disk, img'.inodes[f], img'.nextb, p)
    ensures IndexOf(img.disk, img.inodes[f], img.nextb, p)
  {
    var oi, oi' := img.inodes[f], img'.inodes[f];
    Ind2At(img.disk, oi);
    Ind2At(img'.disk, oi');
    hide At;
    assert IsRole(Ind) && IsIndex(Ind) && IsRole(Ind2) && IsIndex(Ind2);
    assert forall k: nat | k < NINDIRECT :: IsRole(Sub(k)) && IsIndex(Sub(k));
  }

  /** The pointers of inode f are to blocks taken before. */
  ghost predicate Behind(img: Image, f: nat) {
    img.nextb < |img.disk| ==>
      && f < |img.inodes| && img.inodes[f].indirect < img.nextb && img.inodes[f].indirect2 < img.nextb
      && forall k | 0 <= k < NINDIRECT :: At(img.disk[img.nextb := ZeroBlock()], img.inodes[f], Sub(k)) != img.nextb
  }

  lemma GoodBehind(img: Image, own: Owners, f: nat)
    requires Good(img, own) && f < |img.inodes|
    ensures Behind(img, f) && |img.files| == |img.inodes|
  {
    if img.nextb < |img.disk| { UsedFits(img, own, f); }
  }

  lemma PerformAppend(img: Image, f: nat, c: Block)
    requires f < |img.inodes| == |img.files| && |img.disk| <= MAXBLOCKS
    ensures img.nextb >= |img.disk| ==> Perform(img, Append(f, c)).None?
    ensures img.nextb < |img.disk| ==>
              var s := StoreBlk(img.disk[img.nextb := c], img.inodes[f], img.nextb + 1, img.nextb, |img.files[f]|);
              Perform(img, Append(f, c)) ==
                if s.None? then None
                else Some(Image(img.first, s.value.disk, s.value.nextb, img.inodes[f := s.value.oi],
                                img.files[f := img.files[f] + [Stored(img.nextb, c)]]))
  {
    hide StoreBlk;
  }

  /** Three idle slots, and no busy slot holds a block not yet taken or an index block of
      file f under another type: so it is while inode and directory blocks are held. */
  ghost predicate Calm(ss: seq<C.Slot>, img: Image, f: nat) {
    && f < |img.inodes|
    && ThreeIdle(ss)
    && (forall i | 0 <= i < |ss| && ss[i].busy > 0 :: ss[i].bno < img.nextb)
    && NoClash(ss, img.disk, img.inodes[f], img.nextb)
  }

  lemma CalmIs(ss: seq<C.Slot>, img: Image, f: nat)
    ensures Calm(ss, img, f) ==> OneIdle(ss) && forall i | 0 <= i < |ss| && ss[i].busy > 0 :: ss[i].bno < img.nextb
  {
    hide NoClash;
  }

  lemma CalmTakes(img: Image, f: nat, ss: seq<C.Slot>, ss': seq<C.Slot>, r: nat, c: Block)
    requires Behind(img, f) && img.nextb < |img.disk| && f < |img.inodes| && |ss'| == |ss| && r < |ss|
    requires (forall i | 0 <= i < |ss| && i != r :: ss'[i] == ss[i]) && ss'[r].bno == img.nextb
    requires forall i | 0 <= i < |ss| && ss[i].busy > 0 :: ss[i].bno != 0
    ensures Calm(ss, img, f) ==> TwoIdle(ss') && NoClash(ss', img.disk[img.nextb := c], img.inodes[f], img.nextb + 1)
  {
    hide NoClash, Behind, TwoIdle, ThreeIdle;
    if Calm(ss, img, f) {
      ThreeToTwo(ss, ss', r);
      ClashAfterFill(img, f, ss, ss', r, c);
    }
  }

  ghost predicate ThreeIdle(ss: seq<C.Slot>) {
    exists i, j, k :: 0 <= i < j < k < |ss| && ss[i].busy == 0 && ss[j].busy == 0 && ss[k].busy == 0
  }

  lemma ThreeToTwo(ss: seq<C.Slot>, ss': seq<C.Slot>, r: nat)
    requires ThreeIdle(ss) && |ss'| == |ss| && forall i | 0 <= i < |ss| && i != r :: ss'[i] == ss[i]
    ensures TwoIdle(ss')
  {
    hide TwoIdle;
    var i, j, k :| 0 <= i < j < k < |ss| && ss[i].busy == 0 && ss[j].busy == 0 && ss[k].busy == 0;
    if i == r {
      Pair(ss', j, k);
    } else if k == r {
      Pair(ss', i, j);
    } else {
      Pair(ss', i, k);
    }
  }

  lemma Pair(ss: seq<C.Slot>, i: nat, j: nat)
    requires i < j < |ss| && ss[i].busy == 0 && ss[j].busy == 0
    ensures TwoIdle(ss)
  {
  }

  lemma ClashAfterFill(img: Image, f: nat, ss: seq<C.Slot>, ss': seq<C.Slot>, r: nat, c: Block)
    requires Behind(img, f) && img.nextb < |img.disk| && f < |img.inodes| && |ss'| == |ss| && r < |ss|
    requires (forall i | 0 <= i < |ss| && i != r :: ss'[i] == ss[i]) && ss'[r].bno == img.nextb
    requires NoClash(ss, img.disk, img.inodes[f], img.nextb)
    ensures NoClash(ss', img.disk[img.nextb := c], img.inodes[f], img.nextb + 1)
  {
    var d', oi := img.disk[img.nextb := c], img.inodes[f];
    hide Word;
    forall k | 0 <= k < NINDIRECT
      ensures At(d', oi, Sub(k)) == At(img.disk, oi, Sub(k)) && At(d', oi, Sub(k)) != img.nextb
    {
      assert At(img.disk[img.nextb := ZeroBlock()], oi, Sub(k)) != img.nextb;
    }
    hide At;
    forall p: nat | IndexOf(d', oi, img.nextb + 1, p) ensures IndexOf(img.disk, oi, img.nextb, p) && p != img.nextb {
    }
  }
}
