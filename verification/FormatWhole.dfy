/** A whole run of the formatter in place: opendisk, the data of any number of files, finishfs
    and flushdisk.  Directory entries are not written. */
module FormatWhole {
  import opened OspfsDisk
  import opened OspfsSpec
  import opened OspfsInv
  import opened OspfsBlocks
  import opened OspfsResize
  import opened OspfsBits
  import opened OspfsChangeSize
  import opened OspfsBytes
  import opened FormatImage
  import opened FormatRuns
  import opened FormatDisk
  import C = FormatCache

  /** Every file's blocks, and the block that finds its end, are there when its turn comes. */
  predicate AllStored(datas: seq<seq<Byte>>, avail: int)
    decreases |datas|
  {
    datas == []
    || (Taken(|datas[0]|) <= avail && AllStored(datas[1..], avail - Cost((|datas[0]| + 1023) / 1024)))
  }

  /** The first k files are written, each in its own inode, and the other inodes are empty. */
  ghost predicate Stored(img: Image, datas: seq<seq<Byte>>, k: nat) {
    && k <= |datas| <= |img.inodes| == |img.files|
    && (forall g | 0 <= g < k :: HoldsBytes(img.files[g], datas[g]) && img.inodes[g].size == |datas[g]|)
    && (forall g | k <= g < |img.inodes| :: img.files[g] == [] && img.inodes[g].size == 0)
  }

  /** What the kernel sees of the disk, the inode table and the free map. */
  function Written(first: nat, disk: seq<Block>, inodes: seq<Inode>, bits: seq<bv32>): Fs
    requires |bits| * 32 >= |disk| && |disk| <= MAXBLOCKS
  {
    Fs(Vol(first, seq(|disk|, i requires 0 <= i < |disk| => TestBit(bits, i)), disk), inodes)
  }

  ghost predicate AllIdle(ss: seq<C.Slot>) { |ss| >= 3 && forall i | 0 <= i < |ss| :: ss[i].busy == 0 }

  lemma IdleCalm(ss: seq<C.Slot>, img: Image, f: nat)
    requires AllIdle(ss) && f < |img.inodes|
    ensures Calm(ss, img, f)
  {
    assert ss[0].busy == 0 && ss[1].busy == 0 && ss[2].busy == 0;
  }

  lemma IdleStays(ss: seq<C.Slot>, ss': seq<C.Slot>)
    requires AllIdle(ss) && Balanced(ss, ss')
    ensures AllIdle(ss')
  {
  }

  lemma StoredNext(img: Image, img': Image, datas: seq<seq<Byte>>, k: nat)
    requires Stored(img, datas, k) && k < |datas| && OthersKept(img, k, img')
    requires HoldsBytes(img'.files[k], datas[k]) && img'.inodes[k].size == |datas[k]|
    ensures Stored(img', datas, k + 1)
  {
    hide HoldsBytes;
  }

  /** Sizes and blocks agree, and no file is too large for its tree. */
  lemma StoredSizes(img: Image, own: Owners, datas: seq<seq<Byte>>)
    requires Good(img, own) && Stored(img, datas, |datas|)
    ensures SizesSet(img)
  {
    hide Good;
    forall f | 0 <= f < |img.inodes|
      ensures Nb(img.inodes[f]) == |img.files[f]| < MAXFILEBLKS && img.inodes[f].size <= BLKSIZE * |img.files[f]|
    {
      FewBlocks(img, own, f);
    }
  }

  lemma FewBlocks(img: Image, own: Owners, f: nat)
    requires Good(img, own) && f < |img.files|
    ensures |img.files[f]| < MAXFILEBLKS
  {
    Population(Volume(img), img.inodes, own, Start(img));
    hide Core, Shape, Decodes;
    SumAtLeast(Counts(img.files), f);
  }

  /** The image, once the free map is written and the cache flushed. */
  lemma WrittenSound(img: Image, own: Owners, datas: seq<seq<Byte>>, bits: seq<bv32>)
    requires Good(img, own) && Stored(img, datas, |datas|) && |bits| * 32 >= |img.disk|
    requires forall i | 0 <= i < |img.disk| :: TestBit(bits, i) == HandedOver(img).vol.free[i]
    ensures var fs := Written(img.first, img.disk, img.inodes, bits);
            Inv(fs) && forall i | 0 <= i < |datas| :: SizeFits(fs.inodes[i]) && Contents(fs, i) == datas[i]
  {
    hide TestBit, Contents, Inv;
    var fs := Written(img.first, img.disk, img.inodes, bits);
    assert fs == HandedOver(img) by { assert fs.vol.free == HandedOver(img).vol.free; }
    StoredSizes(img, own, datas);
    InvFromGood(img, own);
    forall i | 0 <= i < |datas| ensures SizeFits(fs.inodes[i]) && Contents(fs, i) == datas[i] {
      FewBlocks(img, own, i);
      hide Good, HoldsBytes;
      ReadsBytes(img, own, i, datas[i]);
      InvSize(fs, i);
    }
  }

  lemma InvFromGood(img: Image, own: Owners)
    requires Good(img, own) && SizesSet(img)
    ensures Inv(HandedOver(img))
  {
    GoodInv(img, own);
    hide InvW;
  }

  /** What every turn of main's loop over the files keeps. */
  ghost predicate Running(fm: Formatter, own: Owners, datas: seq<seq<Byte>>, k: nat, nblocks: nat, ninodes: nat)
    reads fm, fm.cache, fm.cache.slots, fm.inodes
  {
    && fm.Valid() && Good(fm.Now(), own) && Stored(fm.Now(), datas, k) && AllIdle(fm.cache.slots[..])
    && |fm.cache.vol| == nblocks && fm.inodes.Length == ninodes
  }

  method WriteOne(fm: Formatter, k: nat, datas: seq<seq<Byte>>, ghost own: Owners, nblocks: nat, ninodes: nat)
    returns (done: bool, ghost own': Owners)
    requires Running(fm, own, datas, k, nblocks, ninodes) && k < |datas|
    modifies fm, fm.inodes, fm.cache, fm.cache.slots
    ensures done <==> Taken(|datas[k]|) <= old(|fm.cache.vol| - fm.nextb)
    ensures done ==> Running(fm, own', datas, k + 1, nblocks, ninodes)
    ensures done ==> fm.nextb == old(fm.nextb) + Cost((|datas[k]| + 1023) / 1024)
  {
    hide Good, HoldsBytes, C.Sound, OthersKept, Balanced, Calm, AllIdle, Taken, Cost;
    ghost var img, ss := fm.Now(), fm.cache.slots[..];
    IdleCalm(ss, img, k);
    done, own' := fm.WriteData(k, datas[k], own);
    if done {
      IdleStays(ss, fm.cache.slots[..]);
      StoredNext(img, fm.Now(), datas, k);
    }
  }

  /** For any files the run ends exactly when the disk has room for them.  Then what it leaves is
      sound for the kernel, and each file's bytes are what the kernel reads. */
  method FormatFiles(nblocks: nat, ninodes: nat, datas: seq<seq<Byte>>)
    returns (done: bool, disk: seq<Block>, inodes: seq<Inode>, bits: seq<bv32>)
    requires nblocks <= MAXBLOCKS && Opened(nblocks, ninodes).nextb <= nblocks && |datas| <= ninodes
    ensures done <==> AllStored(datas, nblocks - Opened(nblocks, ninodes).nextb)
    ensures done ==> |disk| == nblocks && |inodes| == ninodes && |bits| * 32 >= nblocks
    ensures done ==> var fs := Written(Opened(nblocks, ninodes).first, disk, inodes, bits);
                     Inv(fs) && forall i | 0 <= i < |datas| :: SizeFits(fs.inodes[i]) && Contents(fs, i) == datas[i]
  {
    hide *;
    disk, inodes, bits, done := [], [], [], true;
    var fm := OpenDisk(nblocks, ninodes, datas);
    ghost var own: Owners := map[];
    assert datas[0..] == datas;
    ghost var avail: int := nblocks - fm.nextb;
    for k := 0 to |datas|
      invariant fresh(fm) && fresh(fm.cache) && fresh(fm.cache.slots) && fresh(fm.inodes)
      invariant Unfinished(fm.bits[..], nblocks)
      invariant Running(fm, own, datas, k, nblocks, ninodes) && avail == nblocks - fm.nextb
      invariant AllStored(datas[k..], avail) <==> AllStored(datas, nblocks - Opened(nblocks, ninodes).nextb)
    {
      StoredOne(datas, k, avail);
      RunningSize(fm, own, datas, k, nblocks, ninodes);
      done, own := WriteOne(fm, k, datas, own, nblocks, ninodes);
      if !done { return; }
      avail := avail - Cost((|datas[k]| + 1023) / 1024);
    }
    StoredNone(datas, avail);
    disk, inodes, bits := Finish(fm, own, datas, nblocks, ninodes);
  }

  lemma StoredOne(datas: seq<seq<Byte>>, k: nat, avail: int)
    requires k < |datas|
    ensures AllStored(datas[k..], avail) <==>
              Taken(|datas[k]|) <= avail && AllStored(datas[k + 1..], avail - Cost((|datas[k]| + 1023) / 1024))
  {
    hide Taken, Cost;
    assert datas[k..][1..] == datas[k + 1..];
  }

  lemma StoredNone(datas: seq<seq<Byte>>, avail: int)
    ensures AllStored(datas[|datas|..], avail)
  {
  }

  lemma RunningSize(fm: Formatter, own: Owners, datas: seq<seq<Byte>>, k: nat, nblocks: nat, ninodes: nat)
    requires Running(fm, own, datas, k, nblocks, ninodes)
    ensures |fm.cache.vol| == nblocks
  {
  }

  /** The free map that opendisk wrote. */
  predicate Unfinished(bits: seq<bv32>, nblocks: nat) {
    |bits| == (nblocks + 8191) / 8192 * 256 && forall i | 0 <= i < |bits| :: bits[i] == 0xFFFF_FFFF
  }

  /** opendisk */
  method OpenDisk(nblocks: nat, ninodes: nat, datas: seq<seq<Byte>>) returns (fm: Formatter)
    requires nblocks <= MAXBLOCKS && Opened(nblocks, ninodes).nextb <= nblocks && |datas| <= ninodes
    ensures fresh(fm) && fresh(fm.cache) && fresh(fm.cache.slots) && fresh(fm.inodes) && fresh(fm.bits)
    ensures {fm.inodes as object, fm.cache.slots} !! {fm.bits as object}
    ensures Running(fm, map[], datas, 0, nblocks, ninodes) && Unfinished(fm.bits[..], nblocks)
    ensures fm.nextb == Opened(nblocks, ninodes).nextb && fm.first == Opened(nblocks, ninodes).first
  {
    fm := new Formatter(nblocks, ninodes);
    OpenedGood(nblocks, ninodes);
    hide Good, C.Sound;
  }

  /** finishfs and flushdisk */
  method Finish(fm: Formatter, ghost own: Owners, datas: seq<seq<Byte>>, nblocks: nat, ninodes: nat)
    returns (disk: seq<Block>, inodes: seq<Inode>, bits: seq<bv32>)
    requires Running(fm, own, datas, |datas|, nblocks, ninodes) && nblocks <= MAXBLOCKS
    requires Unfinished(fm.bits[..], nblocks)
    modifies fm.bits, fm.cache`disk
    ensures |disk| == nblocks && |inodes| == ninodes && |bits| * 32 >= nblocks
    ensures var fs := Written(fm.first, disk, inodes, bits);
            Inv(fs) && forall i | 0 <= i < |datas| :: SizeFits(fs.inodes[i]) && Contents(fs, i) == datas[i]
  {
    hide TestBit, Inv, Contents, Written, C.Sound, Stored, AllIdle;
    ghost var img := fm.Now();
    GoodBounds(img, own);
    inodes := fm.inodes[..];
    fm.FinishFs();
    bits := fm.bits[..];
    WrittenSound(img, own, datas, bits);
    hide Good;
    fm.cache.FlushDisk();
    disk := fm.cache.disk;
  }

  lemma GoodBounds(img: Image, own: Owners)
    requires Good(img, own)
    ensures img.nextb <= |img.disk| <= MAXBLOCKS
  {
  }
}
