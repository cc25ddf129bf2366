/** The disk of a formatter run without any files, and what the kernel makes of it. */
module FormatFresh {
  import opened Options
  import opened OspfsDisk
  import opened OspfsSpec
  import opened OspfsInv
  import opened OspfsBlocks
  import opened OspfsResize
  import opened OspfsChangeSize
  import opened OspfsBytes
  import opened OspfsDirs
  import opened OspfsLinks
  import opened FormatImage
  import opened FormatRuns

  /** The arguments that main accepts. */
  predicate Accepted(nblocks: nat, ninodes: nat) {
    2 <= nblocks <= MAXBLOCKS && 2 <= ninodes < nblocks - 2 - nblocks / 8192
  }

  /** What main does before it writes files: inode 0 is taken, inode 1 is the root directory. */
  function RootActs(): seq<Act> { [Act.Fields(0, 0, FTYPE_REG, 1), Act.Fields(1, 0, FTYPE_DIR, 1)] }

  function FreshInodes(ninodes: nat): seq<Inode>
    requires ninodes >= 2
  {
    var zero := Inode(0, FTYPE_REG, 0, seq(10, _ => 0), 0, 0);
    seq(ninodes, i => if i == 0 then zero.(nlink := 1) else if i == 1 then zero.(ftype := FTYPE_DIR, nlink := 1)
      else zero)
  }

  lemma FreshRuns(nblocks: nat, ninodes: nat)
    requires Accepted(nblocks, ninodes)
    ensures Opened(nblocks, ninodes).nextb <= nblocks
    ensures Run(Opened(nblocks, ninodes), RootActs()) ==
              Option.Some(Opened(nblocks, ninodes).(inodes := FreshInodes(ninodes)))
  {
    var img := Opened(nblocks, ninodes);
    var img1 := Perform(img, RootActs()[0]).value;
    var img2 := Perform(img1, RootActs()[1]).value;
    assert img2.inodes == FreshInodes(ninodes);
    assert RootActs()[1..] == [RootActs()[1]] && RootActs()[1..][1..] == [];
    assert Run(img2, []) == Option.Some(img2);
    assert Run(img1, RootActs()[1..]) == Option.Some(img2);
  }

  function FreshDisk(nblocks: nat, ninodes: nat): Fs
    requires Accepted(nblocks, ninodes)
  {
    HandedOver(Opened(nblocks, ninodes).(inodes := FreshInodes(ninodes)))
  }

  lemma FreshSound(nblocks: nat, ninodes: nat)
    requires Accepted(nblocks, ninodes)
    ensures Inv(FreshDisk(nblocks, ninodes)) && FreshDisk(nblocks, ninodes).inodes == FreshInodes(ninodes)
  {
    FreshRuns(nblocks, ninodes);
    hide Inv, Run;
    ImageIsSound(nblocks, ninodes, RootActs());
  }

  lemma FreshDirs(fs: Fs)
    requires |fs.inodes| >= 2 && fs.inodes == FreshInodes(|fs.inodes|)
    ensures AllFit(fs) && Dirs(fs) == seq(|fs.inodes|, _ => [])
  {
    hide Entries;
    forall d | 0 <= d < |fs.inodes| ensures SizeFits(fs.inodes[d]) && Dirs(fs)[d] == [] {
      assert |Contents(fs, d)| == 0;
    }
  }

  lemma NothingCounted(inodes: seq<Inode>, dirs: seq<seq<Entry>>)
    requires |inodes| >= 2 && inodes == FreshInodes(|inodes|) && dirs == seq(|inodes|, _ => [])
    ensures Counted(inodes, dirs)
  {
    forall f ensures Refs(dirs, f) == {} { }
  }

  /** For all arguments main accepts, the kernel finds an empty root directory, a sound
      allocator and correct link counts. */
  lemma FreshLinked(nblocks: nat, ninodes: nat)
    requires Accepted(nblocks, ninodes)
    ensures var fs := FreshDisk(nblocks, ninodes);
            Linked(fs) && IsDir(fs, 1) && Names(Dirs(fs)[1]) == map[]
  {
    hide Inv, AllFit, Dirs, Counted, FreshDisk;
    FreshSound(nblocks, ninodes);
    var fs := FreshDisk(nblocks, ninodes);
    FreshDirs(fs);
    NothingCounted(fs.inodes, Dirs(fs));
  }

  // -------------------------------------------------------------------------
  // Runs from a fresh disk
  // -------------------------------------------------------------------------

  /** Every directory's size is a multiple of eight blocks. */
  ghost predicate Eights(fs: Fs) {
    forall d | 0 <= d < |fs.inodes| && IsDir(fs, d) :: fs.inodes[d].size % NEWBYTES == 0
  }

  /** Such a directory never has 266 blocks, so it always grows safely. */
  lemma EightsGrow(fs: Fs, d: nat)
    requires d < |fs.inodes| && SizeFits(fs.inodes[d]) && IsDir(fs, d) && Eights(fs)
    ensures CanGrow(fs, d)
  {
    hide Contents, Entries, High, FreeCount;
    assert fs.inodes[d].size == 8192 * (fs.inodes[d].size / 8192);
    assert Nb(fs.inodes[d]) == 8 * (fs.inodes[d].size / 8192);
  }

  lemma ResizeOther(fs: Fs, f: nat, want: Word32)
    requires f < |fs.inodes|
    ensures var fs1 := Resize(fs, f, want).0;
            |fs1.inodes| == |fs.inodes| && forall g | 0 <= g < |fs.inodes| && g != f :: fs1.inodes[g] == fs.inodes[g]
  {
    hide ChangeSize;
  }

  lemma BlankSizes(fs: Fs, d: nat)
    requires Inv(fs) && d < |fs.inodes| && SizeFits(fs.inodes[d]) && CanGrow(fs, d)
    ensures var ins := Blank(fs, d).0.inodes;
            && |ins| == |fs.inodes| && (forall g | 0 <= g < |ins| && g != d :: ins[g] == fs.inodes[g])
            && SameMeta(ins[d], fs.inodes[d])
            && (ins[d].size == fs.inodes[d].size || ins[d].size == fs.inodes[d].size + NEWBYTES)
  {
    hide Inv, Dir, ChangeSize, FindBlank, Dangles, Resize;
    if FindBlank(Dir(fs, d)) == |Dir(fs, d)| {
      var want := (fs.inodes[d].size + NEWBYTES) % TWO32;
      FrameContents(fs, d, want);
      ResizeMeta(fs, d, want);
      hide SameBut, Contents;
    }
  }

  lemma BlankEights(fs: Fs, d: nat)
    requires Inv(fs) && IsDir(fs, d) && SizeFits(fs.inodes[d]) && Eights(fs)
    ensures Eights(Blank(fs, d).0) && |Blank(fs, d).0.inodes| == |fs.inodes|
    ensures forall g | 0 <= g < |fs.inodes| :: SameMeta(Blank(fs, d).0.inodes[g], fs.inodes[g])
  {
    hide Inv, Blank, CanGrow, SizeFits;
    EightsGrow(fs, d);
    BlankSizes(fs, d);
    EightMore(fs.inodes[d].size);
  }

  lemma EightMore(size: nat)
    ensures (size + NEWBYTES) % NEWBYTES == size % NEWBYTES
  {
  }

  lemma EntryInodes(fs: Fs, d: nat, k: nat, bytes: seq<Byte>)
    requires d < |fs.inodes| && |bytes| <= 128
    ensures WithEntry(fs, d, k, bytes).inodes == fs.inodes
  {
  }

  lemma LinkEights(fs: Fs, src: nat, d: nat, name: seq<Byte>)
    requires Linked(fs) && IsDir(fs, d) && src < |fs.inodes| && fs.inodes[src].ftype == FTYPE_REG && Eights(fs)
    ensures Eights(Link(fs, src, d, name).0)
  {
    hide Inv, Contents, Entries, Counted, Blank, WithEntry, Find, EntryBytes, Names;
    BlankEights(fs, d);
    if |name| <= MAXNAMELEN {
      var (fs1, k, r) := Blank(fs, d);
      EntryInodes(fs1, d, k, EntryBytes(src, name));
    }
  }

  lemma CreateEights(fs: Fs, d: nat, name: seq<Byte>)
    requires Linked(fs) && IsDir(fs, d) && Eights(fs)
    ensures Eights(Create(fs, d, name).0)
  {
    hide Inv, Contents, Entries, Counted, Blank, WithEntry, Find, EntryBytes, Names, Sane, CanGrow, SpaceFor;
    SaneFit(fs);
    var f := FindFreeInode(fs.inodes, 2);
    if f != 0 {
      ClaimSane(fs, d);
      var fs0 := Claimed(fs);
      SaneFit(fs0);
      BlankEights(fs0, d);
      var (fs1, k, r) := Blank(fs0, d);
      EntryInodes(fs1, d, k, EntryBytes(f, Cut(name)));
    }
  }

  lemma UnlinkEights(fs: Fs, d: nat, name: seq<Byte>)
    requires Linked(fs) && Asked(fs, DoUnlink(d, name)) && Eights(fs)
    ensures Eights(Unlink(fs, d, name).0)
  {
    hide Inv, Contents, Entries, Counted, WithEntry, Resize, Find, Names;
    var es := Dir(fs, d);
    assert Dirs(fs)[d] == es;
    FindNames(es, name);
    var k := Find(es, name);
    if k < |es| {
      var f := es[k].ino;
      if f < |fs.inodes| && fs.inodes[f].nlink > 0 {
        EntryInodes(fs, d, k, FourBytes(0));
        var fs1 := WithEntry(fs, d, k, FourBytes(0));
        var fs2 := WithFields(fs1, f, fs1.inodes[f].size, fs1.inodes[f].ftype, fs1.inodes[f].nlink - 1);
        ResizeOther(fs2, f, 0);
        ResizeMeta(fs2, f, 0);
      }
    }
  }

  lemma ResizeEights(fs: Fs, f: nat, want: Word32)
    requires f < |fs.inodes| && fs.inodes[f].ftype == FTYPE_REG && Eights(fs)
    ensures Eights(Resize(fs, f, want).0)
  {
    ResizeOther(fs, f, want);
    ResizeMeta(fs, f, want);
    hide Resize;
  }

  lemma StoreEights(fs: Fs, f: nat, i: nat, bytes: seq<Byte>)
    requires f < |fs.inodes| && Eights(fs) && i / BLKSIZE < MAXFILEBLKS && i % BLKSIZE + |bytes| <= BLKSIZE
    ensures Eights(WithBytes(fs, f, i, bytes))
  {
  }

  lemma ApplyEights(fs: Fs, op: Op)
    requires Linked(fs) && Asked(fs, op) && Eights(fs)
    ensures Eights(Apply(fs, op))
  {
    hide Linked, Eights, Link, Create, Unlink, Resize, WithBytes;
    match op
    case DoLink(src, d, name) => LinkEights(fs, src, d, name);
    case DoCreate(d, name) => CreateEights(fs, d, name);
    case DoUnlink(d, name) => UnlinkEights(fs, d, name);
    case DoResize(f, want) => ResizeEights(fs, f, want);
    case DoStore(f, i, bytes) => if i / BLKSIZE < MAXFILEBLKS { StoreEights(fs, f, i, bytes); }
  }

  /** Each call asked for properly when it comes; no create runs out of space after it claimed
      an inode or cuts its name to one that is taken, and each resize of a file is safe. */
  ghost predicate Roomy(fs: Fs, ops: seq<Op>)
    decreases |ops|
  {
    ops == []
    || (Linked(fs) ==>
          && Asked(fs, ops[0]) && (ops[0].DoCreate? || ops[0].DoResize? ==> Safe(fs, ops[0]))
          && (AskedTargets(fs, ops[0]); Roomy(Apply(fs, ops[0]), ops[1..])))
  }

  lemma {:induction false} RoomyRuns(fs: Fs, ops: seq<Op>)
    requires Linked(fs) && Eights(fs) && Roomy(fs, ops)
    ensures SafeRun(fs, ops)
    decreases |ops|
  {
    hide Inv, Contents, Entries, Counted, Apply, Eights, CanGrow, SpaceFor, Names;
    if ops != [] {
      if ops[0].DoLink? { EightsGrow(fs, ops[0].d); }
      assert Safe(fs, ops[0]);
      hide Linked, Asked, Safe;
      ApplyKeeps(fs, ops[0]);
      ApplyEights(fs, ops[0]);
      RoomyRuns(Apply(fs, ops[0]), ops[1..]);
    }
  }

  /** From a fresh disk on, over every run of calls: unique names, link counts equal to the
      number of entries, a sound allocator.  No directory can get into the dangling case. */
  lemma FreshRunsKeepLinks(nblocks: nat, ninodes: nat, ops: seq<Op>)
    requires Accepted(nblocks, ninodes) && Roomy(FreshDisk(nblocks, ninodes), ops)
    ensures var fs := FreshDisk(nblocks, ninodes);
            SafeRun(fs, ops) && Linked(ApplyAll(fs, ops))
  {
    hide Linked, SafeRun, ApplyAll, Roomy;
    var fs := FreshDisk(nblocks, ninodes);
    FreshLinked(nblocks, ninodes);
    assert Eights(fs) by { assert forall d | 0 <= d < |fs.inodes| :: fs.inodes[d].size == 0; }
    RoomyRuns(fs, ops);
    RunsKeepLinks(fs, ops);
  }

  // -------------------------------------------------------------------------
  // The failing cases, at real inputs
  // -------------------------------------------------------------------------

  lemma FreshCounts(nblocks: nat, ninodes: nat, f: nat)
    requires Accepted(nblocks, ninodes) && f < ninodes
    ensures var fs := FreshDisk(nblocks, ninodes);
            && |fs.inodes| == ninodes && Nb(fs.inodes[f]) == 0 && fs.inodes[f].size == 0
            && fs.inodes[f].nlink == (if f < 2 then 1 else 0)
            && fs.inodes[f].ftype == (if f == 1 then FTYPE_DIR else FTYPE_REG)
            && FreeCount(fs) == nblocks - 3 - (ninodes + 15) / 16 && High(fs, f) == 0
  {
    hide At, Word;
    var fs := FreshDisk(nblocks, ninodes);
    FreshRuns(nblocks, ninodes);
    NullTree(fs.vol, fs.inodes, f, Data(0));
    RangeExact(Free(fs.vol), Opened(nblocks, ninodes).nextb, nblocks);
  }

  lemma To266()
    ensures Size2Nblocks(272384) == 266 && NeedTo(0, 0, 266) == 267 && NewHigh(0, 0, 266, 269) == 266
    ensures Cost(0) == 0 && Cost(266) == 267 && Lost(0, 0, 266) == 0 && !DanglesAt(0, 0, 269)
  {
  }

  /** Growing an empty file to 266 blocks on a disk with 269 free ones. */
  lemma FirstGrows(fs: Fs, f: nat)
    requires Inv(fs) && f < |fs.inodes| && Nb(fs.inodes[f]) == 0 && High(fs, f) == 0 && FreeCount(fs) == 269
    ensures var (fs1, r1) := Resize(fs, f, 272384);
            && r1 == OK && Inv(fs1) && |fs1.inodes| == |fs.inodes| && fs1.inodes[f].size == 272384
            && High(fs1, f) == 266 && FreeCount(fs1) == 2
  {
    To266();
    hide Inv, Resize, High, FreeCount, TotalCost, Leaked, Frame, NeedTo, NewHigh, Cost, Lost, Size2Nblocks;
    assert SafeCall(fs, f, 272384);
    ResizeOther(fs, f, 272384);
    ResizeEffect(fs, f, 272384);
  }

  /** On a disk of 273 blocks: a file of 266 blocks, which fits, is to grow by a byte.  That
      fails and leaves the inode pointing at a free block. */
  lemma DanglesExample()
    ensures var fs := FreshDisk(273, 2);
            var (fs1, r1) := Resize(fs, 0, 272384);
            var (fs2, r2) := Resize(fs1, 0, 272385);
            && Inv(fs) && r1 == OK && Inv(fs1) && Dangles(fs1, 0, 272385) && r2 == ENOSPC && !Inv(fs2)
  {
    hide FreshDisk, Inv, Resize, High, FreeCount, Counted, Dirs;
    var fs := FreshDisk(273, 2);
    FreshLinked(273, 2);
    FreshCounts(273, 2, 0);
    FirstGrows(fs, 0);
    var fs1 := Resize(fs, 0, 272384).0;
    assert Size2Nblocks(272384) == 266 && Size2Nblocks(272385) == 267;
    DanglesFails(fs1, 0, 272385);
    UnsafeBreaks(fs1, 0, 272385);
  }

  /** Nothing is lost on a fresh disk. */
  lemma FreshNothingLost(nblocks: nat, ninodes: nat)
    requires Accepted(nblocks, ninodes)
    ensures Leaked(FreshDisk(nblocks, ninodes)) == {}
  {
    hide A, IsRole;
    FreshRuns(nblocks, ninodes);
    var fs := FreshDisk(nblocks, ninodes);
    assert forall p | DataStart(fs) <= p < |fs.vol.disk| :: p in Free(fs.vol);
  }

  lemma ByOne(h: nat, free: nat)
    requires h <= 1 && free >= 3
    ensures Size2Nblocks(1024) == 1 && NeedTo(0, h, 1) == 1 && NewHigh(0, h, 1, free) == 1
    ensures Cost(0) == 0 && Cost(1) == 1 && Lost(0, h, 1) == h && !DanglesAt(0, h, free)
  {
  }

  /** One block more for an empty file, with or without a spare one. */
  lemma GrowsByOne(fs: Fs, f: nat)
    requires Inv(fs) && f < |fs.inodes| && Nb(fs.inodes[f]) == 0 && FreeCount(fs) >= 3
    requires High(fs, f) <= 1
    ensures var (fs1, r1) := Resize(fs, f, 1024);
            && r1 == OK && Inv(fs1) && |fs1.inodes| == |fs.inodes| && fs1.inodes[f].size == 1024
            && High(fs1, f) == 1 && Nb(fs1.inodes[f]) == 1 && FreeCount(fs1) == FreeCount(fs) - 1
            && |Leaked(fs1)| == |Leaked(fs)| + High(fs, f)
  {
    ByOne(High(fs, f), FreeCount(fs));
    hide Inv, Resize, High, FreeCount, TotalCost, Leaked, Frame, NeedTo, NewHigh, Cost, Lost, Size2Nblocks;
    assert SafeCall(fs, f, 1024);
    ResizeOther(fs, f, 1024);
    ResizeEffect(fs, f, 1024);
  }

  /** Removing the one block of a file leaves it in place. */
  lemma ShrinksToSpare(fs: Fs, f: nat)
    requires Inv(fs) && f < |fs.inodes| && fs.inodes[f].size == 1024 && High(fs, f) == 1
    ensures var (fs1, r1) := Resize(fs, f, 0);
            && r1 == OK && Inv(fs1) && |fs1.inodes| == |fs.inodes| && fs1.inodes[f].size == 0
            && High(fs1, f) == 1 && FreeCount(fs1) == FreeCount(fs) && |Leaked(fs1)| == |Leaked(fs)|
  {
    assert Nb(fs.inodes[f]) == 1 && Size2Nblocks(0) == 0 && NeedTo(1, 1, 0) == 0;
    assert NewHigh(1, 1, 0, FreeCount(fs)) == 1 && Lost(1, 1, 0) == 0;
    hide Inv, Resize, High, FreeCount, TotalCost, Leaked, Frame, NeedTo, NewHigh, Cost, Lost, Size2Nblocks;
    assert SafeCall(fs, f, 0);
    ResizeOther(fs, f, 0);
    ResizeEffect(fs, f, 0);
  }

  /** On a fresh disk of 20 blocks a file grows to one block, shrinks to none and grows again:
      the file of one block has cost two, and one of them no file reaches. */
  lemma SpareLostExample()
    ensures var fs0 := FreshDisk(20, 4);
            var (fs1, r1) := Resize(fs0, 0, 1024);
            var (fs2, r2) := Resize(fs1, 0, 0);
            var (fs3, r3) := Resize(fs2, 0, 1024);
            && Inv(fs0) && r1 == r2 == r3 == OK && Inv(fs3) && fs3.inodes[0].size == 1024
            && |Leaked(fs0)| == |Leaked(fs1)| == |Leaked(fs2)| == 0 && |Leaked(fs3)| == 1
            && FreeCount(fs1) == FreeCount(fs0) - 1 && FreeCount(fs3) == FreeCount(fs0) - 2
  {
    hide FreshDisk, Inv, Resize, High, FreeCount, Leaked;
    var fs0 := FreshDisk(20, 4);
    FreshSound(20, 4);
    FreshCounts(20, 4, 0);
    FreshNothingLost(20, 4);
    GrowsByOne(fs0, 0);
    var fs1 := Resize(fs0, 0, 1024).0;
    ShrinksToSpare(fs1, 0);
    GrowsByOne(Resize(fs1, 0, 0).0, 0);
  }

  /** On the same disk an empty file asked to have 2^32 - 1 bytes gets that size and no block. */
  lemma SizeWrapsExample()
    ensures var fs := FreshDisk(20, 4);
            var (fs1, r) := Resize(fs, 0, 0xFFFF_FFFF);
            Inv(fs) && r == OK && fs1.inodes[0].size == 0xFFFF_FFFF && Nb(fs1.inodes[0]) == 0
            && fs1.vol == fs.vol && !Inv(fs1)
  {
    hide FreshDisk, Inv, High, FreeCount;
    var fs := FreshDisk(20, 4);
    FreshSound(20, 4);
    FreshCounts(20, 4, 0);
    assert Size2Nblocks(0xFFFF_FFFF) == 0;
    UnsafeBreaks(fs, 0, 0xFFFF_FFFF);
  }

  lemma EightCost()
    ensures Size2Nblocks(8192) == 8 && NeedTo(0, 0, 8) == 8
  {
  }

  /** An empty directory has space exactly when eight blocks are free. */
  lemma EmptySpace(fs: Fs, d: nat)
    requires d < |fs.inodes| && SizeFits(fs.inodes[d]) && fs.inodes[d].size == 0 && High(fs, d) == 0
      && Nb(fs.inodes[d]) == 0
    ensures FindBlank(Dir(fs, d)) == |Dir(fs, d)| && (SpaceFor(fs, d) <==> FreeCount(fs) >= 8)
  {
    hide High, FreeCount, NeedTo, Size2Nblocks, Contents, Entries;
    EightCost();
    assert Dir(fs, d) == [];
  }

  /** On a disk of 6 blocks the first create fails, because a directory grows by eight
      blocks, and leaves an inode that counts a link and that no entry names. */
  lemma CreateWastesExample(c: Byte)
    requires c != 0
    ensures var fs := FreshDisk(6, 3);
            var (fs1, r) := Create(fs, 1, [c]);
            Linked(fs) && r == NOSPACE && !Linked(fs1) && FindFreeInode(fs.inodes, 2) == 2
  {
    hide FreshDisk, Linked, High, FreeCount, Create, Dirs, Dir, SpaceFor;
    var fs := FreshDisk(6, 3);
    FreshLinked(6, 3);
    FreshCounts(6, 3, 1);
    FreshCounts(6, 3, 2);
    EmptySpace(fs, 1);
    CreateKeeps(fs, 1, [c]);
  }

  /** The first create on a fresh disk takes eight blocks for the directory. */
  lemma FirstCreateCounts(fs: Fs, name: seq<Byte>)
    requires Linked(fs) && IsDir(fs, 1) && 0 !in name && Create(fs, 1, name).1 == Success
    requires fs.inodes[1].size == 0 && High(fs, 1) == 0 && Nb(fs.inodes[1]) == 0 && FreeCount(fs) >= 8
    requires FindFreeInode(fs.inodes, 2) != 0
    ensures var fs1 := Create(fs, 1, name).0;
            FreeCount(fs1) == FreeCount(fs) - 8 && |fs1.inodes| == |fs.inodes|
            && fs1.inodes[FindFreeInode(fs.inodes, 2)].size == 0
  {
    hide Counted, Sane, High, FreeCount, Contents, Entries, Inv, Find, WithEntry, EntryBytes, Resize;
    SaneFit(fs);
    ClaimSane(fs, 1);
    var f, fs0 := FindFreeInode(fs.inodes, 2), Claimed(fs);
    SaneFit(fs0);
    SetLinks(fs, f, 1);
    FirstGrowth(fs0);
    ResizeOther(fs0, 1, 8192);
    var fs1 := Resize(fs0, 1, 8192).0;
    EntryTrees(fs1, 1, 1, EntryBytes(f, Cut(name)));
    assert Dir(fs0, 1) == [];
  }

  lemma EightMoreCost(free: nat)
    requires free >= 8
    ensures Cost(0) == 0 && Cost(8) == 8 && Lost(0, 0, 8) == 0 && NewHigh(0, 0, 8, free) == 8 && !DanglesAt(0, 0, free)
  {
  }

  lemma FirstGrowth(fs: Fs)
    requires Inv(fs) && 1 < |fs.inodes| && SizeFits(fs.inodes[1]) && fs.inodes[1].size == 0
    requires High(fs, 1) == 0 && FreeCount(fs) >= 8
    ensures var fs1 := Resize(fs, 1, 8192).0;
            Inv(fs1) && |fs1.inodes| == |fs.inodes| && fs1.inodes[1].size == 8192 && FreeCount(fs1) == FreeCount(fs) - 8
  {
    EightCost();
    EightMoreCost(FreeCount(fs));
    hide Inv, Resize, High, FreeCount, TotalCost, Leaked, Frame, NeedTo, NewHigh, Cost, Lost, Size2Nblocks;
    assert SafeCall(fs, 1, 8192);
    ResizeOther(fs, 1, 8192);
    ResizeEffect(fs, 1, 8192);
  }

  /** The file grows to one block, in a sound file system. */
  lemma CreatedGrows(fs0: Fs, fs: Fs, name: seq<Byte>)
    requires Linked(fs) && OneMore(fs0, fs, 1, name, 2) && |fs0.inodes| == 4 && fs0.inodes[2].nlink == 0
    requires IsDir(fs0, 1) && Names(Dirs(fs0)[1]) == map[]
    requires fs0.inodes[2].ftype == FTYPE_REG && fs.inodes[2].size == 0 && FreeCount(fs) >= 3
    ensures var (fs2, r2) := Resize(fs, 2, 1024);
            && r2 == OK && Linked(fs2) && |fs2.inodes| == 4 && fs2.inodes[2].size == 1024 && High(fs2, 2) == 1
            && IsDir(fs2, 1) && AllFit(fs2) && Names(Dirs(fs2)[1]) == map[name := 2]
            && fs2.inodes[2].ftype == FTYPE_REG && fs2.inodes[2].nlink == 1
  {
    hide Resize, Names, Dirs, Contents, Entries, Inv, FreeCount, Counted;
    assert High(fs, 2) <= 1;
    hide High;
    GrowsByOne(fs, 2);
    ResizeKeeps(fs, 2, 1024);
  }

  /** Its one name goes. */
  lemma LastUnlink(fs: Fs, name: seq<Byte>)
    requires Linked(fs) && IsDir(fs, 1) && |fs.inodes| == 4 && SizeFits(fs.inodes[1]) && AllFit(fs)
    requires Names(Dirs(fs)[1]) == map[name := 2] && fs.inodes[2].ftype == FTYPE_REG && fs.inodes[2].nlink == 1
    requires fs.inodes[2].size == 1024 && High(fs, 2) == 1
    ensures var (fs3, r3) := Unlink(fs, 1, name);
            && r3 == Success && Linked(fs3) && |fs3.inodes| == 4 && fs3.inodes[2].nlink == 0
            && fs3.inodes[2].size == 0 && High(fs3, 2) == 1 && FreeCount(fs3) == FreeCount(fs)
  {
    hide Unlink, Linked, Names, Dirs, High, FreeCount;
    assert Nb(fs.inodes[2]) == 1;
    UnlinkKeeps(fs, 1, name);
  }

  /** A file with one block and one name is created on a fresh disk and unlinked: it is an unused
      inode of size 0, and its block is not free. */
  lemma UnlinkKeepsBlockExample(c: Byte)
    requires c != 0
    ensures var fs0 := FreshDisk(20, 4);
            var (fs1, r1) := Create(fs0, 1, [c]);
            && Linked(fs0) && r1 == Success && 2 < |fs1.inodes|
            && var (fs2, r2) := Resize(fs1, 2, 1024);
            && r2 == OK && Linked(fs2) && 1 < |fs2.inodes| && SizeFits(fs2.inodes[1])
            && var (fs3, r3) := Unlink(fs2, 1, [c]);
            && r3 == Success && Linked(fs3) && |fs3.inodes| == 4 && fs3.inodes[2].nlink == 0
            && fs3.inodes[2].size == 0 && High(fs3, 2) == 1 && FreeCount(fs3) == FreeCount(fs2)
  {
    hide FreshDisk, Linked, Create, Dirs, Dir, SpaceFor, High, FreeCount, Resize, Unlink, SafeCall, Names;
    var fs0, name := FreshDisk(20, 4), [c];
    FreshLinked(20, 4);
    FreshCounts(20, 4, 1);
    FreshCounts(20, 4, 2);
    EmptySpace(fs0, 1);
    CreateKeeps(fs0, 1, name);
    FirstCreateCounts(fs0, name);
    var fs1 := Create(fs0, 1, name).0;
    CreatedGrows(fs0, fs1, name);
    var fs2 := Resize(fs1, 2, 1024).0;
    LastUnlink(fs2, name);
  }

  /** A create that grew the directory used its second new entry; the first is still blank. */
  lemma CreateLeavesBlank(fs: Fs, d: nat, name: seq<Byte>)
    requires Linked(fs) && IsDir(fs, d) && 0 !in name && Create(fs, d, name).1 == Success
    requires FindBlank(Dir(fs, d)) == |Dir(fs, d)|
    ensures var fs1 := Create(fs, d, name).0; IsDir(fs1, d) && SizeFits(fs1.inodes[d]) && SpaceFor(fs1, d)
  {
    hide Inv, Contents, Entries, Blank, CanGrow, SpaceFor, EntryBytes, WithEntry, Counted, Names, WithFields, Sane;
    SaneFit(fs);
    ClaimSane(fs, d);
    var f, fs0 := FindFreeInode(fs.inodes, 2), Claimed(fs);
    SaneFit(fs0);
    assert Dir(fs0, d) == Dirs(fs0)[d] == Dirs(fs)[d] == Dir(fs, d);
    BlankExactly(fs0, d);
    BlankEffect(fs0, d);
    GrownAt(fs0, d);
    var (fs1, k, r) := Blank(fs0, d);
    EntryStored(fs1, d, k, f, Cut(name));
    var fs2 := WithEntry(fs1, d, k, EntryBytes(f, Cut(name)));
    assert Dir(fs2, d)[|Dir(fs, d)|].ino == 0;
    SpaceIf(fs2, d, |Dir(fs, d)|);
  }

  lemma GrownAt(fs: Fs, d: nat)
    requires d < |fs.inodes| && SizeFits(fs.inodes[d]) && Aligned(fs.inodes[d]) && FindBlank(Dir(fs, d)) == |Dir(fs, d)|
    ensures Blank(fs, d).1 == |Dir(fs, d)| + 1
  {
    hide Contents, Entries, FindBlank, Resize;
    assert |Dir(fs, d)| == fs.inodes[d].size / 128;
  }

  lemma EntryStored(fs: Fs, d: nat, k: nat, ino: nat, name: seq<Byte>)
    requires Inv(fs) && d < |fs.inodes| && SizeFits(fs.inodes[d]) && k < |Dir(fs, d)|
    requires ino < TWO32 && |name| <= MAXNAMELEN && 0 !in name
    ensures var fs' := WithEntry(fs, d, k, EntryBytes(ino, name));
            && Inv(fs') && fs'.inodes == fs.inodes && SizeFits(fs'.inodes[d])
            && Dir(fs', d) == Dir(fs, d)[k := Entry(ino, name)]
  {
    hide Inv, Contents, Entries, EntryBytes, WithEntry;
    assert |Dir(fs, d)| == fs.inodes[d].size / 128;
    EntryEffect(fs, d, k, EntryBytes(ino, name));
    StoreEntry(Contents(fs, d), k, ino, name);
  }

  lemma SpaceIf(fs: Fs, d: nat, k: nat)
    requires d < |fs.inodes| && SizeFits(fs.inodes[d]) && k < |Dir(fs, d)| && Dir(fs, d)[k].ino == 0
    ensures SpaceFor(fs, d)
  {
    hide Dir, NeedTo, High, FreeCount;
  }

  /** Two names of 123 and 124 bytes that agree in the first 123: both creates succeed, and
      the directory then holds one name twice. */
  lemma CreateClashExample(c: Byte)
    requires c != 0
    ensures var fs := FreshDisk(20, 4);
            var (fs1, r1) := Create(fs, 1, seq(123, _ => c));
            && Linked(fs) && r1 == Success && Linked(fs1)
            && var (fs2, r2) := Create(fs1, 1, seq(124, _ => c));
            r2 == Success && !Linked(fs2)
  {
    hide FreshDisk, Linked, High, FreeCount, Create, Dirs, Dir, SpaceFor;
    var fs, name, long := FreshDisk(20, 4), seq(123, _ => c), seq(124, _ => c);
    assert Cut(name) == name && Cut(long) == name;
    FreshLinked(20, 4);
    FreshCounts(20, 4, 1);
    FreshCounts(20, 4, 2);
    FreshCounts(20, 4, 3);
    EmptySpace(fs, 1);
    CreateKeeps(fs, 1, name);
    CreateLeavesBlank(fs, 1, name);
    ClashSecond(fs, Create(fs, 1, name).0, name, long);
  }

  /** The second of the two creates. */
  lemma ClashSecond(fs: Fs, fs1: Fs, name: seq<Byte>, long: seq<Byte>)
    requires Linked(fs1) && OneMore(fs, fs1, 1, name, 2) && Names(Dirs(fs)[1]) == map[] && IsDir(fs1, 1)
    requires |fs.inodes| == 4 && fs.inodes[2].nlink == 0 && fs.inodes[3].nlink == 0
    requires SizeFits(fs1.inodes[1]) && SpaceFor(fs1, 1) && 0 !in long && long != name && Cut(long) == name
    ensures Create(fs1, 1, long).1 == Success && !Linked(Create(fs1, 1, long).0)
  {
    hide Linked, Create, Dirs, Dir, SpaceFor, Names;
    assert FindFreeInode(fs1.inodes, 2) == 3;
    assert Names(Dirs(fs1)[1]) == map[name := 2];
    CreateKeeps(fs1, 1, long);
  }
}
