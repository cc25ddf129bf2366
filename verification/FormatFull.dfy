/** A directory of 266 full blocks, and the one link that leaves the allocator unsound. */
module FormatFull {
  import opened OspfsDisk
  import opened OspfsSpec
  import opened OspfsInv
  import opened OspfsBlocks
  import opened OspfsResize
  import opened OspfsChangeSize
  import opened OspfsBytes
  import opened OspfsDirs
  import opened OspfsLinks
  import opened FormatFresh

  const ROOM: nat := 2128

  /** A different two-byte name for each entry. */
  function Label(i: nat): (name: seq<Byte>)
    requires i <= ROOM
    ensures |name| == 2 && 0 !in name
  {
    [1 + i % 255, 1 + i / 255]
  }

  lemma LabelsDiffer(i: nat, j: nat)
    requires i <= ROOM && j <= ROOM && i != j
    ensures Label(i) != Label(j)
  {
  }

  /** The first k entries name inode 2, the others are blank. */
  function Row(k: nat): (es: seq<Entry>)
    requires k <= ROOM
    ensures |es| == ROOM
  {
    seq(ROOM, i requires 0 <= i < ROOM => if i < k then Entry(2, Label(i)) else Entry(0, []))
  }

  lemma RowSearch(k: nat)
    requires k <= ROOM
    ensures FindBlank(Row(k)) == k && Find(Row(k), Label(k)) == ROOM
  {
    var es := Row(k);
    assert forall j | 0 <= j < k :: es[j].ino == 2;
    assert k < ROOM ==> es[k].ino == 0;
    var i := Find(es, Label(k));
    if i < ROOM { LabelsDiffer(i, k); }
  }

  /** The root directory has 266 blocks and k entries, all of inode 2; two blocks are free. */
  ghost predicate Filled(fs: Fs, k: nat)
    requires k <= ROOM
  {
    && Linked(fs) && |fs.inodes| == 3 && IsDir(fs, 1) && fs.inodes[1].size == 272384
    && fs.inodes[2].ftype == FTYPE_REG && (fs.inodes[2].nlink == 0 <==> k == 0)
    && High(fs, 1) == 266 && FreeCount(fs) == 2 && SizeFits(fs.inodes[1]) && Dir(fs, 1) == Row(k)
  }

  /** The call that enters the next name. */
  function Next(k: nat): Op
    requires k < ROOM
  {
    if k == 0 then DoCreate(1, Label(0)) else DoLink(2, 1, Label(k))
  }

  lemma NextAsked(fs: Fs, k: nat)
    requires k < ROOM && Filled(fs, k)
    ensures Asked(fs, Next(k)) && Safe(fs, Next(k)) && Linked(Apply(fs, Next(k)))
  {
    hide Linked, High, FreeCount, Dir;
    NoName(fs, k);
    assert FindBlank(Dir(fs, 1)) < |Dir(fs, 1)|;
    ApplyKeeps(fs, Next(k));
  }

  /** A blank entry is at hand, so nothing grows. */
  lemma Placed(fs: Fs, k: nat, name: seq<Byte>)
    requires k < ROOM && Inv(fs) && 2 < |fs.inodes| && fs.inodes[1].size == 272384 && SizeFits(fs.inodes[1])
    requires Dir(fs, 1) == Row(k) && name == Label(k)
    ensures Blank(fs, 1) == (fs, k, OK)
    ensures var fs1 := WithEntry(fs, 1, k, EntryBytes(2, name));
            && Inv(fs1) && fs1.inodes == fs.inodes && Dir(fs1, 1) == Row(k + 1)
            && High(fs1, 1) == High(fs, 1) && FreeCount(fs1) == FreeCount(fs)
  {
    hide Inv, High, FreeCount, EntryBytes, WithEntry, Contents, Entries, Find;
    RowSearch(k);
    EntryTrees(fs, 1, k, EntryBytes(2, name));
    EntryStored(fs, 1, k, 2, name);
    assert Row(k)[k := Entry(2, name)] == Row(k + 1);
  }

  /** One more name. */
  lemma FillNext(fs: Fs, k: nat)
    requires k < ROOM && Filled(fs, k)
    ensures Asked(fs, Next(k)) && Safe(fs, Next(k)) && Filled(Apply(fs, Next(k)), k + 1)
  {
    hide Inv, High, FreeCount, Dir, Counted, Blank, WithEntry, Find, EntryBytes, Asked, Safe;
    NextAsked(fs, k);
    NoName(fs, k);
    if k == 0 {
      ClaimSane(fs, 1);
      var fs0 := Claimed(fs);
      SetLinks(fs, 2, 1);
      assert Dirs(fs0)[1] == Dir(fs0, 1) && Dirs(fs)[1] == Dir(fs, 1);
      Placed(fs0, k, Label(k));
    } else {
      Placed(fs, k, Label(k));
      var fs1 := WithEntry(fs, 1, k, EntryBytes(2, Label(k)));
      forall g | 0 <= g < |fs1.inodes| ensures SizeFits(fs1.inodes[g]) { InvSize(fs1, g); }
      SetLinks(fs1, 2, fs1.inodes[2].nlink + 1);
      var fs2 := Apply(fs, Next(k));
      assert fs2 == WithFields(fs1, 2, fs1.inodes[2].size, fs1.inodes[2].ftype, fs1.inodes[2].nlink + 1);
      assert Dirs(fs2)[1] == Dirs(fs1)[1] == Dir(fs1, 1);
    }
  }

  lemma NoName(fs: Fs, k: nat)
    requires k <= ROOM && Filled(fs, k)
    ensures FindBlank(Dir(fs, 1)) == k && Find(Dir(fs, 1), Label(k)) == ROOM && !HasName(fs, 1, Label(k))
  {
    hide High, FreeCount, Dir, Inv, Counted;
    RowSearch(k);
    FindNames(Row(k), Label(k));
    assert Dirs(fs)[1] == Dir(fs, 1);
  }

  /** A root directory of 266 blank blocks on a disk of 273.  The kernel's calls grow a directory
      eight blocks at a time and never get there (FreshRunsKeepLinks), so change_size only stands
      for the formatter here, which makes a directory of 266 blocks from enough files; unlinking
      their names leaves its entries blank. */
  ghost function Presized(): Fs { Resize(FreshDisk(273, 3), 1, 272384).0 }

  lemma PresizedMeta(fs: Fs, fs1: Fs)
    requires |fs.inodes| == 3 && fs.inodes == FreshInodes(3) && fs1 == Resize(fs, 1, 272384).0
    ensures |fs1.inodes| == 3 && forall g | 0 <= g < 3 :: SameMeta(fs1.inodes[g], fs.inodes[g])
    ensures forall g | 0 <= g < 3 && g != 1 :: fs1.inodes[g] == fs.inodes[g]
  {
    hide Resize;
    ResizeOther(fs, 1, 272384);
    ResizeMeta(fs, 1, 272384);
  }

  lemma PresizedBlank(fs: Fs)
    requires Inv(fs) && |fs.inodes| == 3 && fs.inodes == FreshInodes(3)
    requires SafeCall(fs, 1, 272384) && Resize(fs, 1, 272384).1 == OK
    ensures var fs1 := Resize(fs, 1, 272384).0;
            SizeFits(fs1.inodes[1]) && Dir(fs1, 1) == Row(0)
  {
    hide Inv, Resize, SafeCall;
    FrameContents(fs, 1, 272384);
    GrownZeroes(fs, 1, 272384);
    var c := Contents(Resize(fs, 1, 272384).0, 1);
    hide Contents;
    GrownEntries([], c);
  }

  lemma PresizedFilled()
    ensures Filled(Presized(), 0)
  {
    hide FreshDisk, Inv, Resize, High, FreeCount, SafeCall;
    var fs, fs1 := FreshDisk(273, 3), Presized();
    FreshSound(273, 3);
    FreshCounts(273, 3, 1);
    FirstGrows(fs, 1);
    PresizedMeta(fs, fs1);
    FirstSafe(fs, 1);
    PresizedBlank(fs);
    forall g | 0 <= g < 3 ensures SizeFits(fs1.inodes[g]) { InvSize(fs1, g); }
    hide Dir;
    assert Dirs(fs1) == [[], Row(0), []];
    BlanksCounted(fs1.inodes, Dirs(fs1));
  }

  lemma FirstSafe(fs: Fs, f: nat)
    requires Inv(fs) && f < |fs.inodes| && Nb(fs.inodes[f]) == 0 && High(fs, f) == 0 && FreeCount(fs) == 269
    ensures SafeCall(fs, f, 272384)
  {
    hide Inv, High, FreeCount;
    assert !DanglesAt(0, 0, 269);
  }

  /** Blank entries count for nothing. */
  lemma BlanksCounted(inodes: seq<Inode>, dirs: seq<seq<Entry>>)
    requires |inodes| == |dirs| == 3 && forall g | 0 <= g < 3 :: SameMeta(inodes[g], FreshInodes(3)[g])
    requires forall d, k | 0 <= d < |dirs| && 0 <= k < |dirs[d]| :: dirs[d][k].ino == 0
    ensures Counted(inodes, dirs)
  {
    assert FreshInodes(3)[1].ftype == FTYPE_DIR && FreshInodes(3)[2].nlink == 0;
    hide FreshInodes;
    assert forall d | 0 <= d < |dirs| :: Unique(dirs[d]);
    hide Unique;
    assert Refs(dirs, 2) == {};
  }

  /** The calls that enter names k to ROOM - 1. */
  function Calls(k: nat): seq<Op>
    requires k <= ROOM
    decreases ROOM - k
  {
    if k == ROOM then [] else [Next(k)] + Calls(k + 1)
  }

  lemma {:induction false} FillAll(fs: Fs, k: nat)
    requires k <= ROOM && Filled(fs, k)
    ensures SafeRun(fs, Calls(k)) && Filled(ApplyAll(fs, Calls(k)), ROOM)
    decreases ROOM - k
  {
    hide Filled, Asked, Safe, Apply, Linked, Next;
    FilledLinked(fs, k);
    if k < ROOM {
      FillNext(fs, k);
      AskedTargets(fs, Next(k));
      FillAll(Apply(fs, Next(k)), k + 1);
      assert Calls(k) == [Next(k)] + Calls(k + 1) && Calls(k)[0] == Next(k) && Calls(k)[1..] == Calls(k + 1);
      hide Calls;
    }
  }

  lemma FilledLinked(fs: Fs, k: nat)
    requires k <= ROOM && Filled(fs, k)
    ensures Linked(fs)
  {
  }

  /** From that disk one create and 2127 links keep the directories in order.  The next link
      asks the full directory to grow, fails, and leaves an allocator that is not sound. */
  lemma LinkBreaksExample()
    ensures var ops, last := Calls(0), DoLink(2, 1, Label(ROOM));
            && Linked(Presized()) && SafeRun(Presized(), ops) && |ops| == ROOM
            && var fs := ApplyAll(Presized(), ops);
               && Linked(fs) && Asked(fs, last) && Targets(fs, last) && !CanGrow(fs, 1)
               && Link(fs, 2, 1, Label(ROOM)).1 == NOSPACE && !Linked(Apply(fs, last))
  {
    hide Presized, High, FreeCount, Dir, Link, SafeRun, ApplyAll, Linked;
    PresizedFilled();
    FillAll(Presized(), 0);
    CallsLength(0);
    LastBreaks(ApplyAll(Presized(), Calls(0)));
  }

  lemma {:induction false} CallsLength(k: nat)
    requires k <= ROOM
    ensures |Calls(k)| == ROOM - k
    decreases ROOM - k
  {
    if k < ROOM { CallsLength(k + 1); }
  }

  lemma LastBreaks(fs: Fs)
    requires Filled(fs, ROOM)
    ensures Asked(fs, DoLink(2, 1, Label(ROOM))) && Targets(fs, DoLink(2, 1, Label(ROOM))) && !CanGrow(fs, 1)
    ensures Link(fs, 2, 1, Label(ROOM)).1 == NOSPACE && !Linked(Link(fs, 2, 1, Label(ROOM)).0)
  {
    hide High, FreeCount, Dir, Link, Linked, HasName;
    NoName(fs, ROOM);
    assert (272384 + NEWBYTES) % TWO32 == 280576 && Size2Nblocks(280576) == 274 && Nb(fs.inodes[1]) == 266;
    FilledLinked(fs, ROOM);
    AskedTargets(fs, DoLink(2, 1, Label(ROOM)));
    LinkBreaks(fs, 2, 1, Label(ROOM));
  }
}
