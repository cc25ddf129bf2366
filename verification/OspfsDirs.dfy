/** Directories of OSPFS: 128-byte entries in a directory's bytes, and the entry-level
    work of find_direntry, create_blank_direntry, ospfs_link, ospfs_create and
    ospfs_unlink as functions of the file system. */
module OspfsDirs {
  import opened OspfsDisk
  import opened OspfsTree
  import opened OspfsSpec
  import opened OspfsInv
  import opened OspfsBlocks
  import opened OspfsResize
  import opened OspfsChangeSize
  import opened OspfsBytes

  const DIRENTRY_SIZE: nat := 128
  const MAXNAMELEN: nat := 123
  const NEWBYTES: nat := 8192 // what create_blank_direntry adds: OSPFS_BLKBITSIZE bytes

  /** A directory entry; ino 0 when it is blank. */
  datatype Entry = Entry(ino: nat, name: seq<Byte>)

  /** strlen bounds the name. */
  function CString(s: seq<Byte>): (r: seq<Byte>)
    ensures |r| <= |s| && 0 !in r
  {
    if s == [] || s[0] == 0 then [] else [s[0]] + CString(s[1..])
  }

  function LowFour(s: seq<Byte>): nat
    requires |s| >= 4
  {
    var b0: int, b1: int, b2: int, b3: int := s[0], s[1], s[2], s[3];
    b0 + 0x100 * b1 + 0x1_0000 * b2 + 0x100_0000 * b3
  }

  function FourBytes(x: nat): (s: seq<Byte>)
    requires x < TWO32
    ensures |s| == 4 && LowFour(s) == x
  {
    BytesOfWord(x);
    [x % 256, x / 0x100 % 256, x / 0x1_0000 % 256, x / 0x100_0000]
  }

  function EntryAt(c: seq<Byte>, k: nat): Entry
    requires 128 * k + 128 <= |c|
  {
    Entry(LowFour(c[128 * k..128 * k + 4]), CString(c[128 * k + 4..128 * k + 128]))
  }

  function Entries(c: seq<Byte>): (es: seq<Entry>)
    ensures |es| == |c| / 128
  {
    seq(|c| / 128, k requires 0 <= k < |c| / 128 => EntryAt(c, k))
  }

  /** What ospfs_link and ospfs_create store: inode number, name, and a null byte. */
  function EntryBytes(ino: nat, name: seq<Byte>): (s: seq<Byte>)
    requires ino < TWO32
    ensures |s| == |name| + 5
  {
    FourBytes(ino) + name + [0]
  }

  function Patch(c: seq<Byte>, i: nat, s: seq<Byte>): (r: seq<Byte>)
    requires i + |s| <= |c|
    ensures |r| == |c|
  {
    c[..i] + s + c[i + |s|..]
  }

  lemma {:induction false} CStringOf(name: seq<Byte>, rest: seq<Byte>)
    requires 0 !in name
    ensures CString(name + [0] + rest) == name
  {
    if name != [] {
      assert (name + [0] + rest)[1..] == name[1..] + [0] + rest;
      assert name[0] in name;
      CStringOf(name[1..], rest);
    }
  }

  lemma OtherEntry(c: seq<Byte>, k: nat, s: seq<Byte>, j: nat)
    requires |s| <= 128 && 128 * k + 128 <= |c| && 128 * j + 128 <= |c| && j != k
    ensures EntryAt(Patch(c, 128 * k, s), j) == EntryAt(c, j)
  {
    var r := Patch(c, 128 * k, s);
    assert r[128 * j..128 * j + 4] == c[128 * j..128 * j + 4];
    assert r[128 * j + 4..128 * j + 128] == c[128 * j + 4..128 * j + 128];
  }

  /** Storing an entry changes that entry of the directory and no other. */
  lemma StoreEntry(c: seq<Byte>, k: nat, ino: nat, name: seq<Byte>)
    requires 128 * k + 128 <= |c| && ino < TWO32 && |name| <= MAXNAMELEN && 0 !in name
    ensures Entries(Patch(c, 128 * k, EntryBytes(ino, name))) == Entries(c)[k := Entry(ino, name)]
  {
    var s := EntryBytes(ino, name);
    var r := Patch(c, 128 * k, s);
    forall j: nat | j < |c| / 128 ensures Entries(r)[j] == Entries(c)[k := Entry(ino, name)][j] {
      if j != k {
        OtherEntry(c, k, s, j);
      } else {
        assert r[128 * k..128 * k + 4] == FourBytes(ino);
        var rest := c[128 * k + |s|..128 * k + 128];
        assert r[128 * k + 4..128 * k + 128] == name + [0] + rest;
        CStringOf(name, rest);
      }
    }
  }

  /** Clearing od_ino blanks that entry. */
  lemma ClearEntry(c: seq<Byte>, k: nat)
    requires 128 * k + 128 <= |c|
    ensures Entries(Patch(c, 128 * k, FourBytes(0))) == Entries(c)[k := Entry(0, Entries(c)[k].name)]
  {
    var r := Patch(c, 128 * k, FourBytes(0));
    forall j: nat | j < |c| / 128 ensures Entries(r)[j] == Entries(c)[k := Entry(0, Entries(c)[k].name)][j] {
      if j != k {
        OtherEntry(c, k, FourBytes(0), j);
      } else {
        assert r[128 * k..128 * k + 4] == FourBytes(0);
        assert r[128 * k + 4..128 * k + 128] == c[128 * k + 4..128 * k + 128];
      }
    }
  }

  /** Bytes added to a directory are zero, so the entries they make are blank. */
  lemma GrownEntries(c: seq<Byte>, c': seq<Byte>)
    requires |c| % 128 == 0 && |c| <= |c'| && c'[..|c|] == c && forall i | |c| <= i < |c'| :: c'[i] == 0
    ensures Entries(c') == Entries(c) + seq((|c'| - |c|) / 128, _ => Entry(0, []))
  {
    forall j: nat | j < |c'| / 128
      ensures Entries(c')[j] == if j < |c| / 128 then Entries(c)[j] else Entry(0, [])
    {
      if j < |c| / 128 {
        assert c'[128 * j..128 * j + 4] == c[128 * j..128 * j + 4];
        assert c'[128 * j + 4..128 * j + 128] == c[128 * j + 4..128 * j + 128];
      }
    }
  }

  // -------------------------------------------------------------------------
  // The operations
  // -------------------------------------------------------------------------

  /** find_direntry: the first entry in use with this name, or the number of entries. */
  function Find(es: seq<Entry>, name: seq<Byte>): (k: nat)
    ensures k <= |es| && (k < |es| ==> es[k].ino != 0 && es[k].name == name)
    ensures forall j | 0 <= j < k :: !(es[j].ino != 0 && es[j].name == name)
  {
    if es == [] then 0
    else if es[0].ino != 0 && es[0].name == name then 0
    else 1 + Find(es[1..], name)
  }

  /** The first blank entry, or the number of entries. */
  function FindBlank(es: seq<Entry>): (k: nat)
    ensures k <= |es| && (k < |es| ==> es[k].ino == 0) && forall j | 0 <= j < k :: es[j].ino != 0
  {
    if es == [] then 0 else if es[0].ino == 0 then 0 else 1 + FindBlank(es[1..])
  }

  /** find_free_inode; 0 when there is none. */
  function FindFreeInode(inodes: seq<Inode>, i: nat): (f: nat)
    ensures f == 0 || (i <= f < |inodes| && inodes[f].nlink == 0 && forall j | i <= j < f :: inodes[j].nlink != 0)
    ensures f == 0 && i > 0 ==> forall j | i <= j < |inodes| :: inodes[j].nlink != 0
    decreases |inodes| - i
  {
    if i >= |inodes| then 0 else if inodes[i].nlink == 0 then i else FindFreeInode(inodes, i + 1)
  }

  datatype Errno = Success | ENAMETOOLONG | EEXIST | NOSPACE | ENOENT

  ghost function Dir(fs: Fs, d: nat): seq<Entry>
    requires d < |fs.inodes| && SizeFits(fs.inodes[d])
  {
    Entries(Contents(fs, d))
  }

  /** create_blank_direntry: the file system and the blank entry.  A full directory grows
      by eight blocks and its second new entry is taken. */
  ghost function Blank(fs: Fs, d: nat): (Fs, nat, Status)
    requires d < |fs.inodes| && SizeFits(fs.inodes[d])
  {
    var es := Dir(fs, d);
    var k := FindBlank(es);
    if k < |es| then (fs, k, OK)
    else
      var (fs1, r) := Resize(fs, d, (fs.inodes[d].size + NEWBYTES) % TWO32);
      (fs1, (fs.inodes[d].size + DIRENTRY_SIZE) / DIRENTRY_SIZE, r)
  }

  /** Size, type and link count of an inode. */
  ghost function WithFields(fs: Fs, f: nat, size: Word32, ftype: nat, nlink: nat): Fs
    requires f < |fs.inodes|
  {
    fs.(inodes := fs.inodes[f := fs.inodes[f].(size := size, ftype := ftype, nlink := nlink)])
  }

  /** Bytes stored at the start of entry k of a directory. */
  ghost function WithEntry(fs: Fs, d: nat, k: nat, bytes: seq<Byte>): Fs
    requires d < |fs.inodes| && |bytes| <= DIRENTRY_SIZE
  {
    if k / 8 >= MAXFILEBLKS then fs
    else
      assert 128 * k / 1024 == k / 8 && 128 * k % 1024 == 128 * (k % 8);
      WithBytes(fs, d, 128 * k, bytes)
  }

  ghost function Link(fs: Fs, src: nat, d: nat, name: seq<Byte>): (Fs, Errno)
    requires src < |fs.inodes| < TWO32 && d < |fs.inodes| && SizeFits(fs.inodes[d])
  {
    if |name| > MAXNAMELEN then (fs, ENAMETOOLONG)
    else if Find(Dir(fs, d), name) < |Dir(fs, d)| then (fs, EEXIST)
    else
      var (fs1, k, r) := Blank(fs, d);
      if r != OK then (fs1, NOSPACE)
      else
        var fs2 := WithEntry(fs1, d, k, EntryBytes(src, name));
        (WithFields(fs2, src, fs2.inodes[src].size, fs2.inodes[src].ftype, fs2.inodes[src].nlink + 1), Success)
  }

  /** The inode is claimed before the entry is looked for; long names are cut. */
  ghost function Create(fs: Fs, d: nat, name: seq<Byte>): (Fs, Errno)
    requires d < |fs.inodes| < TWO32 && SizeFits(fs.inodes[d])
  {
    if Find(Dir(fs, d), name) < |Dir(fs, d)| then (fs, EEXIST)
    else
      var f := FindFreeInode(fs.inodes, 2);
      if f == 0 then (fs, NOSPACE)
      else
        var fs0 := WithFields(fs, f, 0, FTYPE_REG, 1);
        if !SizeFits(fs0.inodes[d]) then (fs0, NOSPACE)
        else
          var (fs1, k, r) := Blank(fs0, d);
          if r != OK then (fs1, NOSPACE)
          else (WithEntry(fs1, d, k, EntryBytes(f, Cut(name))), Success)
  }

  function Cut(name: seq<Byte>): (r: seq<Byte>)
    ensures |r| <= MAXNAMELEN
  {
    if |name| > MAXNAMELEN then name[..MAXNAMELEN] else name
  }

  /** Unlinking the file that an entry of this name refers to. */
  ghost function Unlink(fs: Fs, d: nat, name: seq<Byte>): (Fs, Errno)
    requires d < |fs.inodes| && SizeFits(fs.inodes[d])
  {
    var es := Dir(fs, d);
    var k := Find(es, name);
    if k == |es| then (fs, ENOENT)
    else
      var f := es[k].ino;
      if f >= |fs.inodes| || fs.inodes[f].nlink == 0 then (fs, ENOENT)
      else
        var fs1 := WithEntry(fs, d, k, FourBytes(0));
        var oi := fs1.inodes[f];
        var fs2 := WithFields(fs1, f, oi.size, oi.ftype, oi.nlink - 1);
        if oi.ftype != FTYPE_SYMLINK && oi.nlink == 1 then (Resize(fs2, f, 0).0, Success) else (fs2, Success)
  }

  // -------------------------------------------------------------------------
  // Their effect on the contents of all files
  // -------------------------------------------------------------------------

  /** Every file other than f has the bytes it had. */
  ghost predicate SameBut(fs: Fs, fs': Fs, f: nat) {
    && |fs'.inodes| == |fs.inodes|
    && forall g | 0 <= g < |fs.inodes| && g != f ::
         SizeFits(fs.inodes[g]) && SizeFits(fs'.inodes[g]) && Contents(fs', g) == Contents(fs, g)
  }

  /** Type and link count play no part in the trees. */
  lemma FieldsInv(fs: Fs, f: nat, ftype: nat, nlink: nat)
    requires Inv(fs) && f < |fs.inodes|
    ensures var fs' := WithFields(fs, f, fs.inodes[f].size, ftype, nlink);
            && Inv(fs') && SameBut(fs, fs', f) && FreeCount(fs') == FreeCount(fs)
            && SizeFits(fs.inodes[f]) && Contents(fs', f) == Contents(fs, f)
            && (forall g | 0 <= g < |fs.inodes| :: High(fs', g) == High(fs, g))
  {
    hide FileByte, InvW, At;
    var own :| InvW(fs, own);
    var fs' := WithFields(fs, f, fs.inodes[f].size, ftype, nlink);
    forall g, r | 0 <= g < |fs.inodes| && IsRole(r)
      ensures A(fs'.vol, fs'.inodes, g, r) == A(fs.vol, fs.inodes, g, r)
    {
      FieldsTree(fs.vol, fs.inodes[g], fs'.inodes[g], r);
    }
    hide A;
    SameTrees(fs, own, fs');
    forall g | 0 <= g < |fs.inodes|
      ensures SizeFits(fs.inodes[g]) && SizeFits(fs'.inodes[g]) && Contents(fs', g) == Contents(fs, g)
    {
      InvSize(fs, g);
      SameBytes(fs, fs', g);
    }
  }

  lemma SameBytes(fs: Fs, fs': Fs, g: nat)
    requires g < |fs.inodes| == |fs'.inodes| && fs'.vol == fs.vol && fs'.inodes[g].size == fs.inodes[g].size
    requires SizeFits(fs.inodes[g])
    requires forall r | IsRole(r) :: A(fs'.vol, fs'.inodes, g, r) == A(fs.vol, fs.inodes, g, r)
    ensures SizeFits(fs'.inodes[g]) && Contents(fs', g) == Contents(fs, g)
  {
    forall i | 0 <= i < fs.inodes[g].size
      ensures FileByte(fs'.vol, fs'.inodes[g], i) == FileByte(fs.vol, fs.inodes[g], i)
    {
      InBlock(i, Nb(fs.inodes[g]));
      assert A(fs'.vol, fs'.inodes, g, Data(i / BLKSIZE)) == A(fs.vol, fs.inodes, g, Data(i / BLKSIZE));
    }
  }

  lemma SameTrees(fs: Fs, own: Owners, fs': Fs)
    requires InvW(fs, own) && fs'.vol == fs.vol && |fs'.inodes| == |fs.inodes|
    requires forall g | 0 <= g < |fs.inodes| :: fs'.inodes[g].size == fs.inodes[g].size
    requires forall g, r | 0 <= g < |fs.inodes| && IsRole(r) ::
      A(fs'.vol, fs'.inodes, g, r) == A(fs.vol, fs.inodes, g, r)
    ensures InvW(fs', own) && Highs(fs') == Highs(fs)
    ensures forall g | 0 <= g < |fs.inodes| :: High(fs', g) == High(fs, g)
  {
    hide A, Cost, Free;
    forall g | 0 <= g < |fs.inodes|
      ensures SizeFits(fs'.inodes[g]) && High(fs', g) == High(fs, g) && Shape(fs'.vol, fs'.inodes, g, High(fs', g))
    {
      assert SizeFits(fs.inodes[g]) && Shape(fs.vol, fs.inodes, g, High(fs, g));
    }
    assert Highs(fs') == Highs(fs);
    assert forall p | p in own :: A(fs.vol, fs.inodes, own[p].file, own[p].role) == p;
    assert Core(fs'.vol, fs'.inodes, own, DataStart(fs'));
  }

  lemma WrotePatch(fs: Fs, fs': Fs, d: nat, i: nat, s: seq<Byte>)
    requires d < |fs.inodes| && Wrote(fs, fs', d, i, s) && i + |s| <= fs.inodes[d].size
    requires forall g | 0 <= g < |fs.inodes| :: SizeFits(fs.inodes[g])
    ensures Contents(fs', d) == Patch(Contents(fs, d), i, s) && SameBut(fs, fs', d)
  {
    hide FileByte;
    forall g | 0 <= g < |fs.inodes| && g != d ensures Contents(fs', g) == Contents(fs, g) {
      forall j | 0 <= j < fs.inodes[g].size
        ensures FileByte(fs'.vol, fs'.inodes[g], j) == FileByte(fs.vol, fs.inodes[g], j)
      {
        InBlock(j, Nb(fs.inodes[g]));
      }
    }
    var c, c' := Contents(fs, d), Contents(fs', d);
    forall j | 0 <= j < |c| ensures c'[j] == Patch(c, i, s)[j] {
      InBlock(j, Nb(fs.inodes[d]));
      assert FileByte(fs'.vol, fs'.inodes[d], j) == if i <= j < i + |s| then s[j - i]
        else FileByte(fs.vol, fs.inodes[d], j);
    }
  }

  /** Bytes stored within one block of a file change those bytes only. */
  lemma BytesEffect(fs: Fs, f: nat, i: nat, s: seq<Byte>)
    requires Inv(fs) && f < |fs.inodes| && i + |s| <= fs.inodes[f].size && i < fs.inodes[f].size
    requires i % BLKSIZE + |s| <= BLKSIZE
    ensures SizeFits(fs.inodes[f]) && i / BLKSIZE < MAXFILEBLKS
    ensures var fs' := WithBytes(fs, f, i, s);
            && Inv(fs') && fs'.inodes == fs.inodes && fs'.vol.free == fs.vol.free
            && Contents(fs', f) == Patch(Contents(fs, f), i, s) && SameBut(fs, fs', f)
  {
    hide FileByte, At, Core, Cost;
    var own :| InvW(fs, own);
    forall g | 0 <= g < |fs.inodes| ensures SizeFits(fs.inodes[g]) { InvSize(fs, g); }
    InBlock(i, Nb(fs.inodes[f]));
    hide InvW, WithBytes, Contents, SameBut, Patch, Wrote;
    var fs' := WithBytes(fs, f, i, s);
    WroteNothing(fs, f, i);
    WroteStep(fs, fs, own, f, i, [], s);
    assert [] + s == s;
    WrotePatch(fs, fs', f, i, s);
  }

  /** Bytes stored at an entry change those bytes of the directory only. */
  lemma EntryEffect(fs: Fs, d: nat, k: nat, s: seq<Byte>)
    requires Inv(fs) && d < |fs.inodes| && 128 * k + 128 <= fs.inodes[d].size && |s| <= 128
    ensures var fs' := WithEntry(fs, d, k, s);
            && Inv(fs') && fs'.inodes == fs.inodes && fs'.vol.free == fs.vol.free
            && SizeFits(fs.inodes[d]) && Contents(fs', d) == Patch(Contents(fs, d), 128 * k, s) && SameBut(fs, fs', d)
  {
    hide WithBytes, Contents, Inv, SameBut;
    assert 128 * k / 1024 == k / 8 && 128 * k % 1024 == 128 * (k % 8);
    BytesEffect(fs, d, 128 * k, s);
  }

  /** An entry stored in a directory moves no pointer and no free block. */
  lemma EntryTrees(fs: Fs, d: nat, k: nat, s: seq<Byte>)
    requires Inv(fs) && d < |fs.inodes| && 128 * k + 128 <= fs.inodes[d].size && |s| <= 128
    ensures var fs' := WithEntry(fs, d, k, s);
            && fs'.inodes == fs.inodes && FreeCount(fs') == FreeCount(fs)
            && forall g | 0 <= g < |fs.inodes| :: High(fs', g) == High(fs, g)
  {
    hide At, Core, Cost, FileByte;
    var own :| InvW(fs, own);
    InvSize(fs, d);
    InBlock(128 * k, Nb(fs.inodes[d]));
    assert 128 * k / 1024 == k / 8 && 128 * k % 1024 == 128 * (k % 8);
    var q := A(fs.vol, fs.inodes, d, Data(k / 8));
    BlockWrite(fs, own, d, k / 8, ZeroBlock());
    BlockWrite(fs, own, d, k / 8, Splice(fs.vol.disk[q], 128 * (k % 8), s));
  }

  /** A resize keeps the bytes below both sizes, and all other files. */
  lemma FrameContents(fs: Fs, f: nat, want: Word32)
    requires Inv(fs) && f < |fs.inodes| && SafeCall(fs, f, want)
    ensures var (fs', r) := Resize(fs, f, want);
            && Inv(fs') && SameBut(fs, fs', f) && SizeFits(fs.inodes[f]) && SizeFits(fs'.inodes[f])
            && (forall g | 0 <= g < |fs.inodes| && g != f :: fs'.inodes[g] == fs.inodes[g])
            && fs'.inodes[f].size == (if r == OK then want else fs.inodes[f].size)
            && (want >= fs.inodes[f].size ==>
                  fs'.inodes[f].size >= fs.inodes[f].size && Contents(fs', f)[..fs.inodes[f].size] == Contents(fs, f))
  {
    hide FileByte, At, Core, Cost, ChangeSize, A, Blk, High, TotalCost, Leaked, FreeCount, Need, NeedTo;
    var (fs', r) := Resize(fs, f, want);
    var own :| InvW(fs, own);
    ResizeEffect(fs, f, want);
    var n, t := Nb(fs.inodes[f]), Size2Nblocks(want);
    var k := if r == OK && t < n then t + 1 else n;
    forall g | 0 <= g < |fs.inodes| ensures SizeFits(fs.inodes[g]) { InvSize(fs, g); }
    forall g | 0 <= g < |fs'.inodes| ensures SizeFits(fs'.inodes[g]) { InvSize(fs', g); }
    forall g | 0 <= g < |fs.inodes| && g != f
      ensures Contents(fs', g) == Contents(fs, g)
    {
      forall i | 0 <= i < fs.inodes[g].size
        ensures FileByte(fs'.vol, fs'.inodes[g], i) == FileByte(fs.vol, fs.inodes[g], i)
      {
        InBlock(i, Nb(fs.inodes[g]));
        KeptByte(fs, own, f, k, fs', g, i);
      }
    }
    if want >= fs.inodes[f].size {
      SizeOfBlocks(want);
      BlocksMonotone(fs.inodes[f].size, want);
      var c, c' := Contents(fs, f), Contents(fs', f);
      forall i | 0 <= i < fs.inodes[f].size ensures c'[i] == c[i] {
        InBlock(i, n);
        KeptByte(fs, own, f, k, fs', f, i);
      }
    }
  }

  // change_size leaves type and link count alone.
  lemma AddMeta(v: Vol, oi: Inode, n: nat)
    requires n < MAXFILEBLKS
    ensures SameMeta(AddAt(v, oi, n).1, oi)
  {
    hide At, FirstFree, Word, Poke;
  }

  lemma RemoveMeta(v: Vol, oi: Inode, n: nat)
    requires n < MAXFILEBLKS
    ensures SameMeta(RemoveAt(v, oi, n).1, oi)
  {
    hide At, FirstFree, Word, Poke;
  }

  lemma {:induction false} GrowMeta(v: Vol, oi: Inode, target: nat)
    requires target <= 4194303
    ensures SameMeta(Grow(v, oi, target).1, oi)
    decreases target - Nb(oi)
  {
    hide AddAt;
    if Nb(oi) < target && Nb(oi) < MAXFILEBLKS {
      AddMeta(v, oi, Nb(oi));
      var (v1, oi1, ok) := AddBlock(v, oi);
      if ok {
        NblocksStep(oi.size);
        BlockOpsKeepSize(v, oi, Nb(oi));
        GrowMeta(v1, oi1, target);
      }
    }
  }

  lemma {:induction false} ShrinkMeta(v: Vol, oi: Inode, target: nat)
    ensures SameMeta(Shrink(v, oi, target).1, oi)
    decreases Nb(oi)
  {
    hide RemoveAt;
    if Nb(oi) > target {
      NblocksStep(oi.size);
      if Nb(oi) < MAXFILEBLKS {
        RemoveMeta(v, oi, Nb(oi));
        BlockOpsKeepSize(v, oi, Nb(oi));
      }
      var (v1, oi1) := RemoveBlock(v, oi);
      ShrinkMeta(v1, oi1, target);
    }
  }

  lemma ResizeMeta(fs: Fs, f: nat, want: Word32)
    requires f < |fs.inodes|
    ensures SameMeta(Resize(fs, f, want).0.inodes[f], fs.inodes[f])
  {
    NblocksStep(want);
    GrowMeta(fs.vol, fs.inodes[f], Size2Nblocks(want));
    hide Grow, Shrink;
    var (v1, oi1, ok) := Grow(fs.vol, fs.inodes[f], Size2Nblocks(want));
    ShrinkMeta(v1, oi1, Nb(fs.inodes[f]));
    ShrinkMeta(v1, oi1, Size2Nblocks(want));
  }

  /** The directory's size is a whole number of blocks. */
  predicate Aligned(oi: Inode) { oi.size % BLKSIZE == 0 }

  /** Growing this directory, if it has no blank entry, does not dangle. */
  ghost predicate CanGrow(fs: Fs, d: nat)
    requires d < |fs.inodes| && SizeFits(fs.inodes[d])
  {
    FindBlank(Dir(fs, d)) == |Dir(fs, d)| ==> !Dangles(fs, d, (fs.inodes[d].size + NEWBYTES) % TWO32)
  }

  /** The directory has a blank entry, or there are blocks for eight more of its own. */
  ghost predicate SpaceFor(fs: Fs, d: nat)
    requires d < |fs.inodes| && SizeFits(fs.inodes[d])
  {
    || FindBlank(Dir(fs, d)) < |Dir(fs, d)|
    || NeedTo(Nb(fs.inodes[d]), High(fs, d), Size2Nblocks((fs.inodes[d].size + NEWBYTES) % TWO32)) <= FreeCount(fs)
  }

  /** create_blank_direntry succeeds exactly when there is space. */
  lemma BlankExactly(fs: Fs, d: nat)
    requires Inv(fs) && d < |fs.inodes| && SizeFits(fs.inodes[d])
    ensures Blank(fs, d).2 == OK <==> SpaceFor(fs, d)
    ensures SpaceFor(fs, d) ==> CanGrow(fs, d)
  {
    hide Inv, Contents, Entries, ChangeSize, FindBlank, Dangles, NeedTo, High, FreeCount, Frame, Leaked, TotalCost;
    var want := (fs.inodes[d].size + NEWBYTES) % TWO32;
    if FindBlank(Dir(fs, d)) == |Dir(fs, d)| {
      if Dangles(fs, d, want) {
        DanglesFails(fs, d, want);
        DanglesNeeds(fs, d, want);
      } else {
        ResizeEffect(fs, d, want);
      }
    }
  }

  function Blanks(n: nat): seq<Entry> { seq(n, _ => Entry(0, [])) }

  /** What create_blank_direntry leaves: the directory's entries, perhaps with 64 blank
      ones after them, and all other files as they were. */
  lemma BlankEffect(fs: Fs, d: nat)
    requires Inv(fs) && d < |fs.inodes| && Aligned(fs.inodes[d]) && SizeFits(fs.inodes[d]) && CanGrow(fs, d)
    ensures var (fs1, k, r) := Blank(fs, d);
            && Inv(fs1) && SameBut(fs, fs1, d) && SameMeta(fs1.inodes[d], fs.inodes[d]) && SizeFits(fs1.inodes[d])
            && (forall g | 0 <= g < |fs.inodes| && g != d :: fs1.inodes[g] == fs.inodes[g])
            && Aligned(fs1.inodes[d])
            && (r == OK ==> k < |Dir(fs1, d)| && Dir(fs1, d)[k].ino == 0
                            && (Dir(fs1, d) == Dir(fs, d) || Dir(fs1, d) == Dir(fs, d) + Blanks(64)))
            && (r == OK ==> if forall e <- Dir(fs, d) :: e.ino != 0 then k == |Dir(fs, d)| + 1
                            else Dir(fs1, d) == Dir(fs, d) && forall j | 0 <= j < k :: Dir(fs, d)[j].ino != 0)
            && (r != OK ==> Dir(fs1, d) == Dir(fs, d))
  {
    hide Inv, ChangeSize, Dangles, FileByte, Resize, Contents, Entries;
    if FindBlank(Dir(fs, d)) == |Dir(fs, d)| {
      BlankGrows(fs, d);
    } else {
      forall g | 0 <= g < |fs.inodes| ensures SizeFits(fs.inodes[g]) { InvSize(fs, g); }
    }
  }

  lemma BlankGrows(fs: Fs, d: nat)
    requires Inv(fs) && d < |fs.inodes| && Aligned(fs.inodes[d]) && SizeFits(fs.inodes[d])
    requires FindBlank(Dir(fs, d)) == |Dir(fs, d)| && CanGrow(fs, d)
    ensures var (fs1, k, r) := Blank(fs, d);
            && Inv(fs1) && SameBut(fs, fs1, d) && SameMeta(fs1.inodes[d], fs.inodes[d]) && SizeFits(fs1.inodes[d])
            && (forall g | 0 <= g < |fs.inodes| && g != d :: fs1.inodes[g] == fs.inodes[g])
            && Aligned(fs1.inodes[d])
            && (r == OK ==> k < |Dir(fs1, d)| && Dir(fs1, d)[k].ino == 0 && Dir(fs1, d) == Dir(fs, d) + Blanks(64)
                            && k == |Dir(fs, d)| + 1)
            && (r != OK ==> Dir(fs1, d) == Dir(fs, d))
  {
    hide Inv, ChangeSize, Dangles, FileByte, Contents, Entries;
    var size := fs.inodes[d].size;
    var want := (size + NEWBYTES) % TWO32;
    assert want == size + NEWBYTES;
    var (fs1, r) := Resize(fs, d, want);
    FrameContents(fs, d, want);
    ResizeMeta(fs, d, want);
    if r == OK {
      DirGrows(fs, d);
      NextEntry(size);
    } else {
      assert Contents(fs1, d) == Contents(fs, d);
    }
    hide Resize, SafeCall, FindBlank, Dir;
  }

  lemma NextEntry(size: nat)
    ensures (size + DIRENTRY_SIZE) / DIRENTRY_SIZE == size / 128 + 1
  {
  }

  lemma MoreBytes(c: seq<Byte>, c': seq<Byte>)
    requires |c| % BLKSIZE == 0 && |c'| == |c| + NEWBYTES && c'[..|c|] == c && forall i | |c| <= i < |c'| :: c'[i] == 0
    ensures |Entries(c)| == |c| / 128 && Entries(c') == Entries(c) + Blanks(64)
  {
    hide Entries;
    assert |c| % 128 == 0 by { assert |c| == 128 * (8 * (|c| / BLKSIZE)); }
    GrownEntries(c, c');
  }

  /** The 64 entries that a successful growth adds. */
  lemma DirGrows(fs: Fs, d: nat)
    requires Inv(fs) && d < |fs.inodes| && Aligned(fs.inodes[d]) && SizeFits(fs.inodes[d])
    requires var want := fs.inodes[d].size + NEWBYTES;
             && want < TWO32 && SafeCall(fs, d, want) && Resize(fs, d, want).1 == OK
    ensures var fs1 := Resize(fs, d, fs.inodes[d].size + NEWBYTES).0;
            && SizeFits(fs1.inodes[d]) && fs1.inodes[d].size == fs.inodes[d].size + NEWBYTES
            && |Dir(fs, d)| == fs.inodes[d].size / 128 && Dir(fs1, d) == Dir(fs, d) + Blanks(64)
  {
    hide Inv, FileByte, Entries, SafeCall, Resize;
    var want := fs.inodes[d].size + NEWBYTES;
    FrameContents(fs, d, want);
    GrownZeroes(fs, d, want);
    MoreBytes(Contents(fs, d), Contents(Resize(fs, d, want).0, d));
  }

  lemma GrownZeroes(fs: Fs, d: nat, want: Word32)
    requires Inv(fs) && d < |fs.inodes| && SafeCall(fs, d, want) && Resize(fs, d, want).1 == OK
    requires Aligned(fs.inodes[d]) && SizeFits(fs.inodes[d]) && fs.inodes[d].size <= want
    ensures var fs1 := Resize(fs, d, want).0;
            SizeFits(fs1.inodes[d]) && fs1.inodes[d].size == want
            && forall i | fs.inodes[d].size <= i < want :: Contents(fs1, d)[i] == 0
  {
    hide Inv, ChangeSize, Dangles, FileByte;
    FrameContents(fs, d, want);
    ResizeBytes(fs, d, want);
    SizeOfBlocks(want);
    hide Resize;
    var fs1 := Resize(fs, d, want).0;
    forall i | fs.inodes[d].size <= i < want ensures Contents(fs1, d)[i] == 0 {
      assert BLKSIZE * Nb(fs.inodes[d]) <= i < BLKSIZE * Size2Nblocks(want);
    }
  }

  /** Growing a directory that cannot safely grow fails, and breaks the allocator's
      invariant. */
  lemma UnsafeGrowth(fs: Fs, d: nat)
    requires Inv(fs) && d < |fs.inodes| && SizeFits(fs.inodes[d]) && !CanGrow(fs, d)
    ensures Blank(fs, d).2 == ENOSPC && !Inv(Blank(fs, d).0)
  {
    hide Contents, Entries, ChangeSize, Resize, Inv, FindBlank;
    var want := (fs.inodes[d].size + NEWBYTES) % TWO32;
    UnsafeBreaks(fs, d, want) by { assert !SafeCall(fs, d, want); }
    DanglesFails(fs, d, want);
  }
}
