/** The directory operations of lab3/ospfsmod.c in place, on the kernel module's arrays. */
module OspfsDirOps {
  import opened OspfsDisk
  import opened OspfsSpec
  import opened OspfsInv
  import opened OspfsBlocks
  import opened OspfsResize
  import opened OspfsChangeSize
  import opened OspfsBytes
  import opened OspfsKernel
  import opened OspfsDirs
  import opened OspfsLinks

  /** A directory whose entries can be read. */
  ghost predicate Readable(fs: Fs, d: nat) {
    Inv(fs) && IsDir(fs, d) && SizeFits(fs.inodes[d]) && Aligned(fs.inodes[d])
  }

  /** A directory entry lies in one block. */
  lemma EntryInBlock(fs: Fs, d: nat, off: nat)
    requires Readable(fs, d) && off % 128 == 0 && off < fs.inodes[d].size
    ensures off + 128 <= fs.inodes[d].size && off % BLKSIZE + 128 <= BLKSIZE && off / BLKSIZE < MAXFILEBLKS
    ensures var q := At(fs.vol.disk, fs.inodes[d], Data(off / BLKSIZE));
            && 0 < q < |fs.vol.disk| && OspfsDisk.InodeBlockno(fs.vol.disk, fs.inodes[d], off) == q
            && fs.vol.disk[q][off % BLKSIZE..off % BLKSIZE + 128] == Contents(fs, d)[off..off + 128]
  {
    hide Inv, At, Contents, OspfsDisk.InodeBlockno;
    Fits128(off, fs.inodes[d].size);
    InBlock(off, Nb(fs.inodes[d]));
    FileBlockBytes(fs, d, off, 128);
    FileBlockNotNull(fs, d, off);
    BlocknoIs(fs.vol.disk, fs.inodes[d], off);
  }

  lemma Fits128(off: nat, size: nat)
    requires off % 128 == 0 && off < size && size % 1024 == 0
    ensures off + 128 <= size && off % 1024 + 128 <= 1024 && 128 * (off / 128) == off && off / 128 < size / 128
  {
  }

  function Parse(s: seq<Byte>): Entry
    requires |s| == 128
  {
    Entry(LowFour(s[..4]), CString(s[4..]))
  }

  lemma ParseEntry(c: seq<Byte>, k: nat)
    requires 128 * k + 128 <= |c|
    ensures Parse(c[128 * k..128 * k + 128]) == EntryAt(c, k)
  {
    var s := c[128 * k..128 * k + 128];
    assert s[..4] == c[128 * k..128 * k + 4] && s[4..] == c[128 * k + 4..128 * k + 128];
  }

  /** The entry that ospfs_inode_data points to. */
  method ReadEntry(fs: Ospfs, d: nat, off: nat) returns (e: Entry)
    requires fs.Valid() && Readable(fs.Abs(), d) && off % 128 == 0 && off < fs.inodes[d].size
    ensures off / 128 < |Dir(fs.Abs(), d)| && e == Dir(fs.Abs(), d)[off / 128]
  {
    hide Inv, At, Contents, OspfsDisk.InodeBlockno, CString, LowFour;
    EntryInBlock(fs.Abs(), d, off);
    Fits128(off, fs.inodes[d].size);
    var b := fs.InodeBlockno(d, off);
    var o := off % BLKSIZE;
    ParseEntry(Contents(fs.Abs(), d), off / 128);
    e := Parse(fs.data[b][o..o + 128]);
  }

  lemma WholeEntries(size: nat)
    requires size % 1024 == 0
    ensures 128 * (size / 128) == size && size % 128 == 0
  {
  }

  lemma NextEntry(off: nat)
    requires off % 128 == 0
    ensures (off + 128) % 128 == 0 && (off + 128) / 128 == off / 128 + 1
  {
  }

  /** find_direntry: the offset of the entry, or the directory's size. */
  method FindDirentry(fs: Ospfs, d: nat, name: seq<Byte>) returns (off: nat)
    requires fs.Valid() && Readable(fs.Abs(), d)
    ensures off % 128 == 0 && off / 128 == Find(Dir(fs.Abs(), d), name) && off <= fs.inodes[d].size
    ensures off < fs.inodes[d].size <==> Find(Dir(fs.Abs(), d), name) < |Dir(fs.Abs(), d)|
  {
    hide Inv, Contents, CString, Find, Entries;
    ghost var es := Dir(fs.Abs(), d);
    WholeEntries(fs.inodes[d].size);
    off := 0;
    while off < fs.inodes[d].size
      invariant off % 128 == 0 && off <= fs.inodes[d].size && off / 128 <= |es|
      invariant forall j | 0 <= j < off / 128 :: !(es[j].ino != 0 && es[j].name == name)
      decreases fs.inodes[d].size - off
    {
      var od := ReadEntry(fs, d, off);
      if od.ino != 0 && |od.name| == |name| && od.name == name {
        FoundAt(es, name, off / 128);
        return;
      }
      NextEntry(off);
      off := off + DIRENTRY_SIZE;
    }
    FoundAt(es, name, |es|);
  }

  lemma {:induction false} FoundAt(es: seq<Entry>, name: seq<Byte>, k: nat)
    requires k <= |es| && (k < |es| ==> es[k].ino != 0 && es[k].name == name)
    requires forall j | 0 <= j < k :: !(es[j].ino != 0 && es[j].name == name)
    ensures Find(es, name) == k
  {
  }

  lemma {:induction false} BlankAt(es: seq<Entry>, k: nat)
    requires k <= |es| && (k < |es| ==> es[k].ino == 0) && forall j | 0 <= j < k :: es[j].ino != 0
    ensures FindBlank(es) == k
  {
  }

  /** create_blank_direntry: the offset of a blank entry. */
  method CreateBlankDirentry(fs: Ospfs, d: nat) returns (off: nat, r: Status)
    requires fs.Valid() && Readable(fs.Abs(), d)
    modifies fs.freemap, fs.data, fs.inodes
    ensures SizeFits(old(fs.Abs()).inodes[d]) && off % 128 == 0 && (fs.Abs(), off / 128, r) == Blank(old(fs.Abs()), d)
  {
    hide Inv, Contents, CString, Resize, Entries;
    ghost var fs0, es := fs.Abs(), Dir(fs.Abs(), d);
    var size := fs.inodes[d].size;
    WholeEntries(size);
    off := 0;
    while off < size
      invariant off % 128 == 0 && off <= size && fs.Abs() == fs0
      invariant forall j | 0 <= j < off / 128 :: es[j].ino != 0
      decreases size - off
    {
      var entry := ReadEntry(fs, d, off);
      if entry.ino == 0 {
        BlankAt(es, off / 128);
        return off, OK;
      }
      NextEntry(off);
      off := off + DIRENTRY_SIZE;
    }
    BlankAt(es, |es|);
    off := DIRENTRY_SIZE + size;
    r := fs.ChangeSize(d, (size + NEWBYTES) % TWO32);
  }

  /** Storing bytes at the start of an entry. */
  method PutEntry(fs: Ospfs, d: nat, off: nat, bytes: seq<Byte>)
    requires fs.Valid() && Readable(fs.Abs(), d) && off % 128 == 0 && off < fs.inodes[d].size && |bytes| <= 128
    modifies fs.data
    ensures fs.Abs() == WithEntry(old(fs.Abs()), d, off / 128, bytes)
  {
    hide Inv, At, Contents, OspfsDisk.InodeBlockno;
    EntryInBlock(fs.Abs(), d, off);
    Fits128(off, fs.inodes[d].size);
    var b := fs.InodeBlockno(d, off);
    fs.CopyFromUser(b, off % BLKSIZE, bytes);
  }

  /** After a blank entry was found the directory can be read. */
  lemma BlankReadable(fs: Fs, d: nat)
    requires Readable(fs, d) && Blank(fs, d).2 == OK
    ensures var (fs1, k, _) := Blank(fs, d);
            Readable(fs1, d) && 128 * k < fs1.inodes[d].size && |fs1.inodes| == |fs.inodes|
  {
    hide Inv, Contents, Entries, Blank, CanGrow;
    if CanGrow(fs, d) {
      BlankEffect(fs, d);
      var (fs1, k, _) := Blank(fs, d);
      assert |Dir(fs1, d)| == fs1.inodes[d].size / 128;
    } else {
      UnsafeGrowth(fs, d);
    }
  }

  /** ospfs_link */
  method LinkFile(fs: Ospfs, src: nat, d: nat, name: seq<Byte>) returns (r: Errno)
    requires fs.Valid() && Readable(fs.Abs(), d) && src < fs.inodes.Length < TWO32
    modifies fs.freemap, fs.data, fs.inodes
    ensures (fs.Abs(), r) == Link(old(fs.Abs()), src, d, name)
  {
    hide Inv, Contents, Entries, Blank, Find, WithEntry, EntryBytes;
    ghost var fs0 := fs.Abs();
    if |name| > MAXNAMELEN { return ENAMETOOLONG; }
    var off := FindDirentry(fs, d, name);
    if off < fs.inodes[d].size { return EEXIST; }
    var at, s := CreateBlankDirentry(fs, d);
    if s != OK { return NOSPACE; }
    BlankReadable(fs0, d);
    PutEntry(fs, d, at, EntryBytes(src, name));
    ghost var fs2 := fs.Abs();
    fs.inodes[src] := fs.inodes[src].(nlink := fs.inodes[src].nlink + 1);
    assert fs.Abs() == WithFields(fs2, src, fs2.inodes[src].size, fs2.inodes[src].ftype, fs2.inodes[src].nlink + 1);
    return Success;
  }

  /** find_free_inode */
  method FreeInode(fs: Ospfs) returns (f: nat)
    requires fs.Valid()
    ensures f == FindFreeInode(fs.inodes[..], 2)
  {
    f := 2;
    while f < fs.inodes.Length
      invariant FindFreeInode(fs.inodes[..], f) == FindFreeInode(fs.inodes[..], 2)
      decreases fs.inodes.Length - f
    {
      if fs.inodes[f].nlink == 0 { return; }
      f := f + 1;
    }
    return 0;
  }

  /** ospfs_create, up to the Linux inode */
  method CreateFile(fs: Ospfs, d: nat, name: seq<Byte>) returns (r: Errno)
    requires fs.Valid() && Linked(fs.Abs()) && IsDir(fs.Abs(), d)
    modifies fs.freemap, fs.data, fs.inodes
    ensures (fs.Abs(), r) == Create(old(fs.Abs()), d, name)
  {
    hide Inv, Contents, Entries, Blank, Find, WithEntry, EntryBytes, Counted, Claimed;
    ghost var fs0 := fs.Abs();
    LinkedReadable(fs0, d);
    var off := FindDirentry(fs, d, name);
    if off < fs.inodes[d].size { return EEXIST; }
    var f := FreeInode(fs);
    if f == 0 { return NOSPACE; }
    ClaimReadable(fs0, d);
    fs.inodes[f] := fs.inodes[f].(size := 0, ftype := FTYPE_REG, nlink := 1);
    ghost var fs1 := fs.Abs();
    assert fs1 == WithFields(fs0, f, 0, FTYPE_REG, 1);
    var at, s := CreateBlankDirentry(fs, d);
    if s != OK { return NOSPACE; }
    BlankReadable(fs1, d);
    PutEntry(fs, d, at, EntryBytes(f, Cut(name)));
    return Success;
  }

  lemma LinkedReadable(fs: Fs, d: nat)
    requires Linked(fs) && IsDir(fs, d)
    ensures Readable(fs, d) && |fs.inodes| < TWO32
  {
    hide Inv;
  }

  lemma ClaimReadable(fs: Fs, d: nat)
    requires Linked(fs) && IsDir(fs, d) && FindFreeInode(fs.inodes, 2) != 0
    ensures var f := FindFreeInode(fs.inodes, 2);
            f < |fs.inodes| && Readable(WithFields(fs, f, 0, FTYPE_REG, 1), d)
  {
    hide Inv, Contents, Entries, High, FreeCount, Counted;
    FreeInodeUnnamed(fs);
    var f := FindFreeInode(fs.inodes, 2);
    assert fs.inodes[f].nlink == 0 && fs.inodes[f].ftype == FTYPE_REG;
    SetLinks(fs, f, 1);
    assert WithFields(fs, f, 0, FTYPE_REG, 1) == WithFields(fs, f, fs.inodes[f].size, fs.inodes[f].ftype, 1);
  }

  /** ospfs_unlink of the name a dentry has; it names the inode of the entry. */
  method UnlinkFile(fs: Ospfs, d: nat, name: seq<Byte>) returns (r: Errno)
    requires fs.Valid() && Linked(fs.Abs()) && IsDir(fs.Abs(), d)
    requires HasName(fs.Abs(), d, name) ==>
               Names(Dirs(fs.Abs())[d])[name] < fs.inodes.Length
                 && fs.inodes[Names(Dirs(fs.Abs())[d])[name]].ftype == FTYPE_REG
    modifies fs.freemap, fs.data, fs.inodes
    ensures (fs.Abs(), r) == Unlink(old(fs.Abs()), d, name)
  {
    hide Inv, Contents, Entries, Find, WithEntry, Counted, Names, FourBytes;
    ghost var fs0 := fs.Abs();
    LinkedReadable(fs0, d);
    assert Dirs(fs0)[d] == Dir(fs0, d);
    FindNames(Dir(fs0, d), name);
    var off := FindDirentry(fs, d, name);
    if off >= fs.inodes[d].size { return ENOENT; }
    var od := ReadEntry(fs, d, off);
    var f := od.ino;
    Unnamed(fs0, d, off / 128);
    PutEntry(fs, d, off, FourBytes(0));
    ghost var fs1 := fs.Abs();
    fs.inodes[f] := fs.inodes[f].(nlink := fs.inodes[f].nlink - 1);
    assert fs.Abs() == WithFields(fs1, f, fs1.inodes[f].size, fs1.inodes[f].ftype, fs1.inodes[f].nlink - 1);
    if fs.inodes[f].ftype != FTYPE_SYMLINK && fs.inodes[f].nlink == 0 {
      var _ := fs.ChangeSize(f, 0);
    }
    return Success;
  }
}
