/** Link counts and names: what ospfs_link, ospfs_create and ospfs_unlink keep. */
module OspfsLinks {
  import opened OspfsDisk
  import opened OspfsSpec
  import opened OspfsInv
  import opened OspfsBlocks
  import opened OspfsResize
  import opened OspfsChangeSize
  import opened OspfsBytes
  import opened OspfsDirs

  // -------------------------------------------------------------------------
  // A directory as a map from names to inodes
  // -------------------------------------------------------------------------

  ghost predicate Unique(es: seq<Entry>) {
    forall i, j | 0 <= i < j < |es| && es[i].ino != 0 && es[j].ino != 0 :: es[i].name != es[j].name
  }

  ghost function InUse(es: seq<Entry>): set<seq<Byte>> { set i | 0 <= i < |es| && es[i].ino != 0 :: es[i].name }

  ghost function Names(es: seq<Entry>): map<seq<Byte>, nat> {
    map n | n in InUse(es) :: if Find(es, n) < |es| then es[Find(es, n)].ino else 0
  }

  lemma {:induction false} FindUsed(es: seq<Entry>, i: nat)
    requires i < |es| && es[i].ino != 0
    ensures Find(es, es[i].name) <= i
    ensures Unique(es) ==> Find(es, es[i].name) == i
  {
  }

  lemma FindIs(es: seq<Entry>, n: seq<Byte>)
    ensures Find(es, n) < |es| <==> n in InUse(es)
  {
    if n in InUse(es) {
      var i :| 0 <= i < |es| && es[i].ino != 0 && es[i].name == n;
      FindUsed(es, i);
    }
  }

  lemma NamesAt(es: seq<Entry>, i: nat)
    requires Unique(es) && i < |es| && es[i].ino != 0
    ensures es[i].name in Names(es) && Names(es)[es[i].name] == es[i].ino
  {
    FindUsed(es, i);
  }

  ghost predicate Used(es: seq<Entry>, i: nat, n: seq<Byte>) { i < |es| && es[i].ino != 0 && es[i].name == n }

  lemma NameUsed(es: seq<Entry>, n: seq<Byte>) returns (i: nat)
    requires n in Names(es)
    ensures Used(es, i, n)
  {
    i :| 0 <= i < |es| && es[i].ino != 0 && es[i].name == n;
  }

  /** A map that binds the name of every entry in use, and no other name. */
  lemma NamesIs(es: seq<Entry>, m: map<seq<Byte>, nat>)
    requires Unique(es)
    requires forall i | 0 <= i < |es| && es[i].ino != 0 :: es[i].name in m && m[es[i].name] == es[i].ino
    requires forall n | n in m :: exists i :: Used(es, i, n)
    ensures Names(es) == m
  {
    forall n ensures n in Names(es) <==> n in m {
      if n in m {
        var i :| Used(es, i, n);
        NamesAt(es, i);
      } else if n in Names(es) {
        var i := NameUsed(es, n);
      }
    }
    forall n | n in m ensures Names(es)[n] == m[n] {
      var i :| Used(es, i, n);
      NamesAt(es, i);
    }
  }

  /** Filling a blank entry binds one new name. */
  lemma NamesBind(es: seq<Entry>, k: nat, ino: nat, name: seq<Byte>)
    requires Unique(es) && k < |es| && es[k].ino == 0 && ino != 0 && Find(es, name) == |es|
    ensures Unique(es[k := Entry(ino, name)]) && Names(es[k := Entry(ino, name)]) == Names(es)[name := ino]
  {
    var es', m := es[k := Entry(ino, name)], Names(es)[name := ino];
    FindIs(es, name);
    hide Find;
    forall i | 0 <= i < |es| && es[i].ino != 0 ensures es[i].name != name { assert es[i].name in InUse(es); }
    assert Unique(es');
    forall i | 0 <= i < |es'| && es'[i].ino != 0 ensures es'[i].name in m && m[es'[i].name] == es'[i].ino {
      if i != k { NamesAt(es, i); }
    }
    hide Names, InUse;
    forall n | n in m ensures exists i :: Used(es', i, n) {
      if n == name {
        assert Used(es', k, n);
      } else {
        var i := NameUsed(es, n);
        assert Used(es', i, n);
      }
    }
    NamesIs(es', m);
  }

  /** Blanking an entry unbinds its name. */
  lemma NamesUnbind(es: seq<Entry>, k: nat)
    requires Unique(es) && k < |es| && es[k].ino != 0
    ensures var es' := es[k := Entry(0, es[k].name)];
            Unique(es') && Names(es') == Names(es) - {es[k].name}
  {
    hide Find, Names, InUse;
    var es', m := es[k := Entry(0, es[k].name)], Names(es) - {es[k].name};
    forall i | 0 <= i < |es'| && es'[i].ino != 0 ensures es'[i].name in m && m[es'[i].name] == es'[i].ino {
      NamesAt(es, i);
    }
    forall n | n in m ensures exists i :: Used(es', i, n) {
      var i := NameUsed(es, n);
      assert Used(es', i, n);
    }
    NamesIs(es', m);
  }

  /** Blank entries bind nothing. */
  lemma NamesBlanks(es: seq<Entry>, k: nat)
    requires Unique(es)
    ensures Unique(es + Blanks(k)) && Names(es + Blanks(k)) == Names(es)
  {
    hide Find, Names, InUse;
    var es' := es + Blanks(k);
    forall i | 0 <= i < |es'| && es'[i].ino != 0
      ensures es'[i].name in Names(es) && Names(es)[es'[i].name] == es'[i].ino
    {
      NamesAt(es, i);
    }
    forall n | n in Names(es) ensures exists i :: Used(es', i, n) {
      var i := NameUsed(es, n);
      assert Used(es', i, n);
    }
    NamesIs(es', Names(es));
  }

  /** find_direntry decides whether a name is bound. */
  lemma FindNames(es: seq<Entry>, n: seq<Byte>)
    ensures Find(es, n) < |es| <==> n in Names(es)
    ensures Find(es, n) < |es| ==> Names(es)[n] == es[Find(es, n)].ino
  {
    FindIs(es, n);
  }

  // -------------------------------------------------------------------------
  // References to inodes
  // -------------------------------------------------------------------------

  /** The places, directory and entry, that name inode f. */
  ghost function Refs(dirs: seq<seq<Entry>>, f: nat): set<(nat, nat)> {
    set d: nat, k: nat | d < |dirs| && k < |dirs[d]| && dirs[d][k].ino == f :: (d, k)
  }

  lemma RefsSet(dirs: seq<seq<Entry>>, d: nat, k: nat, e: Entry, f: nat)
    requires d < |dirs| && k < |dirs[d]|
    ensures Refs(dirs[d := dirs[d][k := e]], f) == Refs(dirs, f) - {(d, k)} + if e.ino == f then {(d, k)} else {}
  {
    var dirs' := dirs[d := dirs[d][k := e]];
    forall p: (nat, nat)
      ensures p in Refs(dirs', f) <==> p in Refs(dirs, f) - {(d, k)} + if e.ino == f then {(d, k)} else {}
    {
    }
  }

  lemma RefsBlanks(dirs: seq<seq<Entry>>, d: nat, n: nat, f: nat)
    requires d < |dirs| && f != 0
    ensures Refs(dirs[d := dirs[d] + Blanks(n)], f) == Refs(dirs, f)
  {
  }

  // -------------------------------------------------------------------------
  // The state of all directories
  // -------------------------------------------------------------------------

  ghost predicate AllFit(fs: Fs) { forall f | 0 <= f < |fs.inodes| :: SizeFits(fs.inodes[f]) }

  /** Inodes not in use are empty regular files; directories are whole blocks.  Symbolic
      links are not modelled. */
  ghost predicate Fields(inodes: seq<Inode>) {
    && 2 <= |inodes| < TWO32
    && forall f | 0 <= f < |inodes| ::
         && (inodes[f].ftype == FTYPE_REG || (inodes[f].ftype == FTYPE_DIR && Aligned(inodes[f])))
         && (inodes[f].nlink == 0 ==> inodes[f].ftype == FTYPE_REG && inodes[f].size == 0)
  }

  /** The entries of every directory. */
  ghost function Dirs(fs: Fs): (ds: seq<seq<Entry>>)
    requires AllFit(fs)
    ensures |ds| == |fs.inodes|
  {
    seq(|fs.inodes|, f requires 0 <= f < |fs.inodes| => if fs.inodes[f].ftype == FTYPE_DIR then Dir(fs, f) else [])
  }

  ghost predicate Sane(fs: Fs) { Inv(fs) && AllFit(fs) && Fields(fs.inodes) }

  /** Names are unique, entries name inodes in use, and a regular file's link count is
      the number of entries that name it. */
  ghost predicate Counted(inodes: seq<Inode>, dirs: seq<seq<Entry>>) {
    && |dirs| == |inodes|
    && (forall d | 0 <= d < |dirs| :: Unique(dirs[d]))
    && (forall d, k | 0 <= d < |dirs| && 0 <= k < |dirs[d]| && dirs[d][k].ino != 0 ::
          dirs[d][k].ino < |inodes| && inodes[dirs[d][k].ino].nlink > 0)
    && (forall f | 0 < f < |inodes| && inodes[f].ftype == FTYPE_REG :: inodes[f].nlink == |Refs(dirs, f)|)
  }

  ghost predicate Linked(fs: Fs) { Sane(fs) && Counted(fs.inodes, Dirs(fs)) }

  /** Type and link count of every inode, and the entries of every directory. */
  ghost predicate SameLinks(fs: Fs, fs': Fs) {
    && Sane(fs) && Sane(fs') && |fs'.inodes| == |fs.inodes| && Dirs(fs') == Dirs(fs)
    && forall g | 0 <= g < |fs.inodes| :: SameMeta(fs'.inodes[g], fs.inodes[g])
  }

  /** The size and the bytes of every regular file, but those in `but`. */
  ghost predicate SameFiles(fs: Fs, fs': Fs, but: set<nat>) {
    && AllFit(fs) && AllFit(fs') && |fs'.inodes| == |fs.inodes|
    && forall g | 0 <= g < |fs.inodes| && g !in but && fs.inodes[g].ftype == FTYPE_REG ::
         && fs'.inodes[g].ftype == FTYPE_REG && fs'.inodes[g].size == fs.inodes[g].size
         && Contents(fs', g) == Contents(fs, g)
  }

  lemma SameFilesBut(fs: Fs, fs': Fs, f: nat)
    requires SameBut(fs, fs', f) && AllFit(fs) && AllFit(fs')
    requires forall g | 0 <= g < |fs.inodes| :: SameMeta(fs'.inodes[g], fs.inodes[g])
    ensures SameFiles(fs, fs', {f}) && (IsDir(fs, f) ==> SameFiles(fs, fs', {}))
  {
    forall g | 0 <= g < |fs.inodes| && g != f ensures fs'.inodes[g].size == fs.inodes[g].size {
      assert |Contents(fs', g)| == |Contents(fs, g)|;
    }
    hide Contents;
  }

  lemma SameFilesThen(fs: Fs, fs1: Fs, fs2: Fs, but: set<nat>)
    requires SameFiles(fs, fs1, {}) && SameFiles(fs1, fs2, but)
    ensures SameFiles(fs, fs2, but)
  {
    hide Contents;
  }

  ghost predicate IsDir(fs: Fs, d: nat) { d < |fs.inodes| && fs.inodes[d].ftype == FTYPE_DIR }

  /** The same, but for entry k of directory d (which may have grown) becoming e. */
  ghost predicate Inserted(fs: Fs, fs': Fs, d: nat, k: nat, e: Entry) {
    && Sane(fs) && Sane(fs') && |fs'.inodes| == |fs.inodes| && IsDir(fs, d)
    && (forall g | 0 <= g < |fs.inodes| :: SameMeta(fs'.inodes[g], fs.inodes[g]))
    && exists n: nat :: InsertedAt(Dirs(fs), Dirs(fs'), d, n, k, e)
  }

  ghost predicate InsertedAt(dirs: seq<seq<Entry>>, dirs': seq<seq<Entry>>, d: nat, n: nat, k: nat, e: Entry) {
    && d < |dirs| && k < |dirs[d] + Blanks(n)| && (dirs[d] + Blanks(n))[k].ino == 0
    && dirs' == dirs[d := (dirs[d] + Blanks(n))[k := e]]
  }

  lemma DirsFrom(fs: Fs, fs': Fs, d: nat)
    requires AllFit(fs) && AllFit(fs') && |fs'.inodes| == |fs.inodes| && IsDir(fs, d) && SameBut(fs, fs', d)
    requires forall g | 0 <= g < |fs.inodes| :: SameMeta(fs'.inodes[g], fs.inodes[g])
    ensures Dirs(fs') == Dirs(fs)[d := Dir(fs', d)]
  {
    hide Contents, Entries;
    forall g | 0 <= g < |fs.inodes| ensures Dirs(fs')[g] == Dirs(fs)[d := Dir(fs', d)][g] {
      if g != d { assert Contents(fs', g) == Contents(fs, g); }
    }
  }

  /** create_blank_direntry and the stores through its result. */
  lemma Insert(fs: Fs, d: nat, ino: nat, name: seq<Byte>)
    requires Sane(fs) && IsDir(fs, d) && CanGrow(fs, d) && ino < TWO32 && |name| <= MAXNAMELEN && 0 !in name
    ensures var (fs1, k, r) := Blank(fs, d);
            && (r != OK ==> SameLinks(fs, fs1) && SameFiles(fs, fs1, {}))
            && (r == OK ==>
                 var fs2 := WithEntry(fs1, d, k, EntryBytes(ino, name));
                 IsDir(fs1, d) && Inserted(fs, fs2, d, k, Entry(ino, name)) && SameFiles(fs, fs2, {}))
  {
    hide Inv, Contents, Entries, Blank, CanGrow, EntryBytes, WithEntry, SameFiles;
    BlankEffect(fs, d);
    var (fs1, k, r) := Blank(fs, d);
    forall g | 0 <= g < |fs1.inodes| ensures SizeFits(fs1.inodes[g]) { InvSize(fs1, g); }
    DirsFrom(fs, fs1, d);
    SameFilesBut(fs, fs1, d);
    if r == OK {
      var s := EntryBytes(ino, name);
      assert |Dir(fs1, d)| == fs1.inodes[d].size / 128;
      EntryEffect(fs1, d, k, s);
      var fs2 := WithEntry(fs1, d, k, s);
      forall g | 0 <= g < |fs2.inodes| ensures SizeFits(fs2.inodes[g]) { InvSize(fs2, g); }
      StoreEntry(Contents(fs1, d), k, ino, name);
      DirsFrom(fs1, fs2, d);
      SameFilesBut(fs1, fs2, d);
      SameFilesThen(fs, fs1, fs2, {});
      assert Dirs(fs2) == Dirs(fs)[d := Dir(fs1, d)[k := Entry(ino, name)]];
      NoBlanks(Dir(fs, d));
      assert InsertedAt(Dirs(fs), Dirs(fs2), d, if Dir(fs1, d) == Dir(fs, d) then 0 else 64, k, Entry(ino, name));
    } else {
      assert Dirs(fs1) == Dirs(fs);
    }
  }

  lemma NoBlanks(es: seq<Entry>)
    ensures es + Blanks(0) == es
  {
  }

  // -------------------------------------------------------------------------
  // Each operation
  // -------------------------------------------------------------------------

  /** Link counts of all inodes but f, and all types, are as they were. */
  ghost predicate MetaBut(inodes: seq<Inode>, inodes': seq<Inode>, f: nat, nlink: nat) {
    && f < |inodes| == |inodes'| && inodes'[f].nlink == nlink && inodes'[f].ftype == inodes[f].ftype
    && forall g | 0 <= g < |inodes| && g != f :: SameMeta(inodes'[g], inodes[g])
  }

  /** A new entry for inode f raises its count. */
  lemma CountedInsert(inodes: seq<Inode>, inodes': seq<Inode>, dirs: seq<seq<Entry>>, dirs': seq<seq<Entry>>, d: nat,
        n: nat, k: nat, f: nat, name: seq<Byte>)
    requires Counted(inodes, dirs) && InsertedAt(dirs, dirs', d, n, k, Entry(f, name)) && 0 < f < |inodes|
    requires MetaBut(inodes, inodes', f, inodes[f].nlink + 1) && name !in Names(dirs[d])
    ensures Counted(inodes', dirs') && Names(dirs'[d]) == Names(dirs[d])[name := f]
    ensures forall e | 0 <= e < |dirs| && e != d :: dirs'[e] == dirs[e]
  {
    hide Find, Names, InUse, Unique, Refs;
    var grown := dirs[d] + Blanks(n);
    NamesBlanks(dirs[d], n);
    FindNames(grown, name);
    NamesBind(grown, k, f, name);
    forall g | 0 < g < |inodes| && inodes'[g].ftype == FTYPE_REG ensures inodes'[g].nlink == |Refs(dirs', g)| {
      RefsBlanks(dirs, d, n, g);
      RefsSet(dirs[d := grown], d, k, Entry(f, name), g);
      assert dirs[d := grown][d := grown[k := Entry(f, name)]] == dirs';
      NotThere(dirs[d := grown], d, k, g);
    }
    UsedInsert(inodes, inodes', dirs, dirs', d, n, k, f, name);
  }

  lemma NotThere(dirs: seq<seq<Entry>>, d: nat, k: nat, g: nat)
    requires d < |dirs| && k < |dirs[d]| && dirs[d][k].ino == 0 && g != 0
    ensures (d, k) !in Refs(dirs, g)
  {
  }

  lemma UsedInsert(inodes: seq<Inode>, inodes': seq<Inode>, dirs: seq<seq<Entry>>, dirs': seq<seq<Entry>>, d: nat,
        n: nat, k: nat, f: nat, name: seq<Byte>)
    requires Counted(inodes, dirs) && InsertedAt(dirs, dirs', d, n, k, Entry(f, name)) && f < |inodes|
    requires MetaBut(inodes, inodes', f, inodes[f].nlink + 1)
    ensures forall e, j | 0 <= e < |dirs'| && 0 <= j < |dirs'[e]| && dirs'[e][j].ino != 0 ::
              dirs'[e][j].ino < |inodes'| && inodes'[dirs'[e][j].ino].nlink > 0
  {
    hide Unique, Refs;
    forall e, j | 0 <= e < |dirs'| && 0 <= j < |dirs'[e]| && dirs'[e][j].ino != 0
      ensures dirs'[e][j].ino < |inodes'| && inodes'[dirs'[e][j].ino].nlink > 0
    {
      if !(e == d && j == k) { assert j < |dirs[e]| && dirs[e][j] == dirs'[e][j]; }
    }
  }

  /** A blanked entry lowers the count of the inode it named. */
  lemma CountedRemove(inodes: seq<Inode>, inodes': seq<Inode>, dirs: seq<seq<Entry>>, d: nat, k: nat)
    requires Counted(inodes, dirs) && d < |dirs| && k < |dirs[d]| && dirs[d][k].ino != 0
    requires inodes[dirs[d][k].ino].ftype == FTYPE_REG
    requires MetaBut(inodes, inodes', dirs[d][k].ino, inodes[dirs[d][k].ino].nlink - 1)
    ensures var dirs' := dirs[d := dirs[d][k := Entry(0, dirs[d][k].name)]];
            Counted(inodes', dirs') && Names(dirs'[d]) == Names(dirs[d]) - {dirs[d][k].name}
  {
    hide Find, Names, InUse, Unique, Refs;
    var f := dirs[d][k].ino;
    var e := Entry(0, dirs[d][k].name);
    var dirs' := dirs[d := dirs[d][k := e]];
    NamesUnbind(dirs[d], k);
    There(dirs, d, k);
    forall g | 0 < g < |inodes| && inodes'[g].ftype == FTYPE_REG ensures inodes'[g].nlink == |Refs(dirs', g)| {
      RefsSet(dirs, d, k, e, g);
    }
    UsedRemove(inodes, inodes', dirs, d, k);
  }

  lemma There(dirs: seq<seq<Entry>>, d: nat, k: nat)
    requires d < |dirs| && k < |dirs[d]|
    ensures forall g :: (d, k) in Refs(dirs, g) <==> g == dirs[d][k].ino
  {
  }

  lemma UsedRemove(inodes: seq<Inode>, inodes': seq<Inode>, dirs: seq<seq<Entry>>, d: nat, k: nat)
    requires Counted(inodes, dirs) && d < |dirs| && k < |dirs[d]| && dirs[d][k].ino != 0
    requires inodes[dirs[d][k].ino].ftype == FTYPE_REG
    requires MetaBut(inodes, inodes', dirs[d][k].ino, inodes[dirs[d][k].ino].nlink - 1)
    ensures var dirs' := dirs[d := dirs[d][k := Entry(0, dirs[d][k].name)]];
            forall b, j | 0 <= b < |dirs'| && 0 <= j < |dirs'[b]| && dirs'[b][j].ino != 0 ::
              dirs'[b][j].ino < |inodes'| && inodes'[dirs'[b][j].ino].nlink > 0
  {
    hide Unique, Refs;
    var f := dirs[d][k].ino;
    var dirs': seq<seq<Entry>> := dirs[d := dirs[d][k := Entry(0, dirs[d][k].name)]];
    There(dirs, d, k);
    forall b, j | 0 <= b < |dirs'| && 0 <= j < |dirs'[b]| && dirs'[b][j].ino != 0
      ensures dirs'[b][j].ino < |inodes'| && inodes'[dirs'[b][j].ino].nlink > 0
    {
      assert dirs'[b][j] == dirs[b][j] && (b, j) != (d, k);
      if dirs[b][j].ino == f { StillThere(dirs, d, k, b, j, f); }
    }
  }

  lemma StillThere(dirs: seq<seq<Entry>>, d: nat, k: nat, b: nat, j: nat, f: nat)
    requires (d, k) in Refs(dirs, f) && b < |dirs| && j < |dirs[b]| && dirs[b][j].ino == f && (b, j) != (d, k)
    ensures |Refs(dirs, f)| >= 2
  {
    var s := Refs(dirs, f);
    assert {(d, k), (b, j)} <= s;
    assert |s - {(d, k)}| >= 1 by { assert (b, j) in s - {(d, k)}; }
  }

  lemma SetLinks(fs: Fs, f: nat, nlink: nat)
    requires Inv(fs) && AllFit(fs) && f < |fs.inodes|
    ensures var fs' := WithFields(fs, f, fs.inodes[f].size, fs.inodes[f].ftype, nlink);
            && Inv(fs') && AllFit(fs') && Dirs(fs') == Dirs(fs) && fs'.vol == fs.vol
            && MetaBut(fs.inodes, fs'.inodes, f, nlink) && FreeCount(fs') == FreeCount(fs)
            && (forall g | 0 <= g < |fs.inodes| :: High(fs', g) == High(fs, g)) && SameFiles(fs, fs', {})
  {
    hide Inv, Contents, Entries, High;
    FieldsInv(fs, f, fs.inodes[f].ftype, nlink);
    var fs' := WithFields(fs, f, fs.inodes[f].size, fs.inodes[f].ftype, nlink);
    forall g | 0 <= g < |fs.inodes| ensures SizeFits(fs'.inodes[g]) && Dirs(fs')[g] == Dirs(fs)[g] { }
  }

  /** Name bound to f in directory d, one more link to f, and nothing else changed. */
  ghost predicate OneMore(fs: Fs, fs': Fs, d: nat, name: seq<Byte>, f: nat) {
    && AllFit(fs) && AllFit(fs') && d < |fs.inodes| && f < |fs.inodes|
    && MetaBut(fs.inodes, fs'.inodes, f, fs.inodes[f].nlink + 1)
    && Names(Dirs(fs')[d]) == Names(Dirs(fs)[d])[name := f]
    && forall e | 0 <= e < |fs.inodes| && e != d :: Dirs(fs')[e] == Dirs(fs)[e]
  }

  ghost predicate HasName(fs: Fs, d: nat, name: seq<Byte>) {
    AllFit(fs) && d < |fs.inodes| && name in Names(Dirs(fs)[d])
  }

  /** A name entered in a directory for a file whose count is raised with it. */
  lemma InsertLinked(fs: Fs, d: nat, f: nat, name: seq<Byte>, fs2: Fs, k: nat, fs': Fs)
    requires Linked(fs) && IsDir(fs, d) && 0 < f < |fs.inodes| && fs.inodes[f].ftype == FTYPE_REG
      && !HasName(fs, d, name)
    requires Inserted(fs, fs2, d, k, Entry(f, name)) && (fs2.inodes[f].nlink == 0 ==> fs2.inodes[f].size == 0)
    requires fs' == WithFields(fs2, f, fs2.inodes[f].size, fs2.inodes[f].ftype, fs2.inodes[f].nlink + 1)
    ensures Linked(fs') && OneMore(fs, fs', d, name, f) && SameFiles(fs2, fs', {})
  {
    hide Inv, Contents, Entries, Counted, Names, Find, WithFields, Dirs, SameFiles;
    SetLinks(fs2, f, fs2.inodes[f].nlink + 1);
    var n: nat :| InsertedAt(Dirs(fs), Dirs(fs2), d, n, k, Entry(f, name));
    CountedInsert(fs.inodes, fs'.inodes, Dirs(fs), Dirs(fs'), d, n, k, f, name);
    FieldsKept(fs2, f, fs');
  }

  lemma FieldsKept(fs: Fs, f: nat, fs': Fs)
    requires Fields(fs.inodes) && f < |fs.inodes| && fs.inodes[f].ftype == FTYPE_REG
    requires fs' == WithFields(fs, f, fs.inodes[f].size, fs.inodes[f].ftype, fs.inodes[f].nlink + 1)
    ensures Fields(fs'.inodes)
  {
  }

  /** A link for which the directory would grow into the dangling case fails, and leaves an
      allocator that is no longer sound. */
  lemma LinkBreaks(fs: Fs, src: nat, d: nat, name: seq<Byte>)
    requires Linked(fs) && IsDir(fs, d) && src < |fs.inodes| && !CanGrow(fs, d) && |name| <= MAXNAMELEN
      && !HasName(fs, d, name)
    ensures Link(fs, src, d, name).1 == NOSPACE && !Linked(Link(fs, src, d, name).0)
  {
    hide Inv, Contents, Entries, Blank, CanGrow, EntryBytes, WithEntry, Counted, Names, Find;
    FindNames(Dir(fs, d), name);
    assert Dirs(fs)[d] == Dir(fs, d);
    UnsafeGrowth(fs, d);
  }

  /** ospfs_link: which error comes when; on success one more name for the file and one more
      link, else nothing.  The directories stay in order unless a full directory would grow into
      the dangling case. */
  lemma LinkKeeps(fs: Fs, src: nat, d: nat, name: seq<Byte>)
    requires Linked(fs) && IsDir(fs, d) && 0 !in name
    requires 0 < src < |fs.inodes| && fs.inodes[src].ftype == FTYPE_REG && fs.inodes[src].nlink > 0
    ensures var (fs', r) := Link(fs, src, d, name);
            && (r == ENAMETOOLONG <==> |name| > MAXNAMELEN)
            && (r == EEXIST <==> |name| <= MAXNAMELEN && HasName(fs, d, name))
            && (r == NOSPACE <==> |name| <= MAXNAMELEN && !HasName(fs, d, name) && !SpaceFor(fs, d))
            && r in {Success, ENAMETOOLONG, EEXIST, NOSPACE}
            && (r == Success ==> OneMore(fs, fs', d, name, src))
            && (r != Success && Linked(fs') ==> SameLinks(fs, fs'))
            && (Linked(fs') ==> SameFiles(fs, fs', {}))
            && (Linked(fs') <==> |name| > MAXNAMELEN || HasName(fs, d, name) || CanGrow(fs, d))
  {
    hide Inv, Contents, Entries, Blank, CanGrow, SpaceFor, EntryBytes, WithEntry, Counted, Names, Find, WithFields,
      OneMore, SameFiles;
    FilesSelf(fs);
    FindNames(Dir(fs, d), name);
    assert Dirs(fs)[d] == Dir(fs, d);
    if |name| <= MAXNAMELEN && !HasName(fs, d, name) {
      BlankExactly(fs, d);
      if CanGrow(fs, d) {
        Insert(fs, d, src, name);
        hide Dirs, Dir;
        var (fs1, k, r) := Blank(fs, d);
        if r == OK {
          var fs2, fs' := WithEntry(fs1, d, k, EntryBytes(src, name)), Link(fs, src, d, name).0;
          InsertLinked(fs, d, src, name, fs2, k, fs');
          SameFilesThen(fs, fs2, fs', {});
        } else {
          CountedSame(fs, fs1);
        }
      } else {
        LinkBreaks(fs, src, d, name);
      }
    }
  }

  lemma FilesSelf(fs: Fs)
    requires AllFit(fs)
    ensures SameFiles(fs, fs, {})
  {
    hide Contents;
  }

  lemma CountedSame(fs: Fs, fs': Fs)
    requires Linked(fs) && SameLinks(fs, fs')
    ensures Linked(fs')
  {
    hide Inv, Dirs;
  }

  /** find_free_inode never returns an inode that an entry names. */
  lemma FreeInodeUnnamed(fs: Fs)
    requires Linked(fs)
    ensures var f := FindFreeInode(fs.inodes, 2);
            f != 0 ==> f < |fs.inodes| && fs.inodes[f].size == 0 && Refs(Dirs(fs), f) == {}
  {
    hide Inv, Dirs;
    var f := FindFreeInode(fs.inodes, 2);
    if f != 0 { assert fs.inodes[f].nlink == |Refs(Dirs(fs), f)|; }
  }

  /** ospfs_create before it looks for an entry: the first free inode is in use. */
  ghost function Claimed(fs: Fs): (fs0: Fs)
    requires 0 < FindFreeInode(fs.inodes, 2) < |fs.inodes|
    ensures |fs0.inodes| == |fs.inodes|
  {
    WithFields(fs, FindFreeInode(fs.inodes, 2), 0, FTYPE_REG, 1)
  }

  lemma ClaimSane(fs: Fs, d: nat)
    requires Linked(fs) && IsDir(fs, d) && FindFreeInode(fs.inodes, 2) != 0
    ensures var f := FindFreeInode(fs.inodes, 2);
            var fs0 := Claimed(fs);
            && 0 < f < |fs.inodes| && f != d && fs.inodes[f].nlink == 0 && fs.inodes[f].ftype == FTYPE_REG
            && Sane(fs0) && IsDir(fs0, d) && Dirs(fs0) == Dirs(fs)
            && (CanGrow(fs0, d) <==> CanGrow(fs, d)) && (SpaceFor(fs0, d) <==> SpaceFor(fs, d))
            && MetaBut(fs.inodes, fs0.inodes, f, 1) && Refs(Dirs(fs), f) == {} && SameFiles(fs, fs0, {})
  {
    hide Inv, Contents, Entries, High, FreeCount, Counted, FindBlank, NeedTo;
    FreeInodeUnnamed(fs);
    var f := FindFreeInode(fs.inodes, 2);
    assert fs.inodes[f].nlink == 0;
    assert Dirs(fs)[d] == Dir(fs, d);
    SetLinks(fs, f, 1);
    var fs0 := Claimed(fs);
    assert fs0 == WithFields(fs, f, fs.inodes[f].size, fs.inodes[f].ftype, 1);
    assert Dirs(fs0)[d] == Dir(fs0, d);
    assert fs0.inodes[d] == fs.inodes[d];
  }

  /** ospfs_create: which error comes when.  On success the name, cut to 123 bytes, is
      bound to an inode that no entry named.  The directories stay consistent unless an inode
      is claimed and then there is no space for an entry, or cutting makes the name one that
      is taken. */
  lemma CreateKeeps(fs: Fs, d: nat, name: seq<Byte>)
    requires Linked(fs) && IsDir(fs, d) && 0 !in name
    ensures var (fs', r) := Create(fs, d, name);
            var f := FindFreeInode(fs.inodes, 2);
            && (r == EEXIST <==> HasName(fs, d, name))
            && (r == NOSPACE <==> !HasName(fs, d, name) && (f == 0 || !SpaceFor(fs, d)))
            && r in {Success, EEXIST, NOSPACE}
            && (r == Success && !HasName(fs, d, Cut(name)) ==> OneMore(fs, fs', d, Cut(name), f))
            && (r == EEXIST || f == 0 ==> fs' == fs)
            && (r == Success ==> 0 < f < |fs'.inodes| && fs'.inodes[f].size == 0)
            && (r == Success || Linked(fs') ==> SameFiles(fs, fs', {}))
            && (Linked(fs') <==> HasName(fs, d, name) || f == 0 || (SpaceFor(fs, d) && !HasName(fs, d, Cut(name))))
  {
    hide Inv, Contents, Entries, Blank, CanGrow, SpaceFor, EntryBytes, WithEntry, Counted, Names, Find, WithFields,
      OneMore, Sane, SameFiles;
    SaneFit(fs);
    FilesSelf(fs);
    FindNames(Dir(fs, d), name);
    assert Dirs(fs)[d] == Dir(fs, d);
    var f := FindFreeInode(fs.inodes, 2);
    if !HasName(fs, d, name) && f != 0 {
      ClaimSane(fs, d);
      var fs0 := Claimed(fs);
      SaneFit(fs0);
      BlankExactly(fs0, d);
      if CanGrow(fs, d) {
        Insert(fs0, d, f, Cut(name));
        hide Dirs, Dir;
        var (fs1, k, r) := Blank(fs0, d);
        if r == OK {
          var fs2 := WithEntry(fs1, d, k, EntryBytes(f, Cut(name)));
          CreateInserts(fs, d, f, Cut(name), fs0, fs2, k);
          SameFilesThen(fs, fs0, fs2, {});
          StillEmpty(fs, fs2, f);
        } else {
          ClaimWasted(fs, fs0, fs1, f);
        }
      } else {
        UnsafeGrowth(fs0, d);
        SaneSound(Create(fs, d, name).0);
      }
    }
  }

  lemma StillEmpty(fs: Fs, fs': Fs, f: nat)
    requires Sane(fs) && f < |fs.inodes| && fs.inodes[f].nlink == 0 && SameFiles(fs, fs', {})
    ensures f < |fs'.inodes| && fs'.inodes[f].size == 0
  {
    hide Contents, Inv;
  }

  lemma SaneSound(fs: Fs)
    ensures Sane(fs) ==> Inv(fs)
  {
  }

  lemma SaneFit(fs: Fs)
    requires Sane(fs)
    ensures Inv(fs) && AllFit(fs) && Fields(fs.inodes)
  {
  }

  lemma CreateInserts(fs: Fs, d: nat, f: nat, name: seq<Byte>, fs0: Fs, fs2: Fs, k: nat)
    requires Linked(fs) && IsDir(fs, d) && 0 < f < |fs.inodes| && fs.inodes[f].nlink == 0
    requires Sane(fs0) && Dirs(fs0) == Dirs(fs) && MetaBut(fs.inodes, fs0.inodes, f, 1)
    requires Inserted(fs0, fs2, d, k, Entry(f, name))
    ensures !HasName(fs, d, name) ==> OneMore(fs, fs2, d, name, f)
    ensures Linked(fs2) <==> !HasName(fs, d, name)
  {
    hide Inv, Contents, Entries, Counted, Names, Find, Dirs;
    var n: nat :| InsertedAt(Dirs(fs0), Dirs(fs2), d, n, k, Entry(f, name));
    if !HasName(fs, d, name) {
      CountedInsert(fs.inodes, fs2.inodes, Dirs(fs), Dirs(fs2), d, n, k, f, name);
    } else {
      TwiceNamed(Dirs(fs)[d] + Blanks(n), k, f, name) by { NamesBlanksHas(Dirs(fs)[d], n, name); }
      CountedUnique(fs2.inodes, Dirs(fs2), d);
    }
  }

  lemma CountedUnique(inodes: seq<Inode>, dirs: seq<seq<Entry>>, d: nat)
    requires d < |dirs|
    ensures Counted(inodes, dirs) ==> Unique(dirs[d])
  {
  }

  lemma NamesBlanksHas(es: seq<Entry>, n: nat, name: seq<Byte>)
    requires name in Names(es)
    ensures name in Names(es + Blanks(n))
  {
    var i := NameUsed(es, name);
    assert (es + Blanks(n))[i] == es[i];
  }

  lemma TwiceNamed(es: seq<Entry>, k: nat, f: nat, name: seq<Byte>)
    requires k < |es| && es[k].ino == 0 && f != 0 && name in Names(es)
    ensures !Unique(es[k := Entry(f, name)])
  {
    var i := NameUsed(es, name);
    var es' := es[k := Entry(f, name)];
    assert es'[i].name == es'[k].name && i != k;
  }

  /** After a failed create the inode counts one link and no entry names it. */
  lemma ClaimWasted(fs: Fs, fs0: Fs, fs1: Fs, f: nat)
    requires Linked(fs) && 0 < f < |fs.inodes| && fs.inodes[f].nlink == 0 && fs.inodes[f].ftype == FTYPE_REG
    requires Sane(fs0) && Dirs(fs0) == Dirs(fs) && MetaBut(fs.inodes, fs0.inodes, f, 1) && SameLinks(fs0, fs1)
    ensures !Linked(fs1)
  {
    hide Inv, Dirs;
    assert |Refs(Dirs(fs1), f)| == 0;
    assert fs1.inodes[f].nlink == 1;
  }

  /** One name fewer in directory d, one link fewer to f, and nothing else changed. */
  ghost predicate OneLess(fs: Fs, fs': Fs, d: nat, name: seq<Byte>, f: nat) {
    && AllFit(fs) && AllFit(fs') && d < |fs.inodes| && f < |fs.inodes| && fs.inodes[f].nlink > 0
    && MetaBut(fs.inodes, fs'.inodes, f, fs.inodes[f].nlink - 1)
    && name in Names(Dirs(fs)[d]) && Names(Dirs(fs)[d])[name] == f
    && Names(Dirs(fs')[d]) == Names(Dirs(fs)[d]) - {name}
    && forall e | 0 <= e < |fs.inodes| && e != d :: Dirs(fs')[e] == Dirs(fs)[e]
  }

  /** Blocks are given back exactly when the last link goes: then all of the file's blocks
      but the one that remove_block's index leaves behind. */
  ghost predicate Released(fs: Fs, fs': Fs, f: nat) {
    && f < |fs.inodes| == |fs'.inodes|
    && (if fs.inodes[f].nlink == 1 then
          && fs'.inodes[f].size == 0 && High(fs', f) == (if Nb(fs.inodes[f]) > 0 then 1 else High(fs, f))
          && FreeCount(fs') == FreeCount(fs) + Cost(High(fs, f)) - Cost(High(fs', f))
        else fs'.inodes[f].size == fs.inodes[f].size && fs'.vol.free == fs.vol.free)
  }

  /** The entry is blanked and the count lowered; the file system is sound. */
  lemma Unnamed(fs: Fs, d: nat, k: nat)
    requires Linked(fs) && IsDir(fs, d) && k < |Dirs(fs)[d]| && Dirs(fs)[d][k].ino != 0
    requires Dirs(fs)[d][k].ino < |fs.inodes| && fs.inodes[Dirs(fs)[d][k].ino].ftype == FTYPE_REG
    ensures var f := Dirs(fs)[d][k].ino;
            var fs1 := WithEntry(fs, d, k, FourBytes(0));
            && f < |fs1.inodes| && fs1.inodes == fs.inodes && fs.inodes[f].nlink > 0
            && var fs2 := WithFields(fs1, f, fs1.inodes[f].size, fs1.inodes[f].ftype, fs1.inodes[f].nlink - 1);
            && Inv(fs2) && AllFit(fs2) && fs2.vol.free == fs.vol.free
            && Dirs(fs2) == Dirs(fs)[d := Dirs(fs)[d][k := Entry(0, Dirs(fs)[d][k].name)]]
            && MetaBut(fs.inodes, fs2.inodes, f, fs.inodes[f].nlink - 1)
            && (forall g | 0 <= g < |fs.inodes| ::
                 High(fs2, g) == High(fs, g) && fs2.inodes[g].size == fs.inodes[g].size)
            && SameFiles(fs, fs2, {})
  {
    hide Inv, Contents, Entries, Counted, High, FreeCount, SameFiles;
    var f := Dirs(fs)[d][k].ino;
    CountedUsed(fs.inodes, Dirs(fs), d, k);
    var fs1 := WithEntry(fs, d, k, FourBytes(0));
    assert |Dir(fs, d)| == fs.inodes[d].size / 128;
    EntryEffect(fs, d, k, FourBytes(0));
    EntryHigh(fs, d, k, FourBytes(0));
    ClearEntry(Contents(fs, d), k);
    DirsFrom(fs, fs1, d);
    SameFilesBut(fs, fs1, d);
    hide WithEntry;
    SetLinks(fs1, f, fs1.inodes[f].nlink - 1);
    SameFilesThen(fs, fs1, WithFields(fs1, f, fs1.inodes[f].size, fs1.inodes[f].ftype, fs1.inodes[f].nlink - 1), {});
  }

  lemma EntryHigh(fs: Fs, d: nat, k: nat, s: seq<Byte>)
    requires Inv(fs) && d < |fs.inodes| && 128 * k + 128 <= fs.inodes[d].size && |s| <= 128
    ensures forall g | 0 <= g < |fs.inodes| :: High(WithEntry(fs, d, k, s), g) == High(fs, g)
  {
    hide At, Core, Cost, FileByte;
    var own :| InvW(fs, own);
    InvSize(fs, d);
    InBlock(128 * k, Nb(fs.inodes[d]));
    hide InvW;
    assert 128 * k / 1024 == k / 8 && 128 * k % 1024 == 128 * (k % 8);
    var q := At(fs.vol.disk, fs.inodes[d], Data(k / 8));
    if q < |fs.vol.disk| { BlockWrite(fs, own, d, k / 8, Splice(fs.vol.disk[q], 128 * (k % 8), s)); }
  }

  /** change_size to 0 on a file that is no directory. */
  lemma LastLink(fs: Fs, f: nat)
    requires Inv(fs) && AllFit(fs) && f < |fs.inodes| && fs.inodes[f].ftype == FTYPE_REG
    ensures var fs' := Resize(fs, f, 0).0;
            && Inv(fs') && AllFit(fs') && |fs'.inodes| == |fs.inodes| && Dirs(fs') == Dirs(fs)
            && (forall g | 0 <= g < |fs.inodes| ::
                 SameMeta(fs'.inodes[g], fs.inodes[g]) && (g != f ==> fs'.inodes[g] == fs.inodes[g]))
            && fs'.inodes[f].size == 0 && High(fs', f) == (if Nb(fs.inodes[f]) > 0 then 1 else High(fs, f))
            && FreeCount(fs') == FreeCount(fs) + Cost(High(fs, f)) - Cost(High(fs', f))
            && SameFiles(fs, fs', {f})
  {
    hide Inv, Contents, Entries, High, FreeCount, TotalCost, Leaked, Cost, ChangeSize, Dangles, Frame, SameFiles;
    assert SafeCall(fs, f, 0) by { NotGrowing(fs, f); }
    ResizeEffect(fs, f, 0);
    FrameContents(fs, f, 0);
    ResizeMeta(fs, f, 0);
    hide Resize;
    var fs' := Resize(fs, f, 0).0;
    forall g | 0 <= g < |fs.inodes| ensures SizeFits(fs'.inodes[g]) && Dirs(fs')[g] == Dirs(fs)[g] { }
    SameFilesBut(fs, fs', f);
  }

  lemma NotGrowing(fs: Fs, f: nat)
    requires f < |fs.inodes|
    ensures !Dangles(fs, f, 0)
  {
  }

  lemma CountedUsed(inodes: seq<Inode>, dirs: seq<seq<Entry>>, d: nat, k: nat)
    requires Counted(inodes, dirs) && d < |dirs| && k < |dirs[d]| && dirs[d][k].ino != 0
    ensures dirs[d][k].ino < |inodes| && inodes[dirs[d][k].ino].nlink > 0
  {
  }

  lemma UnlinkKeeps(fs: Fs, d: nat, name: seq<Byte>)
    requires Linked(fs) && IsDir(fs, d)
    requires HasName(fs, d, name)
      ==> Names(Dirs(fs)[d])[name] < |fs.inodes| && fs.inodes[Names(Dirs(fs)[d])[name]].ftype == FTYPE_REG
    ensures var (fs', r) := Unlink(fs, d, name);
            && Linked(fs') && r in {Success, ENOENT}
            && (r == ENOENT <==> !HasName(fs, d, name)) && (r == ENOENT ==> fs' == fs)
            && (r == Success ==> var f := Names(Dirs(fs)[d])[name];
                                 && OneLess(fs, fs', d, name, f) && Released(fs, fs', f)
                                 && SameFiles(fs, fs', if fs.inodes[f].nlink == 1 then {f} else {}))
  {
    hide Inv, Contents, Entries, Counted, Names, Find, WithFields, WithEntry, Released, High, SameFiles;
    var es := Dirs(fs)[d];
    assert es == Dir(fs, d);
    FindNames(es, name);
    var k := Find(es, name);
    if k < |es| {
      var f := es[k].ino;
      Unnamed(fs, d, k);
      var fs1 := WithEntry(fs, d, k, FourBytes(0));
      var fs2 := WithFields(fs1, f, fs1.inodes[f].size, fs1.inodes[f].ftype, fs1.inodes[f].nlink - 1);
      CountedRemove(fs.inodes, fs2.inodes, Dirs(fs), d, k);
      if fs.inodes[f].nlink == 1 {
        LastLink(fs2, f);
        SameFilesThen(fs, fs2, Resize(fs2, f, 0).0, {f});
        ReleasedLast(fs, fs2, f);
      } else {
        NotReleased(fs, fs2, f);
      }
      var fs' := if fs.inodes[f].nlink == 1 then Resize(fs2, f, 0).0 else fs2;
      assert fs' == Unlink(fs, d, name).0;
      hide Unlink, Resize, Dirs;
      LessFields(fs.inodes, fs'.inodes, f);
      SameCounted(fs2.inodes, fs'.inodes, Dirs(fs2));
    }
  }

  lemma NotReleased(fs: Fs, fs2: Fs, f: nat)
    requires f < |fs.inodes| == |fs2.inodes| && fs.inodes[f].nlink != 1 && fs2.vol.free == fs.vol.free
    requires fs2.inodes[f].size == fs.inodes[f].size
    ensures Released(fs, fs2, f)
  {
  }

  lemma LessFields(inodes: seq<Inode>, inodes': seq<Inode>, f: nat)
    requires Fields(inodes) && f < |inodes| && inodes[f].nlink > 0 && inodes[f].ftype == FTYPE_REG
    requires MetaBut(inodes, inodes', f, inodes[f].nlink - 1)
    requires forall g | 0 <= g < |inodes| && g != f :: inodes'[g].size == inodes[g].size
    requires inodes'[f].nlink == 0 ==> inodes'[f].size == 0
    ensures Fields(inodes')
  {
  }

  lemma SameCounted(inodes: seq<Inode>, inodes': seq<Inode>, dirs: seq<seq<Entry>>)
    requires Counted(inodes, dirs) && |inodes'| == |inodes|
    requires forall g | 0 <= g < |inodes| :: SameMeta(inodes'[g], inodes[g])
    ensures Counted(inodes', dirs)
  {
    hide Unique, Refs;
  }

  lemma ReleasedLast(fs: Fs, fs2: Fs, f: nat)
    requires f < |fs.inodes| == |fs2.inodes| && fs.inodes[f].nlink == 1 && fs2.vol.free == fs.vol.free
    requires fs2.inodes[f].size == fs.inodes[f].size && High(fs2, f) == High(fs, f)
    requires var fs' := Resize(fs2, f, 0).0;
             && |fs'.inodes| == |fs2.inodes|
             && fs'.inodes[f].size == 0 && High(fs', f) == (if Nb(fs2.inodes[f]) > 0 then 1 else High(fs2, f))
             && FreeCount(fs') == FreeCount(fs2) + Cost(High(fs2, f)) - Cost(High(fs', f))
    ensures Released(fs, Resize(fs2, f, 0).0, f)
  {
    hide High, Cost, Resize;
  }

  // -------------------------------------------------------------------------
  // Runs
  // -------------------------------------------------------------------------

  /** change_size keeps the directories in order exactly when it keeps the allocator sound. */
  lemma ResizeKeeps(fs: Fs, f: nat, want: Word32)
    requires Linked(fs) && f < |fs.inodes| && fs.inodes[f].ftype == FTYPE_REG && fs.inodes[f].nlink > 0
    ensures var fs' := Resize(fs, f, want).0;
            && (Linked(fs') <==> SafeCall(fs, f, want))
            && (SafeCall(fs, f, want) ==> SameLinks(fs, fs') && SameFiles(fs, fs', {f}))
  {
    hide Inv, SafeCall, Resize, Contents, Entries, Counted, SameFiles;
    if SafeCall(fs, f, want) {
      var fs' := Resize(fs, f, want).0;
      FrameContents(fs, f, want);
      ResizeMeta(fs, f, want);
      forall g | 0 <= g < |fs.inodes| ensures SizeFits(fs'.inodes[g]) { InvSize(fs', g); }
      forall g | 0 <= g < |fs.inodes| ensures Dirs(fs')[g] == Dirs(fs)[g] {
        if g != f { assert Contents(fs', g) == Contents(fs, g); }
      }
      SameFilesBut(fs, fs', f);
      CountedSame(fs, fs');
    } else {
      UnsafeBreaks(fs, f, want);
    }
  }

  lemma StoreKeeps(fs: Fs, f: nat, i: nat, bytes: seq<Byte>)
    requires Linked(fs) && f < |fs.inodes| && fs.inodes[f].ftype == FTYPE_REG
    requires i + |bytes| <= fs.inodes[f].size && i < fs.inodes[f].size && i % BLKSIZE + |bytes| <= BLKSIZE
    ensures i / BLKSIZE < MAXFILEBLKS
    ensures Linked(WithBytes(fs, f, i, bytes)) && SameLinks(fs, WithBytes(fs, f, i, bytes))
    ensures SameFiles(fs, WithBytes(fs, f, i, bytes), {f})
  {
    hide Inv, Contents, Entries, Counted, WithBytes, SameFiles;
    BytesEffect(fs, f, i, bytes);
    var fs' := WithBytes(fs, f, i, bytes);
    forall g | 0 <= g < |fs.inodes| ensures Dirs(fs')[g] == Dirs(fs)[g] {
      if g != f { assert Contents(fs', g) == Contents(fs, g); }
    }
    SameFilesBut(fs, fs', f);
    CountedSame(fs, fs');
  }

  /** The calls on directories, change_size, and the store of bytes within one block that a
      write makes, after change_size, for each block. */
  datatype Op =
    | DoLink(src: nat, d: nat, name: seq<Byte>)
    | DoCreate(d: nat, name: seq<Byte>)
    | DoUnlink(d: nat, name: seq<Byte>)
    | DoResize(f: nat, want: Word32)
    | DoStore(f: nat, i: nat, bytes: seq<Byte>)

  ghost predicate UsedFile(fs: Fs, f: nat) {
    0 < f < |fs.inodes| && fs.inodes[f].ftype == FTYPE_REG && fs.inodes[f].nlink > 0
  }

  /** What the Linux caller sees to: a directory, regular files in use, names without a null byte. */
  ghost predicate Asked(fs: Fs, op: Op)
    requires Linked(fs)
  {
    match op
    case DoLink(src, d, name) => IsDir(fs, d) && 0 !in name && UsedFile(fs, src)
    case DoCreate(d, name) => IsDir(fs, d) && 0 !in name
    case DoUnlink(d, name) =>
      && IsDir(fs, d) && 0 !in name
      && (HasName(fs, d, name) ==>
            Names(Dirs(fs)[d])[name] < |fs.inodes| && fs.inodes[Names(Dirs(fs)[d])[name]].ftype == FTYPE_REG)
    case DoResize(f, _) => UsedFile(fs, f)
    case DoStore(f, i, bytes) =>
      UsedFile(fs, f) && i < fs.inodes[f].size && i + |bytes| <= fs.inodes[f].size && i % BLKSIZE + |bytes| <= BLKSIZE
  }

  /** When such a call keeps the directories in order. */
  ghost predicate Safe(fs: Fs, op: Op)
    requires Linked(fs) && Asked(fs, op)
  {
    match op
    case DoLink(_, d, name) => |name| > MAXNAMELEN || HasName(fs, d, name) || CanGrow(fs, d)
    case DoCreate(d, name) =>
      HasName(fs, d, name) || FindFreeInode(fs.inodes, 2) == 0 || (SpaceFor(fs, d) && !HasName(fs, d, Cut(name)))
    case DoUnlink(_, _) => true
    case DoResize(f, want) => SafeCall(fs, f, want)
    case DoStore(_, _, _) => true
  }

  /** The inodes that a call names are there. */
  ghost predicate Targets(fs: Fs, op: Op) {
    && |fs.inodes| < TWO32 && AllFit(fs)
    && match op
       case DoLink(src, d, _) => src < |fs.inodes| && d < |fs.inodes|
       case DoCreate(d, _) => d < |fs.inodes|
       case DoUnlink(d, _) => d < |fs.inodes|
       case DoResize(f, _) => f < |fs.inodes|
       case DoStore(f, i, bytes) => f < |fs.inodes| && i % BLKSIZE + |bytes| <= BLKSIZE
  }

  lemma AskedTargets(fs: Fs, op: Op)
    requires Linked(fs) && Asked(fs, op)
    ensures Targets(fs, op)
  {
    hide Inv, Counted, HasName, Dirs, Names;
  }

  ghost function Apply(fs: Fs, op: Op): Fs
    requires Targets(fs, op)
  {
    match op
    case DoLink(src, d, name) => Link(fs, src, d, name).0
    case DoCreate(d, name) => Create(fs, d, name).0
    case DoUnlink(d, name) => Unlink(fs, d, name).0
    case DoResize(f, want) => Resize(fs, f, want).0
    case DoStore(f, i, bytes) => if i / BLKSIZE < MAXFILEBLKS then WithBytes(fs, f, i, bytes) else fs
  }

  /** Each call is asked for properly and safe when it comes, as long as the directories are in order.  That they
      always are is what RunsKeepLinks proves. */
  ghost predicate SafeRun(fs: Fs, ops: seq<Op>)
    decreases |ops|
  {
    || ops == []
    || (Linked(fs) ==>
          && Asked(fs, ops[0]) && Safe(fs, ops[0])
          && (AskedTargets(fs, ops[0]); SafeRun(Apply(fs, ops[0]), ops[1..])))
  }

  ghost function ApplyAll(fs: Fs, ops: seq<Op>): Fs
    requires SafeRun(fs, ops)
    decreases |ops|
  {
    if ops == [] || !Linked(fs) then fs
    else
      AskedTargets(fs, ops[0]);
      ApplyAll(Apply(fs, ops[0]), ops[1..])
  }

  /** One call keeps the directories in order exactly when it is safe. */
  lemma ApplyKeeps(fs: Fs, op: Op)
    requires Linked(fs) && Asked(fs, op)
    ensures Targets(fs, op) && (Linked(Apply(fs, op)) <==> Safe(fs, op))
  {
    AskedTargets(fs, op);
    hide Linked, CanGrow, HasName, SpaceFor, OneMore, OneLess, Released, SameLinks, Blank, Names;
    match op
    case DoLink(src, d, name) => LinkKeeps(fs, src, d, name);
    case DoCreate(d, name) => CreateKeeps(fs, d, name);
    case DoUnlink(d, name) => UnlinkKeeps(fs, d, name);
    case DoResize(f, want) => ResizeKeeps(fs, f, want);
    case DoStore(f, i, bytes) => StoreKeeps(fs, f, i, bytes);
  }

  /** Over every run: names stay unique in each directory, every link count is the number of
      entries, and the allocator's invariant holds. */
  lemma {:induction false} RunsKeepLinks(fs: Fs, ops: seq<Op>)
    requires Linked(fs) && SafeRun(fs, ops)
    ensures Linked(ApplyAll(fs, ops))
    decreases |ops|
  {
    hide Linked, Asked, Safe, Apply;
    if ops != [] {
      ApplyKeeps(fs, ops[0]);
      RunsKeepLinks(Apply(fs, ops[0]), ops[1..]);
    }
  }
}
