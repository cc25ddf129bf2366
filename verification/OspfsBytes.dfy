/** Files as flat byte sequences on top of the block trees. */
module OspfsBytes {
  import opened OspfsDisk
  import opened OspfsTree
  import opened OspfsSpec
  import opened OspfsInv
  import opened OspfsBlocks
  import opened OspfsResize
  import opened OspfsChangeSize

  /** Byte i of a file, found through its block tree. */
  function FileByte(v: Vol, oi: Inode, i: nat): Byte
    requires i / BLKSIZE < MAXFILEBLKS
  {
    Blk(v.disk, At(v.disk, oi, Data(i / BLKSIZE)))[i % BLKSIZE]
  }

  /** What a reader of the file can see. */
  ghost function Contents(fs: Fs, f: nat): (s: seq<Byte>)
    requires f < |fs.inodes| && SizeFits(fs.inodes[f])
    ensures |s| == fs.inodes[f].size
  {
    seq(fs.inodes[f].size, i requires 0 <= i < fs.inodes[f].size => FileByte(fs.vol, fs.inodes[f], i))
  }

  lemma InvSize(fs: Fs, f: nat)
    requires Inv(fs) && f < |fs.inodes|
    ensures SizeFits(fs.inodes[f])
  {
    hide Core;
  }

  /** The byte range of file block b. */
  lemma InBlock(i: nat, n: nat)
    ensures i / BLKSIZE < n <==> i < BLKSIZE * n
  {
  }

  /** Overwriting one data block of a file changes the bytes of that file block only. */
  lemma BlockWrite(fs: Fs, own: Owners, f: nat, b: nat, blk: Block)
    requires InvW(fs, own) && f < |fs.inodes| && b < Nb(fs.inodes[f])
    ensures b < MAXFILEBLKS
    ensures var q := A(fs.vol, fs.inodes, f, Data(b));
            && 0 < q < |fs.vol.disk|
            && var fs' := fs.(vol := fs.vol.(disk := fs.vol.disk[q := blk]));
            && InvW(fs', own)
            && (forall g: nat, i: nat {:trigger FileByte(fs'.vol, fs'.inodes[g], i)} |
                  g < |fs.inodes| && i / BLKSIZE < MAXFILEBLKS ::
                  FileByte(fs'.vol, fs'.inodes[g], i) ==
                    if g == f && i / BLKSIZE == b then blk[i % BLKSIZE] else FileByte(fs.vol, fs.inodes[g], i))
            && (forall g, r | 0 <= g < |fs.inodes| && IsRole(r) ::
                 A(fs'.vol, fs'.inodes, g, r) == A(fs.vol, fs.inodes, g, r))
  {
    hide At, Core, Cost, FileByte;
    var v, inodes, data := fs.vol, fs.inodes, DataStart(fs);
    assert SizeFits(inodes[f]);
    BelowHigh(fs, own, f, b);
    var q := A(v, inodes, f, Data(b));
    PointerOwned(v, inodes, own, data, f, Data(b));
    CoreLayout(v, inodes, own, data);
    var v' := v.(disk := v.disk[q := blk]);
    var fs' := fs.(vol := v');
    forall g, r | 0 <= g < |inodes| && IsRole(r)
      ensures A(v', inodes, g, r) == A(v, inodes, g, r)
    {
      OtherBlock(v, v'.disk, inodes, own, data, g, q, r);
    }
    SameTreesInv(fs, own, fs');
    forall g: nat, i: nat {:trigger FileByte(fs'.vol, fs'.inodes[g], i)} | g < |inodes| && i / BLKSIZE < MAXFILEBLKS
      ensures FileByte(fs'.vol, fs'.inodes[g], i) ==
                if g == f && i / BLKSIZE == b then blk[i % BLKSIZE] else FileByte(fs.vol, fs.inodes[g], i)
    {
      var c := i / BLKSIZE;
      assert A(v', inodes, g, Data(c)) == A(v, inodes, g, Data(c));
      if A(v, inodes, g, Data(c)) == q { PointerOwned(v, inodes, own, data, g, Data(c)); }
      ByteAt(v, v', inodes, g, q, blk, i);
    }
  }

  lemma ByteAt(v: Vol, v': Vol, inodes: seq<Inode>, g: nat, q: nat, blk: Block, i: nat)
    requires g < |inodes| && i / BLKSIZE < MAXFILEBLKS && q < |v.disk| && v'.disk == v.disk[q := blk]
    requires A(v', inodes, g, Data(i / BLKSIZE)) == A(v, inodes, g, Data(i / BLKSIZE))
    ensures FileByte(v', inodes[g], i) ==
              if A(v, inodes, g, Data(i / BLKSIZE)) == q then blk[i % BLKSIZE] else FileByte(v, inodes[g], i)
  {
    hide At;
  }

  /** A change of block contents that leaves all trees alone keeps the invariant. */
  lemma SameTreesInv(fs: Fs, own: Owners, fs': Fs)
    requires InvW(fs, own) && fs'.inodes == fs.inodes
    requires fs'.vol.free == fs.vol.free && fs'.vol.first == fs.vol.first && |fs'.vol.disk| == |fs.vol.disk|
    requires fs'.vol.disk[0] == fs.vol.disk[0]
    requires forall g, r | 0 <= g < |fs.inodes| && IsRole(r) ::
      A(fs'.vol, fs'.inodes, g, r) == A(fs.vol, fs.inodes, g, r)
    ensures InvW(fs', own)
  {
    hide A, Cost;
    assert Free(fs'.vol) == Free(fs.vol);
    forall g | 0 <= g < |fs.inodes|
      ensures SizeFits(fs'.inodes[g]) && High(fs', g) == High(fs, g) && Shape(fs'.vol, fs'.inodes, g, High(fs', g))
    {
      assert SizeFits(fs.inodes[g]) && Shape(fs.vol, fs.inodes, g, High(fs, g));
    }
    assert Highs(fs') == Highs(fs);
    assert Core(fs'.vol, fs'.inodes, own, DataStart(fs'));
  }

  lemma OkFits(fs: Fs, f: nat, want: Word32)
    requires Inv(fs) && f < |fs.inodes| && SafeCall(fs, f, want) && Resize(fs, f, want).1 == OK
    ensures NeedTo(Nb(fs.inodes[f]), High(fs, f), Size2Nblocks(want)) <= FreeCount(fs)
  {
    hide Inv, Resize, SafeCall, High, NeedTo, Frame, NewHigh, FreeCount, TotalCost, Leaked, Lost, Cost;
    ResizeEffect(fs, f, want);
  }

  lemma ResizeTrees(fs: Fs, f: nat, want: Word32)
    requires Inv(fs) && f < |fs.inodes| && SafeCall(fs, f, want) && Resize(fs, f, want).1 == OK
    ensures var (fs', _) := Resize(fs, f, want);
            var n, t := Nb(fs.inodes[f]), Size2Nblocks(want);
            && n < MAXFILEBLKS && t < MAXFILEBLKS && |fs'.inodes| == |fs.inodes|
            && (forall g | 0 <= g < |fs.inodes| && g != f :: fs'.inodes[g] == fs.inodes[g])
            && Frame(fs.vol, fs.inodes, f, if t < n then t + 1 else n, fs'.vol, fs'.inodes)
            && NewZero(fs.vol, fs'.vol, fs'.inodes, f, n, t)
  {
    OkFits(fs, f, want);
    var own :| InvW(fs, own);
    var n, h, t := Nb(fs.inodes[f]), High(fs, f), Size2Nblocks(want);
    var (fs', _) := Resize(fs, f, want);
    InvFits(fs, own, f);
    hide Core, Shape, A, Free, Cost, NeedTo, ChangeSize, At, Blk, High, Nb, DataStart, Frame, NewZero;
    var own' := LoopsOK(fs.vol, fs.inodes, own, DataStart(fs), f, h, want);
    assert SizeFits(fs.inodes[f]);
    HighBound(fs, own, f, fs'.vol, fs'.inodes, own', NewHigh(n, h, t, FreeCount(fs)));
  }

  /** A successful change_size keeps the bytes of the blocks it keeps, gives zeros in
      the blocks it adds, and does not touch other files. */
  lemma ResizeBytes(fs: Fs, f: nat, want: Word32)
    requires Inv(fs) && f < |fs.inodes| && SafeCall(fs, f, want) && Resize(fs, f, want).1 == OK
    ensures var (fs', _) := Resize(fs, f, want);
            var n, t := Nb(fs.inodes[f]), Size2Nblocks(want);
            && n < MAXFILEBLKS && t < MAXFILEBLKS
            && (forall i: nat | i < BLKSIZE * n && i < BLKSIZE * t ::
                 FileByte(fs'.vol, fs'.inodes[f], i) == FileByte(fs.vol, fs.inodes[f], i))
            && (forall i: nat | BLKSIZE * n <= i < BLKSIZE * t :: FileByte(fs'.vol, fs'.inodes[f], i) == 0)
            && (forall g | 0 <= g < |fs.inodes| && g != f :: fs'.inodes[g] == fs.inodes[g] && SizeFits(fs.inodes[g]))
            && (forall g, i: nat | 0 <= g < |fs.inodes| && g != f && i < BLKSIZE * Nb(fs.inodes[g]) ::
                  i / BLKSIZE < MAXFILEBLKS && FileByte(fs'.vol, fs'.inodes[g], i) == FileByte(fs.vol, fs.inodes[g], i))
  {
    hide Resize, Inv, Frame, NewZero, FileByte, Nb, Size2Nblocks, SizeFits, SafeCall;
    ResizeTrees(fs, f, want);
    var n, t := Nb(fs.inodes[f]), Size2Nblocks(want);
    var (fs', _) := Resize(fs, f, want);
    OwnBytes(fs, f, if t < n then t + 1 else n, fs', n, t);
    forall g | 0 <= g < |fs.inodes| && g != f
      ensures SizeFits(fs.inodes[g])
      ensures forall i: nat | i < BLKSIZE * Nb(fs.inodes[g]) ::
                i / BLKSIZE < MAXFILEBLKS && FileByte(fs'.vol, fs'.inodes[g], i) == FileByte(fs.vol, fs.inodes[g], i)
    {
      InvSize(fs, g);
      OtherBytes(fs, f, if t < n then t + 1 else n, fs', g);
    }
  }

  lemma OwnBytes(fs: Fs, f: nat, k: nat, fs': Fs, n: nat, t: nat)
    requires Inv(fs) && f < |fs.inodes| == |fs'.inodes| && n == Nb(fs.inodes[f]) && n < MAXFILEBLKS && t < MAXFILEBLKS
    requires Frame(fs.vol, fs.inodes, f, k, fs'.vol, fs'.inodes) && k >= if t < n then t else n
    requires NewZero(fs.vol, fs'.vol, fs'.inodes, f, n, t)
    ensures forall i: nat | i < BLKSIZE * n && i < BLKSIZE * t ::
      FileByte(fs'.vol, fs'.inodes[f], i) == FileByte(fs.vol, fs.inodes[f], i)
    ensures forall i: nat | BLKSIZE * n <= i < BLKSIZE * t :: FileByte(fs'.vol, fs'.inodes[f], i) == 0
  {
    hide InvW, Frame, NewZero, FileByte, Nb;
    var own :| InvW(fs, own);
    forall i: nat | i < BLKSIZE * n && i < BLKSIZE * t
      ensures i / BLKSIZE < MAXFILEBLKS && FileByte(fs'.vol, fs'.inodes[f], i) == FileByte(fs.vol, fs.inodes[f], i)
    {
      Below(i, n);
      Below(i, t);
      KeptByte(fs, own, f, k, fs', f, i);
    }
    forall i: nat | BLKSIZE * n <= i < BLKSIZE * t ensures FileByte(fs'.vol, fs'.inodes[f], i) == 0 {
      Below(i, t);
      NewByte(fs.vol, fs'.vol, fs'.inodes, f, n, t, i);
    }
  }

  lemma OtherBytes(fs: Fs, f: nat, k: nat, fs': Fs, g: nat)
    requires Inv(fs) && f < |fs.inodes| == |fs'.inodes| && g < |fs.inodes| && g != f
    requires Frame(fs.vol, fs.inodes, f, k, fs'.vol, fs'.inodes)
    ensures forall i: nat | i < BLKSIZE * Nb(fs.inodes[g]) ::
              i / BLKSIZE < MAXFILEBLKS && FileByte(fs'.vol, fs'.inodes[g], i) == FileByte(fs.vol, fs.inodes[g], i)
  {
    hide InvW, Frame, FileByte, Nb;
    var own :| InvW(fs, own);
    forall i: nat | i < BLKSIZE * Nb(fs.inodes[g])
      ensures i / BLKSIZE < MAXFILEBLKS && FileByte(fs'.vol, fs'.inodes[g], i) == FileByte(fs.vol, fs.inodes[g], i)
    {
      KeptByte(fs, own, f, k, fs', g, i);
    }
  }

  lemma Below(i: nat, n: nat)
    requires i < BLKSIZE * n
    ensures i / BLKSIZE < n
  {
  }

  lemma KeptByte(fs: Fs, own: Owners, f: nat, k: nat, fs': Fs, g: nat, i: nat)
    requires InvW(fs, own) && f < |fs.inodes| && g < |fs.inodes| && i < BLKSIZE * Nb(fs.inodes[g])
    requires Frame(fs.vol, fs.inodes, f, k, fs'.vol, fs'.inodes) && (g != f || i / BLKSIZE < k)
    ensures i / BLKSIZE < MAXFILEBLKS && g < |fs'.inodes|
    ensures FileByte(fs'.vol, fs'.inodes[g], i) == FileByte(fs.vol, fs.inodes[g], i)
  {
    hide At, Core, Cost;
    assert SizeFits(fs.inodes[g]);
    var b := i / BLKSIZE;
    BelowHigh(fs, own, g, b);
    assert InTree(Data(b), k) <==> b < k;
    assert A(fs'.vol, fs'.inodes, g, Data(b)) == A(fs.vol, fs.inodes, g, Data(b));
  }

  lemma NewByte(v: Vol, v1: Vol, ins: seq<Inode>, f: nat, n: nat, t: nat, i: nat)
    requires f < |ins| && NewZero(v, v1, ins, f, n, t) && t < MAXFILEBLKS && BLKSIZE * n <= i < BLKSIZE * t
    ensures FileByte(v1, ins[f], i) == 0
  {
    hide At;
    var b := i / BLKSIZE;
    assert IsRole(Data(b)) && n <= b < t;
    assert A(v1, ins, f, Data(b)) == At(v1.disk, ins[f], Data(b));
  }

  function Splice(b: Block, off: nat, bytes: seq<Byte>): (r: Block)
    requires off + |bytes| <= BLKSIZE
    ensures forall j | 0 <= j < BLKSIZE :: r[j] == if off <= j < off + |bytes| then bytes[j - off] else b[j]
  {
    b[..off] + bytes + b[off + |bytes|..]
  }

  /** fs differs from fs1 in the bytes of file f from position p on, which are `bytes`. */
  ghost predicate Wrote(fs1: Fs, fs: Fs, f: nat, p: nat, bytes: seq<Byte>) {
    && fs.inodes == fs1.inodes && fs.vol.free == fs1.vol.free
    && forall g: nat, i: nat {:trigger FileByte(fs.vol, fs.inodes[g], i)} |
         g < |fs.inodes| && i / BLKSIZE < MAXFILEBLKS ::
         FileByte(fs.vol, fs.inodes[g], i) ==
           if g == f && p <= i < p + |bytes| then bytes[i - p] else FileByte(fs1.vol, fs1.inodes[g], i)
  }

  lemma WroteNothing(fs: Fs, f: nat, p: nat)
    ensures Wrote(fs, fs, f, p, [])
  {
  }

  /** The file system after `chunk` is copied to byte i of file f, within one block. */
  ghost function WithBytes(fs: Fs, f: nat, i: nat, chunk: seq<Byte>): Fs
    requires f < |fs.inodes| && i / BLKSIZE < MAXFILEBLKS && i % BLKSIZE + |chunk| <= BLKSIZE
  {
    var q := At(fs.vol.disk, fs.inodes[f], Data(i / BLKSIZE));
    if q < |fs.vol.disk| then
      fs.(vol := fs.vol.(disk := fs.vol.disk[q := Splice(fs.vol.disk[q], i % BLKSIZE, chunk)]))
    else fs
  }

  /** A chunk copied after the bytes written so far keeps the invariant and adds to them. */
  ghost predicate Stepped(fs1: Fs, fs: Fs, own: Owners, f: nat, p: nat, bytes: seq<Byte>, chunk: seq<Byte>)
    requires f < |fs.inodes|
  {
    var i := p + |bytes|;
    && i / BLKSIZE < MAXFILEBLKS && i % BLKSIZE + |chunk| <= BLKSIZE
    && 0 < At(fs.vol.disk, fs.inodes[f], Data(i / BLKSIZE)) < |fs.vol.disk|
    && InvW(WithBytes(fs, f, i, chunk), own) && Wrote(fs1, WithBytes(fs, f, i, chunk), f, p, bytes + chunk)
  }

  /** One block's worth of ospfs_write. */
  lemma WroteStep(fs1: Fs, fs: Fs, own: Owners, f: nat, p: nat, bytes: seq<Byte>, chunk: seq<Byte>)
    requires InvW(fs, own) && f < |fs.inodes| && Wrote(fs1, fs, f, p, bytes)
    requires (p + |bytes|) / BLKSIZE < Nb(fs.inodes[f]) && (p + |bytes|) % BLKSIZE + |chunk| <= BLKSIZE
    ensures Stepped(fs1, fs, own, f, p, bytes, chunk)
  {
    hide At, Core, Cost, FileByte, InvW;
    var i := p + |bytes|;
    var b := i / BLKSIZE;
    BlockWrite(fs, own, f, b, ZeroBlock());
    var q := A(fs.vol, fs.inodes, f, Data(b));
    assert q == At(fs.vol.disk, fs.inodes[f], Data(b));
    BlockWrite(fs, own, f, b, Splice(fs.vol.disk[q], i % BLKSIZE, chunk));
    var fs' := WithBytes(fs, f, i, chunk);
    forall g: nat, j: nat {:trigger FileByte(fs'.vol, fs'.inodes[g], j)} | g < |fs.inodes| && j / BLKSIZE < MAXFILEBLKS
      ensures FileByte(fs'.vol, fs'.inodes[g], j) ==
                if g == f && p <= j < p + |bytes + chunk| then (bytes + chunk)[j - p]
                  else FileByte(fs1.vol, fs1.inodes[g], j)
    {
      SameBlockIf(i, j, |chunk|);
      if g == f && j / BLKSIZE == b {
        ByteOf(fs, f, b, j);
        SpliceByte(i, j, |chunk|);
      }
      assert FileByte(fs.vol, fs.inodes[g], j) ==
                if g == f && p <= j < p + |bytes| then bytes[j - p] else FileByte(fs1.vol, fs1.inodes[g], j);
    }
  }

  lemma ByteOf(fs: Fs, f: nat, b: nat, j: nat)
    requires f < |fs.inodes| && j / BLKSIZE == b && b < MAXFILEBLKS
    requires A(fs.vol, fs.inodes, f, Data(b)) < |fs.vol.disk|
    ensures FileByte(fs.vol, fs.inodes[f], j) == fs.vol.disk[A(fs.vol, fs.inodes, f, Data(b))][j % BLKSIZE]
  {
    hide At;
  }

  lemma SpliceByte(i: nat, j: nat, n: nat)
    requires i / BLKSIZE == j / BLKSIZE
    ensures i % BLKSIZE <= j % BLKSIZE < i % BLKSIZE + n <==> i <= j < i + n
    ensures j % BLKSIZE - i % BLKSIZE == j - i
  {
    assert i == BLKSIZE * (i / BLKSIZE) + i % BLKSIZE && j == BLKSIZE * (j / BLKSIZE) + j % BLKSIZE;
  }

  lemma SameBlockIf(i: nat, j: nat, n: nat)
    requires i % BLKSIZE + n <= BLKSIZE
    ensures i <= j < i + n ==> j / BLKSIZE == i / BLKSIZE
  {
    assert i == BLKSIZE * (i / BLKSIZE) + i % BLKSIZE;
    if i <= j < i + n {
      assert BLKSIZE * (i / BLKSIZE) <= j < BLKSIZE * (i / BLKSIZE) + BLKSIZE;
    }
  }

  /** ospfs_write refines a flat byte sequence per file: a successful write at any
      position p, within the file, across its end or past it, replaces exactly bytes
      p..p+|bytes|-1, keeps every other byte the file had, gives zeros in the blocks it
      adds, and leaves all other files alone.  (Bytes between the old end of the file
      and the end of its last block keep whatever the disk held.) */
  lemma WriteFlat(fs: Fs, f: nat, p: nat, bytes: seq<Byte>, fs1: Fs, fs2: Fs)
    requires Inv(fs) && Inv(fs2) && f < |fs.inodes| && p + |bytes| < TWO32
    requires (if |bytes| > fs.inodes[f].size - p
              then p + |bytes| <= TWO32 - BLKSIZE && Resize(fs, f, p + |bytes|) == (fs1, OK) else fs1 == fs)
    requires Wrote(fs1, fs2, f, p, bytes)
    ensures |fs2.inodes| == |fs.inodes|
    ensures forall g | 0 <= g < |fs.inodes| :: SizeFits(fs.inodes[g]) && SizeFits(fs2.inodes[g])
    ensures var c, c' := Contents(fs, f), Contents(fs2, f);
            && |c'| == (if p + |bytes| > |c| then p + |bytes| else |c|)
            && c'[p..p + |bytes|] == bytes
            && (forall i | 0 <= i < |c| && !(p <= i < p + |bytes|) :: c'[i] == c[i])
            && (forall i | BLKSIZE * Nb(fs.inodes[f]) <= i < |c'| && !(p <= i < p + |bytes|) :: c'[i] == 0)
    ensures forall g | 0 <= g < |fs.inodes| && g != f :: Contents(fs2, g) == Contents(fs, g)
  {
    hide FileByte, Core, Inv, ChangeSize, Contents, Frame, Resize, High, Leaked, TotalCost, FreeCount;
    forall g | 0 <= g < |fs.inodes| ensures SizeFits(fs.inodes[g]) { InvSize(fs, g); }
    var grows := |bytes| > fs.inodes[f].size - p;
    if grows {
      OkSafe(fs, f, p + |bytes|);
      ResizeEffect(fs, f, p + |bytes|);
      ResizeCount(fs, f, p + |bytes|);
      ResizeBytes(fs, f, p + |bytes|);
      SizeOfBlocks(p + |bytes|);
      BlocksMonotone(fs.inodes[f].size, p + |bytes|);
    }
    forall g | 0 <= g < |fs2.inodes| ensures SizeFits(fs2.inodes[g]) { InvSize(fs2, g); }
    ContentsAfter(fs, fs1, fs2, f, p, bytes);
    forall g | 0 <= g < |fs.inodes| && g != f
      ensures Contents(fs2, g) == Contents(fs, g)
    {
      OtherContents(fs, fs1, fs2, f, p, bytes, g);
    }
  }

  lemma ContentsAfter(fs: Fs, fs1: Fs, fs2: Fs, f: nat, p: nat, bytes: seq<Byte>)
    requires f < |fs.inodes| && f < |fs1.inodes| && SizeFits(fs.inodes[f]) && SizeFits(fs1.inodes[f])
    requires fs1.inodes[f].size == (if p + |bytes| > fs.inodes[f].size then p + |bytes| else fs.inodes[f].size)
    requires Wrote(fs1, fs2, f, p, bytes)
    requires forall i: nat | i < BLKSIZE * Nb(fs1.inodes[f]) ::
               i / BLKSIZE < MAXFILEBLKS &&
               FileByte(fs1.vol, fs1.inodes[f], i) ==
                 if i < BLKSIZE * Nb(fs.inodes[f]) && i / BLKSIZE < MAXFILEBLKS then FileByte(fs.vol, fs.inodes[f], i)
                   else 0
    ensures var c, c' := Contents(fs, f), Contents(fs2, f);
            && |c'| == (if p + |bytes| > |c| then p + |bytes| else |c|)
            && c'[p..p + |bytes|] == bytes
            && (forall i | 0 <= i < |c| && !(p <= i < p + |bytes|) :: c'[i] == c[i])
            && (forall i | BLKSIZE * Nb(fs.inodes[f]) <= i < |c'| && !(p <= i < p + |bytes|) :: c'[i] == 0)
  {
    hide FileByte;
    var c, c', n := Contents(fs, f), Contents(fs2, f), Nb(fs.inodes[f]);
    forall i: nat | i < |c'|
      ensures c'[i] == if p <= i < p + |bytes| then bytes[i - p]
                       else if i < BLKSIZE * n && i / BLKSIZE < MAXFILEBLKS then FileByte(fs.vol, fs.inodes[f], i)
                         else 0
    {
      InBlock(i, Nb(fs2.inodes[f]));
      assert FileByte(fs2.vol, fs2.inodes[f], i) == if p <= i < p + |bytes| then bytes[i - p]
        else FileByte(fs1.vol, fs1.inodes[f], i);
    }
    assert c'[p..p + |bytes|] == bytes;
    forall i | 0 <= i < |c| && !(p <= i < p + |bytes|) ensures c'[i] == c[i] { InBlock(i, n); }
  }

  lemma BlocksMonotone(a: Word32, b: Word32)
    requires a <= b <= TWO32 - BLKSIZE
    ensures Size2Nblocks(a) <= Size2Nblocks(b)
  {
  }

  lemma OtherContents(fs: Fs, fs1: Fs, fs2: Fs, f: nat, p: nat, bytes: seq<Byte>, g: nat)
    requires f < |fs.inodes| && g < |fs.inodes| == |fs1.inodes| && g != f && SizeFits(fs.inodes[g])
    requires fs1.inodes[g] == fs.inodes[g] && Wrote(fs1, fs2, f, p, bytes)
    requires forall i: nat | i < BLKSIZE * Nb(fs.inodes[g]) ::
               i / BLKSIZE < MAXFILEBLKS && FileByte(fs1.vol, fs1.inodes[g], i) == FileByte(fs.vol, fs.inodes[g], i)
    ensures Contents(fs2, g) == Contents(fs, g)
  {
    hide FileByte;
    var c, c' := Contents(fs, g), Contents(fs2, g);
    forall i: nat | i < |c| ensures c'[i] == c[i] {
      assert FileByte(fs2.vol, fs2.inodes[g], i) == FileByte(fs1.vol, fs1.inodes[g], i);
    }
  }
}
