/** change_size over a whole file system: what every call keeps, when it fails, what
    a failed call restores, and what the code's remove_block index costs. */
module OspfsChangeSize {
  import opened OspfsDisk
  import opened OspfsTree
  import opened OspfsSpec
  import opened OspfsInv
  import opened OspfsBlocks
  import opened OspfsResize

  /** First block after the inode blocks, 16 inodes to a block. */
  function DataStart(fs: Fs): nat { fs.vol.first + (|fs.inodes| + 15) / 16 }

  /** File blocks the tree of file f holds: its n blocks, and one more if index n is set. */
  ghost function High(fs: Fs, f: nat): nat
    requires f < |fs.inodes|
  {
    var n := Nb(fs.inodes[f]);
    if n < MAXFILEBLKS && A(fs.vol, fs.inodes, f, Data(n)) != 0 then n + 1 else n
  }

  ghost function Highs(fs: Fs): seq<nat> {
    seq(|fs.inodes|, f requires 0 <= f < |fs.inodes| => High(fs, f))
  }

  function SumCosts(hs: seq<nat>): nat {
    if hs == [] then 0 else SumCosts(hs[..|hs| - 1]) + Cost(hs[|hs| - 1])
  }

  ghost function TotalCost(fs: Fs): nat { SumCosts(Highs(fs)) }

  ghost function FreeCount(fs: Fs): nat { |Free(fs.vol)| }

  /** Size and block count of an inode agree; they do not once size + 1023 wraps. */
  predicate SizeFits(oi: Inode) { Nb(oi) < MAXFILEBLKS && oi.size <= BLKSIZE * Nb(oi) }

  ghost predicate InvW(fs: Fs, own: Owners) {
    && Core(fs.vol, fs.inodes, own, DataStart(fs))
    && (forall f | 0 <= f < |fs.inodes| :: SizeFits(fs.inodes[f]) && Shape(fs.vol, fs.inodes, f, High(fs, f)))
    && |own| == TotalCost(fs)
  }

  /** The kernel allocator's invariant. */
  ghost predicate Inv(fs: Fs) { exists own :: InvW(fs, own) }

  lemma {:induction false} SumUpdate(hs: seq<nat>, f: nat, h: nat)
    requires f < |hs|
    ensures SumCosts(hs[f := h]) == SumCosts(hs) - Cost(hs[f]) + Cost(h)
  {
    var k := |hs| - 1;
    if f == k {
      assert hs[f := h][..k] == hs[..k];
    } else {
      assert hs[f := h][..k] == hs[..k][f := h];
      SumUpdate(hs[..k], f, h);
    }
  }

  lemma {:induction false} SumAtLeast(hs: seq<nat>, f: nat)
    requires f < |hs|
    ensures SumCosts(hs) >= Cost(hs[f])
  {
    if f < |hs| - 1 { SumAtLeast(hs[..|hs| - 1], f); }
  }

  lemma {:induction false} RangeSize(s: set<int>, lo: int, hi: int)
    requires lo <= hi && forall x :: x in s ==> lo <= x && x < hi
    ensures |s| <= hi - lo
    decreases hi - lo
  {
    if lo == hi {
      assert s == {};
    } else {
      RangeSize(s - {hi - 1}, lo, hi - 1);
    }
  }

  /** Free and owned blocks are distinct data blocks, so their number is bounded. */
  lemma Population(v: Vol, inodes: seq<Inode>, own: Owners, data: nat)
    requires Core(v, inodes, own, data)
    ensures |Free(v)| + |own| <= |v.disk| - data
  {
    var s := Free(v) + own.Keys;
    assert Free(v) * own.Keys == {};
    assert |s| == |Free(v)| + |own.Keys|;
    RangeSize(s, data, |v.disk|);
  }

  lemma InvFits(fs: Fs, own: Owners, f: nat)
    requires InvW(fs, own) && f < |fs.inodes|
    ensures Fits(fs.vol, fs.inodes, own, DataStart(fs), f, High(fs, f))
  {
    hide A, At, Free, Shape;
    Population(fs.vol, fs.inodes, own, DataStart(fs));
    SumAtLeast(Highs(fs), f);
  }

  /** The number of file blocks the tree of f is left with by a resize to target blocks. */
  function NewHigh(n: nat, h: nat, target: nat, free: nat): nat {
    if NeedTo(n, h, target) > free then (if Need(n, h) > free then h else n + 1)
    else if n < target then target
    else if n == target then h
    else target + 1
  }

  /** change_size leaves a freed block behind as the file's doubly indirect block:
      the file has exactly 266 blocks and no doubly indirect block, it is to grow, and
      two blocks are free. */
  ghost predicate Dangles(fs: Fs, f: nat, want: Word32)
    requires f < |fs.inodes|
  {
    Size2Nblocks(want) > Nb(fs.inodes[f]) && DanglesAt(Nb(fs.inodes[f]), High(fs, f), FreeCount(fs))
  }

  lemma ShapeHigh(fs: Fs, f: nat, h: nat)
    requires f < |fs.inodes| && Nb(fs.inodes[f]) < MAXFILEBLKS && Shape(fs.vol, fs.inodes, f, h)
    requires h == Nb(fs.inodes[f]) || h == Nb(fs.inodes[f]) + 1
    ensures High(fs, f) == h
  {
    hide A;
    assert InTree(Data(Nb(fs.inodes[f])), h) <==> h > Nb(fs.inodes[f]);
  }

  /** A file system in which file f was resized and everything else framed is sound again. */
  lemma OtherFile(fs: Fs, f: nat, k: nat, fs': Fs, g: nat)
    requires g < |fs.inodes| == |fs'.inodes| && g != f && Nb(fs.inodes[g]) < MAXFILEBLKS
    requires Frame(fs.vol, fs.inodes, f, k, fs'.vol, fs'.inodes) && Shape(fs.vol, fs.inodes, g, High(fs, g))
    ensures fs'.inodes[g] == fs.inodes[g] && High(fs', g) == High(fs, g)
    ensures Shape(fs'.vol, fs'.inodes, g, High(fs', g))
  {
    hide A;
    var n := Nb(fs.inodes[g]);
    assert A(fs'.vol, fs'.inodes, g, Data(n)) == A(fs.vol, fs.inodes, g, Data(n));
    forall r | IsRole(r) ensures A(fs'.vol, fs'.inodes, g, r) == A(fs.vol, fs.inodes, g, r) { }
  }

  lemma Reassemble(fs: Fs, own: Owners, f: nat, h: nat, k: nat, fs': Fs, own': Owners)
    requires InvW(fs, own) && f < |fs.inodes| == |fs'.inodes|
    requires Core(fs'.vol, fs'.inodes, own', DataStart(fs)) && Shape(fs'.vol, fs'.inodes, f, h)
    requires SizeFits(fs'.inodes[f]) && (h == Nb(fs'.inodes[f]) || h == Nb(fs'.inodes[f]) + 1)
    requires Frame(fs.vol, fs.inodes, f, k, fs'.vol, fs'.inodes)
    requires |own'| == |own| - Cost(High(fs, f)) + Cost(h)
    ensures InvW(fs', own') && High(fs', f) == h
    ensures Highs(fs') == Highs(fs)[f := h]
    ensures DataStart(fs') == DataStart(fs) && |fs'.vol.disk| == |fs.vol.disk|
  {
    hide A, Core, Cost, InTree, Nb, High, Shape;
    ShapeHigh(fs', f, h);
    assert DataStart(fs') == DataStart(fs);
    forall g | 0 <= g < |fs'.inodes| && g != f
      ensures High(fs', g) == High(fs, g) && Shape(fs'.vol, fs'.inodes, g, High(fs', g)) && SizeFits(fs'.inodes[g])
    {
      assert Shape(fs.vol, fs.inodes, g, High(fs, g)) && SizeFits(fs.inodes[g]);
      OtherFile(fs, f, k, fs', g);
    }
    assert Highs(fs') == Highs(fs)[f := h];
    SumUpdate(Highs(fs), f, h);
  }

  /** remove_block at index 266 clears a doubly indirect pointer to a zeroed free block
      and touches nothing else. */
  lemma RemoveMends(v: Vol, oi: Inode)
    requires 2 <= v.first && 0 < |v.disk| == |v.free| && v.disk[0] == ZeroBlock()
    requires oi.indirect2 < |v.disk| && v.disk[oi.indirect2] == ZeroBlock() && v.free[oi.indirect2]
    ensures RemoveAt(v, oi, 266) == (v, oi.(indirect2 := 0))
  {
    hide Word;
    ZeroNoWords();
    SetWordSame(ZeroBlock(), 0);
    assert At(v.disk, oi, Sub(0)) == 0 && At(v.disk, oi, Data(266)) == 0;
    assert FreeBlock(v, 0) == v && Holder(v.disk, oi, Data(266)) == 0;
    assert v.disk[0 := SetWord(v.disk[0], 0, 0)] == v.disk;
    assert v.disk[oi.indirect2 := SetWord(v.disk[oi.indirect2], 0, 0)] == v.disk;
    assert Drop(v, oi, Data(266)) == (v, oi);
    assert Drop(v, oi, Sub(0)) == (v, oi);
    assert FreeBlock(v, oi.indirect2) == v by { assert v.free[oi.indirect2 := true] == v.free; }
  }

  /** Undoing a failed growth by at least one block also clears a dangling pointer. */
  lemma ShrinkMends(v: Vol, inodes: seq<Inode>, own: Owners, data: nat, f: nat, oi: Inode, target: nat)
    requires f < |inodes| && Core(v, inodes, own, data) && Shape(v, inodes, f, 266)
    requires inodes[f] == oi.(indirect2 := 0) && Nb(oi) == 266 && target < 266
    requires oi.indirect2 in Free(v) && v.disk[oi.indirect2] == ZeroBlock()
    ensures Shrink(v, oi, target) == Shrink(v, inodes[f], target)
  {
    hide RemoveAt, A;
    RemoveMends(v, oi);
    RemoveNull(v, inodes, own, data, f, 266);
    assert RemoveBlock(v, oi) == RemoveBlock(v, inodes[f]);
  }

  lemma LoopsOK(v: Vol, inodes: seq<Inode>, own: Owners, data: nat, f: nat, h: nat, want: Word32) returns (own': Owners)
    requires Fits(v, inodes, own, data, f, h)
    requires NeedTo(Nb(inodes[f]), h, Size2Nblocks(want)) <= |Free(v)|
    ensures var n, t := Nb(inodes[f]), Size2Nblocks(want);
            var (v1, oi1, r) := ChangeSize(v, inodes[f], want);
            var ins := inodes[f := oi1];
            var h' := NewHigh(n, h, t, |Free(v)|);
            && r == OK && oi1.size == want && SameMeta(oi1, inodes[f])
            && Core(v1, ins, own', data) && Shape(v1, ins, f, h')
            && |own'| == |own| + Cost(h') - Cost(h)
            && |Free(v1)| == |Free(v)| + Cost(h) - Cost(h') - Lost(n, h, t)
            && Frame(v, inodes, f, if t < n then t + 1 else n, v1, ins)
            && NewZero(v, v1, ins, f, n, t)
  {
    hide Core, Shape, A, Frame, Grow, Shrink, Free, Cost, Within;
    var n, t := Nb(inodes[f]), Size2Nblocks(want);
    NblocksStep(want);
    var owna := GrowSucceeds(v, inodes, own, data, f, h, t);
    var (va, oia, _) := Grow(v, inodes[f], t);
    var insa := inodes[f := oia];
    own' := owna;
    var h' := if n < t then t else h;
    var k := if t < n then t + 1 else n;
    var (vb, oib) := Shrink(va, oia, t);
    var insb := inodes[f := oib];
    assert insa[f := oib] == insb;
    if Nb(oia) > t {
      NeedToZero(n, h, t);
      own' := Shrinks(va, insa, owna, data, f, h, t);
      h' := t + 1;
      FrameChain2(v, inodes, f, n, va, insa, t + 1, vb, insb);
    } else {
      assert (vb, oib) == (va, oia) by { ShrinkNothing(va, oia, t); }
    }
    var oi1 := oib.(size := want);
    var ins := inodes[f := oi1];
    assert insb[f := oi1] == ins;
    Resized(vb, insb, own', data, f, h', oi1);
    FrameRefl(vb, insb, f, k, oi1);
    FrameChain(v, inodes, f, k, vb, insb, k, vb, ins);
    forall b: nat | n <= b < t && IsRole(Data(b))
      ensures A(vb, ins, f, Data(b)) == A(vb, insb, f, Data(b))
    {
      SizeFrame(vb, insb, f, oi1, f, Data(b));
    }
    NeedIs(n, h, t);
  }

  lemma NeedIs(n: nat, h: nat, t: nat)
    requires h == n || h == n + 1
    ensures n < t ==> NeedTo(n, h, t) == Cost(t) - Cost(h) + Lost(n, h, t)
    ensures Need(n, h) == Cost(n + 1) - Cost(h) + Lost(n, h, n + 1)
  {
    hide Cost;
  }

  lemma ShrinkNothing(v: Vol, oi: Inode, t: nat)
    requires Nb(oi) <= t
    ensures Shrink(v, oi, t) == (v, oi)
  {
  }

  /** A failed call either took nothing, or is left as after one add_block whose size
      update was taken back. */
  lemma LoopsENOSPC(v: Vol, inodes: seq<Inode>, own: Owners, data: nat, f: nat, h: nat, want: Word32)
    returns (own': Owners)
    requires Fits(v, inodes, own, data, f, h)
    requires NeedTo(Nb(inodes[f]), h, Size2Nblocks(want)) > |Free(v)|
    ensures var n := Nb(inodes[f]);
            var (v1, oi1, r) := ChangeSize(v, inodes[f], want);
            var first := Need(n, h) > |Free(v)|;
            var d := first && DanglesAt(n, h, |Free(v)|);
            var ins := inodes[f := Mended(oi1, d)];
            var h' := if first then h else n + 1;
            && n < Size2Nblocks(want)
            && r == ENOSPC && oi1.size == inodes[f].size && SameMeta(oi1, inodes[f])
            && Core(v1, ins, own', data) && Shape(v1, ins, f, h')
            && |own'| == |own| + Cost(h') - Cost(h)
            && |Free(v1)| == |Free(v)| + Cost(h) - Cost(h') - (if first then 0 else Lost(n, h, n + 1))
            && Frame(v, inodes, f, if first then MAXFILEBLKS else n, v1, ins)
            && (first ==> v1.free == v.free && Mended(oi1, d) == inodes[f])
            && (d ==> oi1.indirect2 in Free(v1) && oi1.indirect2 < |v1.disk| && v1.disk[oi1.indirect2] == ZeroBlock())
  {
    hide Core, Shape, A, Frame, Grow, Shrink, Free, Cost, NeedTo, Need, Within;
    var n, t := Nb(inodes[f]), Size2Nblocks(want);
    NblocksStep(want);
    if n >= t { NeedToZero(n, h, t); assert false; }
    var owna, m := GrowFails(v, inodes, own, data, f, h, t);
    var (va, oia, _) := Grow(v, inodes[f], t);
    var d := DanglesAt(m, HighAfter(n, h, m), |Free(va)|);
    var oim := Mended(oia, d);
    var insa := inodes[f := oim];
    NeedToZero(n, h, n);
    NeedIs(n, h, m);
    own' := owna;
    if m == n {
      ShrinkNothing(va, oia, n);
      assert oia.(size := inodes[f].size) == oia by { assert oim.size == oia.size; }
    } else {
      if n < m - 1 {
        NeedToStep(n, h, m);
        NeedToPositive(n + 1, n + 1, m);
      } else {
        NeedToStep(n, h, m);
        NeedToZero(n + 1, n + 1, m);
      }
      own' := Shrinks(va, insa, owna, data, f, m, n);
      if d { ShrinkMends(va, insa, owna, data, f, oia, n); }
      var (vb, oib) := Shrink(va, oim, n);
      var insb := inodes[f := oib];
      assert insa[f := oib] == insb;
      var oi1 := oib.(size := inodes[f].size);
      var ins := inodes[f := oi1];
      assert insb[f := oi1] == ins;
      FrameChain(v, inodes, f, n, va, insa, n + 1, vb, insb);
      Resized(vb, insb, own', data, f, n + 1, oi1);
      FrameRefl(vb, insb, f, n, oi1);
      FrameChain(v, inodes, f, n, vb, insb, n, vb, ins);
      NeedIs(n, h, n + 1);
    }
  }

  lemma InvBound(fs: Fs, own: Owners, f: nat)
    requires InvW(fs, own) && f < |fs.inodes|
    ensures Nb(fs.inodes[f]) < MAXFILEBLKS
  {
    hide Core;
  }

  /** The loops of change_size, every case but the dangling one.  `keep` is the number
      of leading file blocks that are untouched. */
  lemma LoopsEffect(fs: Fs, own: Owners, f: nat, want: Word32) returns (own': Owners)
    requires InvW(fs, own) && f < |fs.inodes| && !Dangles(fs, f, want)
    ensures var n, h, t := Nb(fs.inodes[f]), High(fs, f), Size2Nblocks(want);
            var (v, oi, r) := ChangeSize(fs.vol, fs.inodes[f], want);
            var ins := fs.inodes[f := oi];
            var h' := NewHigh(n, h, t, FreeCount(fs));
            && (r == OK <==> NeedTo(n, h, t) <= FreeCount(fs))
            && oi.size == (if r == OK then want else fs.inodes[f].size) && SameMeta(oi, fs.inodes[f])
            && Core(v, ins, own', DataStart(fs)) && Shape(v, ins, f, h')
            && |own'| == |own| - Cost(h) + Cost(h')
            && |Free(v)| == FreeCount(fs) + Cost(h) - Cost(h') - (if FreeCount(fs) > 0 then Lost(n, h, t) else 0)
            && Frame(fs.vol, fs.inodes, f, if r == OK && t < n then t + 1 else n, v, ins)
            && (r == ENOSPC && Need(n, h) > FreeCount(fs) ==> v.free == fs.vol.free && oi == fs.inodes[f])
  {
    hide Core, Shape, A, Frame, Need, NeedTo, Cost, Grow, Shrink, High, Free, InvW, TotalCost;
    var n, h, t := Nb(fs.inodes[f]), High(fs, f), Size2Nblocks(want);
    InvFits(fs, own, f);
    NblocksStep(want);
    NeedPositive(n, h);
    var v, inodes, data := fs.vol, fs.inodes, DataStart(fs);
    var (vz, oiz, r) := ChangeSize(v, inodes[f], want);
    if NeedTo(n, h, t) <= |Free(v)| {
      if n < t { NeedToStep(n, h, t); NeedToPositive(n + 1, n + 1, t); }
      own' := LoopsOK(v, inodes, own, data, f, h, want);
    } else {
      own' := LoopsENOSPC(v, inodes, own, data, f, h, want);
      var k := if Need(n, h) > |Free(v)| then MAXFILEBLKS else n;
      InvBound(fs, own, f);
      FrameWeaken(v, inodes, f, k, n, vz, inodes[f := oiz]);
    }
  }

  // ---------------------------------------------------------------------------
  // Main results
  // ---------------------------------------------------------------------------

  lemma TreesMean(fs: Fs, own: Owners, f: nat, r: Role)
    requires InvW(fs, own) && f < |fs.inodes| && IsRole(r)
    ensures var p := A(fs.vol, fs.inodes, f, r);
            && (p != 0 ==>
                 p in own && own[p] == Tag(f, r) && DataStart(fs) <= p < |fs.vol.disk| == |fs.vol.free|
                 && !fs.vol.free[p])
            && (InTree(r, Nb(fs.inodes[f])) ==> p != 0)
            && (p != 0 ==> InTree(r, Nb(fs.inodes[f]) + 1))
  {
    hide A;
    assert Shape(fs.vol, fs.inodes, f, High(fs, f));
    assert InTree(r, Nb(fs.inodes[f])) ==> InTree(r, High(fs, f));
    assert InTree(r, High(fs, f)) ==> InTree(r, Nb(fs.inodes[f]) + 1);
  }

  /** What the invariant means: all blocks reachable from all files are distinct data
      blocks that are not free, and each file's tree is exactly what its blocks need. */
  lemma InvMeans(fs: Fs)
    requires Inv(fs)
    ensures forall f, r, g, s | 0 <= f < |fs.inodes| && 0 <= g < |fs.inodes| && IsRole(r) && IsRole(s) ::
              A(fs.vol, fs.inodes, f, r) != 0 && A(fs.vol, fs.inodes, f, r) == A(fs.vol, fs.inodes, g, s)
              ==> f == g && r == s
    ensures forall f, r | 0 <= f < |fs.inodes| && IsRole(r) ::
              var p := A(fs.vol, fs.inodes, f, r);
              && (p != 0 ==> DataStart(fs) <= p < |fs.vol.disk| && !fs.vol.free[p])
              && (InTree(r, Nb(fs.inodes[f])) ==> p != 0)
              && (p != 0 ==> InTree(r, Nb(fs.inodes[f]) + 1))
  {
    hide A, InvW, InTree;
    var own :| InvW(fs, own);
    forall f, r | 0 <= f < |fs.inodes| && IsRole(r)
      ensures var p := A(fs.vol, fs.inodes, f, r);
              && (p != 0 ==>
                   p in own && own[p] == Tag(f, r) && DataStart(fs) <= p < |fs.vol.disk| == |fs.vol.free|
                   && !fs.vol.free[p])
              && (InTree(r, Nb(fs.inodes[f])) ==> p != 0)
              && (p != 0 ==> InTree(r, Nb(fs.inodes[f]) + 1))
    {
      TreesMean(fs, own, f, r);
    }
  }

  /** Data blocks that are neither free nor reachable from any file. */
  ghost function Leaked(fs: Fs): set<int> {
    set p | DataStart(fs) <= p < |fs.vol.disk| && p !in Free(fs.vol)
            && !(exists f, r :: 0 <= f < |fs.inodes| && IsRole(r) && A(fs.vol, fs.inodes, f, r) == p)
  }

  lemma LeakedCount(fs: Fs, own: Owners)
    requires InvW(fs, own)
    ensures |Leaked(fs)| == |fs.vol.disk| - DataStart(fs) - FreeCount(fs) - TotalCost(fs)
  {
    hide A;
    var lo, hi := DataStart(fs), |fs.vol.disk|;
    var all := Free(fs.vol) + own.Keys + Leaked(fs);
    forall p
      ensures p in all <==> lo <= p < hi
    {
      if p in own { assert A(fs.vol, fs.inodes, own[p].file, own[p].role) == p; }
    }
    RangeExact(all, lo, hi);
    assert Free(fs.vol) * own.Keys == {} && (Free(fs.vol) + own.Keys) * Leaked(fs) == {};
    assert |all| == |Free(fs.vol)| + |own.Keys| + |Leaked(fs)|;
  }

  lemma {:induction false} RangeExact(s: set<int>, lo: int, hi: int)
    requires lo <= hi && forall x :: x in s <==> lo <= x && x < hi
    ensures |s| == hi - lo
    decreases hi - lo
  {
    if lo == hi {
      RangeSize(s, lo, hi);
    } else {
      RangeExact(s - {hi - 1}, lo, hi - 1);
    }
  }

  /** Free blocks, blocks in files and lost blocks add up to the data area. */
  lemma Conservation(fs: Fs)
    requires Inv(fs)
    ensures FreeCount(fs) + TotalCost(fs) + |Leaked(fs)| == |fs.vol.disk| - DataStart(fs)
  {
    var own :| InvW(fs, own);
    LeakedCount(fs, own);
  }

  /** A call the invariant survives: it neither dangles nor asks for a size whose
      rounding up to blocks wraps at 2^32. */
  ghost predicate SafeCall(fs: Fs, f: nat, want: Word32)
    requires f < |fs.inodes|
  {
    !Dangles(fs, f, want) && want <= TWO32 - BLKSIZE
  }

  lemma SizeOfBlocks(want: Word32)
    ensures want <= TWO32 - BLKSIZE ==> want <= BLKSIZE * Size2Nblocks(want)
    ensures want > TWO32 - BLKSIZE ==> Size2Nblocks(want) == 0
  {
  }

  /** An inode that points at a free block breaks the invariant. */
  lemma DanglingUnsound(fs: Fs, f: nat)
    requires f < |fs.inodes| && fs.inodes[f].indirect2 as int in Free(fs.vol)
    ensures !Inv(fs)
  {
    hide At, Shape, TotalCost, SizeFits;
    if own :| InvW(fs, own) {
      assert A(fs.vol, fs.inodes, f, Ind2) == fs.inodes[f].indirect2 by { Ind2At(fs.vol.disk, fs.inodes[f]); }
      FreeNotNull(fs.vol, fs.inodes, own, DataStart(fs), fs.inodes[f].indirect2);
      assert false;
    }
  }

  /** A call whose size wraps leaves an inode whose size exceeds its blocks; a
      dangling call leaves an inode that points to a free block. */
  lemma UnsafeBreaks(fs: Fs, f: nat, want: Word32)
    requires Inv(fs) && f < |fs.inodes| && !SafeCall(fs, f, want)
    ensures !Inv(Resize(fs, f, want).0)
  {
    hide At, ChangeSize;
    var own :| InvW(fs, own);
    var (fs', r) := Resize(fs, f, want);
    SizeOfBlocks(want);
    InvFits(fs, own, f);
    var n, h, t := Nb(fs.inodes[f]), High(fs, f), Size2Nblocks(want);
    if Dangles(fs, f, want) {
      DanglesNeeds(fs, f, want);
      var own1 := LoopsENOSPC(fs.vol, fs.inodes, own, DataStart(fs), f, h, want);
      hide Inv;
      DanglingUnsound(fs', f);
    } else {
      NeedToZero(n, h, 0);
      var own1 := LoopsEffect(fs, own, f, want);
      assert fs'.inodes[f].size == want && !SizeFits(fs'.inodes[f]);
    }
  }

  /** A call that would leave a dangling pointer fails. */
  lemma DanglesFails(fs: Fs, f: nat, want: Word32)
    requires Inv(fs) && f < |fs.inodes| && Dangles(fs, f, want)
    ensures Resize(fs, f, want).1 == ENOSPC
  {
    hide At, ChangeSize, Core, Cost, A, Shape, Free;
    var own :| InvW(fs, own);
    InvFits(fs, own, f);
    var n, h, t := Nb(fs.inodes[f]), High(fs, f), Size2Nblocks(want);
    DanglesNeeds(fs, f, want);
    var own1 := LoopsENOSPC(fs.vol, fs.inodes, own, DataStart(fs), f, h, want);
  }

  lemma DanglesNeeds(fs: Fs, f: nat, want: Word32)
    requires f < |fs.inodes| && Dangles(fs, f, want)
    ensures NeedTo(Nb(fs.inodes[f]), High(fs, f), Size2Nblocks(want)) > FreeCount(fs)
  {
    hide High, FreeCount;
    var n, h, t := Nb(fs.inodes[f]), High(fs, f), Size2Nblocks(want);
    NeedCases(266);
    NeedToStep(n, h, t);
    NeedToPositive(n + 1, n + 1, t);
  }

  /** So a call that succeeds was safe, unless its size wrapped. */
  lemma OkSafe(fs: Fs, f: nat, want: Word32)
    requires Inv(fs) && f < |fs.inodes| && want <= TWO32 - BLKSIZE && Resize(fs, f, want).1 == OK
    ensures SafeCall(fs, f, want)
  {
    hide Inv, Resize, Dangles;
    if Dangles(fs, f, want) { DanglesFails(fs, f, want); }
  }

  /** The invariant survives a call exactly when the call is safe. */
  lemma ResizeKeepsInv(fs: Fs, f: nat, want: Word32)
    requires Inv(fs) && f < |fs.inodes|
    ensures Inv(Resize(fs, f, want).0) <==> SafeCall(fs, f, want)
  {
    if SafeCall(fs, f, want) {
      ResizeEffect(fs, f, want);
    } else {
      UnsafeBreaks(fs, f, want);
    }
  }

  lemma HighBound(fs: Fs, own: Owners, f: nat, v: Vol, inodes: seq<Inode>, own': Owners, h: nat)
    requires InvW(fs, own) && f < |fs.inodes| && Core(v, inodes, own', DataStart(fs))
    requires |own'| == |own| - Cost(High(fs, f)) + Cost(h)
    ensures h < MAXFILEBLKS
  {
    hide A, Shape;
    Population(v, inodes, own', DataStart(fs));
    SumAtLeast(Highs(fs), f);
  }

  lemma SumUpdateAt(fs: Fs, f: nat, h: nat)
    requires f < |fs.inodes|
    ensures SumCosts(Highs(fs)[f := h]) == TotalCost(fs) - Cost(High(fs, f)) + Cost(h)
  {
    SumUpdate(Highs(fs), f, h);
  }

  /** The whole effect of a safe call: when it fails, how many file blocks the tree
      ends with, and that a block is lost exactly when growth overwrites the pointer
      to a block an earlier shrink left behind. */
  lemma ResizeEffect(fs: Fs, f: nat, want: Word32)
    requires Inv(fs) && f < |fs.inodes| && SafeCall(fs, f, want)
    ensures var n, h, t := Nb(fs.inodes[f]), High(fs, f), Size2Nblocks(want);
            var (fs', r) := Resize(fs, f, want);
            && Inv(fs')
            && (r == OK <==> NeedTo(n, h, t) <= FreeCount(fs))
            && fs'.inodes[f].size == (if r == OK then want else fs.inodes[f].size)
            && High(fs', f) == NewHigh(n, h, t, FreeCount(fs))
            && TotalCost(fs') == TotalCost(fs) - Cost(h) + Cost(High(fs', f))
            && |Leaked(fs')| == |Leaked(fs)| + (if FreeCount(fs) > 0 then Lost(n, h, t) else 0)
            && FreeCount(fs') + TotalCost(fs') + |Leaked(fs')| == FreeCount(fs) + TotalCost(fs) + |Leaked(fs)|
            && Frame(fs.vol, fs.inodes, f, if r == OK && t < n then t + 1 else n, fs'.vol, fs'.inodes)
  {
    hide At, ChangeSize, Core, Cost, A, Shape, Frame, Free, NeedTo, Need, High, Highs;
    var own :| InvW(fs, own);
    var n, h, t := Nb(fs.inodes[f]), High(fs, f), Size2Nblocks(want);
    var (fs', r) := Resize(fs, f, want);
    SizeOfBlocks(want);
    InvFits(fs, own, f);
    assert SizeFits(fs.inodes[f]);
    var own' := LoopsEffect(fs, own, f, want);
    HighBound(fs, own, f, fs'.vol, fs'.inodes, own', NewHigh(n, h, t, FreeCount(fs)));
    Reassemble(fs, own, f, NewHigh(n, h, t, FreeCount(fs)), if r == OK && t < n then t + 1 else n, fs', own');
    SumUpdateAt(fs, f, NewHigh(n, h, t, FreeCount(fs)));
    LeakedCount(fs, own);
    LeakedCount(fs', own');
  }

  /** A failed call keeps the size, every block of the visible file, and all other files. */
  lemma EnospcKeepsFile(fs: Fs, f: nat, want: Word32)
    requires Inv(fs) && f < |fs.inodes| && Resize(fs, f, want).1 == ENOSPC
    ensures var (fs', _) := Resize(fs, f, want);
            && fs'.inodes[f].size == fs.inodes[f].size
            && (forall b: nat | b < Nb(fs.inodes[f]) && IsRole(Data(b)) ::
                  var p := A(fs.vol, fs.inodes, f, Data(b));
                  A(fs'.vol, fs'.inodes, f, Data(b)) == p && Blk(fs'.vol.disk, p) == Blk(fs.vol.disk, p))
            && (forall g, r | 0 <= g < |fs.inodes| && g != f && IsRole(r) ::
                  fs'.inodes[g] == fs.inodes[g] && A(fs'.vol, fs'.inodes, g, r) == A(fs.vol, fs.inodes, g, r))
  {
    hide At, ChangeSize, Core, Cost, A, Shape, Free, NeedTo, Need, High, Highs;
    var own :| InvW(fs, own);
    var n, h, t := Nb(fs.inodes[f]), High(fs, f), Size2Nblocks(want);
    var (fs', r) := Resize(fs, f, want);
    InvFits(fs, own, f);
    if NeedTo(n, h, t) <= |Free(fs.vol)| {
      var _ := LoopsOK(fs.vol, fs.inodes, own, DataStart(fs), f, h, want);
      assert false;
    }
    var _ := LoopsENOSPC(fs.vol, fs.inodes, own, DataStart(fs), f, h, want);
    InvBound(fs, own, f);
    var d := Need(n, h) > |Free(fs.vol)| && DanglesAt(n, h, |Free(fs.vol)|);
    var ins := fs.inodes[f := Mended(fs'.inodes[f], d)];
    forall b: nat | b < n && IsRole(Data(b))
      ensures var p := A(fs.vol, fs.inodes, f, Data(b));
              p != 0 && A(fs'.vol, fs'.inodes, f, Data(b)) == A(fs'.vol, ins, f, Data(b)) == p
    {
      BelowHigh(fs, own, f, b);
      if d { ShallowAt(fs'.vol, fs'.inodes, ins, f, b); } else { assert ins == fs'.inodes; }
      assert InTree(Data(b), n) && InTree(Data(b), MAXFILEBLKS);
    }
    forall g, r | 0 <= g < |fs.inodes| && g != f && IsRole(r)
      ensures fs'.inodes[g] == fs.inodes[g] && A(fs'.vol, fs'.inodes, g, r) == A(fs.vol, fs.inodes, g, r)
    {
      assert A(fs'.vol, fs'.inodes, g, r) == A(fs'.vol, ins, g, r) by { OtherInode(fs'.vol, fs'.inodes, ins, g, r); }
    }
  }

  lemma OtherInode(v: Vol, ins: seq<Inode>, ins': seq<Inode>, g: nat, r: Role)
    requires g < |ins| == |ins'| && ins[g] == ins'[g] && IsRole(r)
    ensures A(v, ins, g, r) == A(v, ins', g, r)
  {
  }

  lemma BelowHigh(fs: Fs, own: Owners, f: nat, b: nat)
    requires InvW(fs, own) && f < |fs.inodes| && b < Nb(fs.inodes[f]) && IsRole(Data(b))
    ensures A(fs.vol, fs.inodes, f, Data(b)) != 0
  {
    hide A;
    assert Shape(fs.vol, fs.inodes, f, High(fs, f)) && InTree(Data(b), High(fs, f));
  }

  /** File blocks below 266 do not depend on the doubly indirect pointer. */
  lemma ShallowAt(v: Vol, inodes: seq<Inode>, ins: seq<Inode>, f: nat, b: nat)
    requires f < |inodes| == |ins| && b < 266 && ins[f] == inodes[f].(indirect2 := ins[f].indirect2)
    ensures A(v, inodes, f, Data(b)) == A(v, ins, f, Data(b))
  {
    hide Word, Blk;
  }

  /** Size, block map, free map and the bytes of all used blocks are as before. */
  ghost predicate Restored(fs: Fs, fs': Fs) {
    && fs'.inodes == fs.inodes && fs'.vol.free == fs.vol.free && |fs'.vol.disk| == |fs.vol.disk|
    && forall f, b: nat | 0 <= f < |fs.inodes| && IsRole(Data(b)) && A(fs.vol, fs.inodes, f, Data(b)) != 0 ::
         var p := A(fs.vol, fs.inodes, f, Data(b));
         A(fs'.vol, fs'.inodes, f, Data(b)) == p && Blk(fs'.vol.disk, p) == Blk(fs.vol.disk, p)
  }

  lemma Ind2NotFree(fs: Fs, own: Owners, f: nat)
    requires InvW(fs, own) && f < |fs.inodes|
    ensures fs.inodes[f].indirect2 !in Free(fs.vol)
  {
    hide At;
    Ind2At(fs.vol.disk, fs.inodes[f]);
    assert A(fs.vol, fs.inodes, f, Ind2) == fs.inodes[f].indirect2;
  }

  /** A failed call restores everything exactly when its very first add_block was the
      one that failed, and did so without leaving a dangling pointer: the rollback
      otherwise keeps one block, and its index blocks, at index n. */
  lemma EnospcRestores(fs: Fs, f: nat, want: Word32)
    requires Inv(fs) && f < |fs.inodes| && Resize(fs, f, want).1 == ENOSPC
    ensures Restored(fs, Resize(fs, f, want).0) <==>
              FreeCount(fs) < Need(Nb(fs.inodes[f]), High(fs, f)) && !Dangles(fs, f, want)
  {
    hide At, ChangeSize, Core, Cost, A, Shape, NeedTo, Need, High, Highs;
    var own :| InvW(fs, own);
    var n, h, t := Nb(fs.inodes[f]), High(fs, f), Size2Nblocks(want);
    var (fs', r) := Resize(fs, f, want);
    InvFits(fs, own, f);
    if NeedTo(n, h, t) <= |Free(fs.vol)| {
      var _ := LoopsOK(fs.vol, fs.inodes, own, DataStart(fs), f, h, want);
      assert false;
    }
    var _ := LoopsENOSPC(fs.vol, fs.inodes, own, DataStart(fs), f, h, want);
    NeedPositive(n, h);
    NeedIs(n, h, n + 1);
    if Need(n, h) > |Free(fs.vol)| {
      if DanglesAt(n, h, |Free(fs.vol)|) {
        assert fs'.inodes[f].indirect2 in Free(fs'.vol);
        if fs'.inodes == fs.inodes {
          Ind2NotFree(fs, own, f);
          assert false;
        }
      } else {
        assert fs'.inodes[f] == fs.inodes[f] && fs'.inodes == fs.inodes;
        forall b: nat | IsRole(Data(b)) ensures InTree(Data(b), MAXFILEBLKS) { }
      }
    } else if fs'.vol.free == fs.vol.free {
      assert false;
    }
  }

  /** A sequence of change_size calls (file, wanted size). */
  function RunAll(fs: Fs, calls: seq<(nat, Word32)>): Fs
    requires forall i | 0 <= i < |calls| :: calls[i].0 < |fs.inodes|
    decreases |calls|
  {
    if calls == [] then fs
    else
      var fs1 := Resize(fs, calls[0].0, calls[0].1).0;
      RunAll(fs1, calls[1..])
  }

  ghost predicate AllSafe(fs: Fs, calls: seq<(nat, Word32)>)
    requires forall i | 0 <= i < |calls| :: calls[i].0 < |fs.inodes|
    decreases |calls|
  {
    calls == [] || (SafeCall(fs, calls[0].0, calls[0].1) && AllSafe(Resize(fs, calls[0].0, calls[0].1).0, calls[1..]))
  }

  /** Calls of a run that overwrite the pointer to a block left behind by a shrink. */
  ghost function Losses(fs: Fs, calls: seq<(nat, Word32)>): nat
    requires forall i | 0 <= i < |calls| :: calls[i].0 < |fs.inodes|
    decreases |calls|
  {
    if calls == [] then 0
    else
      var (f, want) := calls[0];
      (if FreeCount(fs) > 0 then Lost(Nb(fs.inodes[f]), High(fs, f), Size2Nblocks(want)) else 0)
      + Losses(Resize(fs, f, want).0, calls[1..])
  }

  /** Over every run of safe calls on any files the invariant holds throughout, and the
      free blocks plus the files' blocks fall short of the data area by exactly the
      blocks lost so far. */
  lemma {:induction false} RunSafe(fs: Fs, calls: seq<(nat, Word32)>)
    requires Inv(fs)
    requires forall i | 0 <= i < |calls| :: calls[i].0 < |fs.inodes|
    requires AllSafe(fs, calls)
    ensures Inv(RunAll(fs, calls))
    ensures |Leaked(RunAll(fs, calls))| == |Leaked(fs)| + Losses(fs, calls)
    ensures FreeCount(RunAll(fs, calls)) + TotalCost(RunAll(fs, calls)) + Losses(fs, calls) ==
      FreeCount(fs) + TotalCost(fs)
    decreases |calls|
  {
    hide Inv, Leaked, TotalCost, FreeCount, High, Frame, Resize, SafeCall;
    if calls != [] {
      var (f, want) := calls[0];
      ResizeEffect(fs, f, want);
      ResizeCount(fs, f, want);
      RunSafe(Resize(fs, f, want).0, calls[1..]);
    }
  }

  lemma ResizeCount(fs: Fs, f: nat, want: Word32)
    requires f < |fs.inodes|
    ensures |Resize(fs, f, want).0.inodes| == |fs.inodes|
  {
  }

  /** A disk with one empty file and one free block. */
  function TinyFs(): Fs {
    Fs(Vol(3, [false, false, false, false, true], seq(5, _ => ZeroBlock())),
       [Inode(0, FTYPE_REG, 1, seq(10, _ => 0), 0, 0)])
  }

  lemma NullTree(v: Vol, inodes: seq<Inode>, f: nat, r: Role)
    requires f < |inodes| && IsRole(r) && |v.disk| > 0 && v.disk[0] == ZeroBlock()
    requires inodes[f].direct == seq(10, _ => 0) && inodes[f].indirect == 0 && inodes[f].indirect2 == 0
    ensures A(v, inodes, f, r) == 0
  {
    hide Word;
    ZeroNoWords();
    if r.Data? && r.b >= 266 { DataViaSub(v.disk, inodes[f], r.b); }
  }

  lemma TinyInv()
    ensures Inv(TinyFs()) && FreeCount(TinyFs()) == 1 && High(TinyFs(), 0) == 0
  {
    hide A, Cost;
    var fs := TinyFs();
    forall r | IsRole(r) ensures A(fs.vol, fs.inodes, 0, r) == 0 { NullTree(fs.vol, fs.inodes, 0, r); }
    assert Free(fs.vol) == {4};
    TinyInvW();
  }

  lemma TinyInvW()
    ensures InvW(TinyFs(), map[])
  {
    hide A;
    var fs := TinyFs();
    forall r | IsRole(r) ensures A(fs.vol, fs.inodes, 0, r) == 0 { NullTree(fs.vol, fs.inodes, 0, r); }
    assert Nb(fs.inodes[0]) == 0 && Shape(fs.vol, fs.inodes, 0, 0);
    assert Highs(fs) == [0] && [0][..0] == [];
  }

  /** The header of change_size promises that a failed call changes neither size nor
      blocks.  Growing the empty file of TinyFs to two blocks fails and keeps one. */
  lemma RollbackKeepsABlock()
    ensures var (fs', r) := Resize(TinyFs(), 0, 2048);
            r == ENOSPC && !Restored(TinyFs(), fs') && High(fs', 0) == 1 && FreeCount(fs') == 0
  {
    TinyInv();
    var fs := TinyFs();
    assert Nb(fs.inodes[0]) == 0 && |fs.inodes| == 1;
    hide ChangeSize, Inv, High, Frame, Leaked, Free, Restored, TotalCost, TinyFs;
    ResizeEffect(fs, 0, 2048);
    EnospcRestores(fs, 0, 2048);
  }
}
