/** change_size as its header comments describe it: remove_block takes the last block,
    index n - 1, and add_block clears a pointer to a block it freed.  The code does
    neither; with both, conservation and rollback are exact. */
module OspfsDocumented {
  import opened OspfsDisk
  import opened OspfsTree
  import opened OspfsSpec
  import opened OspfsInv
  import opened OspfsBlocks
  import opened OspfsResize
  import opened OspfsChangeSize
  import opened OspfsBytes

  function RemoveLast(v: Vol, oi: Inode): (Vol, Inode)
    requires 0 < Nb(oi)
  {
    var (v1, oi1) := if Nb(oi) <= MAXFILEBLKS then RemoveAt(v, oi, Nb(oi) - 1) else (v, oi);
    (v1, oi1.(size := (oi1.size + TWO32 - BLKSIZE) % TWO32))
  }

  function ShrinkLast(v: Vol, oi: Inode, target: nat): (Vol, Inode)
    decreases Nb(oi)
  {
    if Nb(oi) <= target then (v, oi)
    else
      var (v1, oi1) := RemoveLast(v, oi);
      assert Nb(oi1) == Nb(oi) - 1 by {
        NblocksStep(oi.size);
        if Nb(oi) <= MAXFILEBLKS { BlockOpsKeepSize(v, oi, Nb(oi) - 1); }
      }
      ShrinkLast(v1, oi1, target)
  }

  function ClearFreed(v: Vol, oi: Inode): Inode {
    if oi.indirect2 < |v.free| && v.free[oi.indirect2] then oi.(indirect2 := 0) else oi
  }

  function DocChangeSize(v: Vol, oi: Inode, want: Word32): (Vol, Inode, Status) {
    NblocksStep(want);
    var (v1, oi1, ok) := Grow(v, oi, Size2Nblocks(want));
    if !ok then
      var (v2, oi2) := ShrinkLast(v1, ClearFreed(v1, oi1), Nb(oi));
      (v2, oi2.(size := oi.size), ENOSPC)
    else
      var (v2, oi2) := ShrinkLast(v1, oi1, Size2Nblocks(want));
      (v2, oi2.(size := want), OK)
  }

  function DocResize(fs: Fs, f: nat, want: Word32): (Fs, Status)
    requires f < |fs.inodes|
  {
    var (v, oi, r) := DocChangeSize(fs.vol, fs.inodes[f], want);
    (Fs(v, fs.inodes[f := oi]), r)
  }

  lemma RemoveLastIs(v: Vol, oi: Inode)
    requires 0 < Nb(oi) < MAXFILEBLKS
    ensures var (v1, oi1) := RemoveAt(v, oi, Nb(oi) - 1);
            && RemoveLast(v, oi).0 == v1
            && RemoveLast(v, oi).1 == oi1.(size := RemoveLast(v, oi).1.size)
            && Nb(RemoveLast(v, oi).1) == Nb(oi) - 1
  {
    hide RemoveAt;
    NblocksStep(oi.size);
    BlockOpsKeepSize(v, oi, Nb(oi) - 1);
  }

  /** No block is lost track of and none appears: the used and free blocks stay the same set. */
  ghost predicate SamePopulation(v: Vol, own: Owners, v1: Vol, own1: Owners) {
    Free(v1) + own1.Keys <= Free(v) + own.Keys
  }

  lemma ShrinkLastFrees(v: Vol, inodes: seq<Inode>, own: Owners, data: nat, f: nat, target: nat) returns (own1: Owners)
    requires f < |inodes| && Core(v, inodes, own, data) && Shape(v, inodes, f, Nb(inodes[f]))
    requires Nb(inodes[f]) < MAXFILEBLKS
    ensures var n := Nb(inodes[f]);
            var t := if n > target then target else n;
            var (v1, oi1) := ShrinkLast(v, inodes[f], target);
            var ins := inodes[f := oi1];
            && Nb(oi1) == t && SameMeta(oi1, inodes[f])
            && Core(v1, ins, own1, data) && Shape(v1, ins, f, t)
            && |Free(v1)| == |Free(v)| + Cost(n) - Cost(t) && |own1| == |own| - Cost(n) + Cost(t)
            && Frame(v, inodes, f, t, v1, ins) && SamePopulation(v, own, v1, own1)
    decreases Nb(inodes[f])
  {
    hide Core, Shape, Free, A, Frame, RemoveLast, Shrunk, RemoveAt, SamePopulation, Cost, Nb;
    var oi := inodes[f];
    var n := Nb(oi);
    if n <= target {
      own1 := own;
      FrameRefl(v, inodes, f, n, oi);
      assert inodes[f := oi] == inodes;
      assert SamePopulation(v, own, v, own) by { PopulationRefl(v, own); }
    } else {
      RemoveLastIs(v, oi);
      var owna := RemoveTop(v, inodes, own, data, f, n - 1);
      var (va, oia) := RemoveLast(v, oi);
      var insa := inodes[f := oia];
      ShrunkResized(v, inodes, own, data, f, n - 1, va, RemoveAt(v, oi, n - 1).1, owna, oia);
      ShrunkPopulation(v, inodes, own, data, f, n - 1, va, RemoveAt(v, oi, n - 1).1, owna);
      own1 := ShrinkLastFrees(va, insa, owna, data, f, target);
      var (v1, oi1) := ShrinkLast(va, oia, target);
      assert insa[f := oi1] == inodes[f := oi1];
      FrameChain2(v, inodes, f, n - 1, va, insa, target, v1, inodes[f := oi1]);
      PopulationChain(v, own, va, owna, v1, own1);
    }
  }

  lemma PopulationRefl(v: Vol, own: Owners)
    ensures SamePopulation(v, own, v, own)
  {
  }

  lemma PopulationChain(v: Vol, own: Owners, v1: Vol, own1: Owners, v2: Vol, own2: Owners)
    requires SamePopulation(v, own, v1, own1) && SamePopulation(v1, own1, v2, own2)
    ensures SamePopulation(v, own, v2, own2)
  {
  }

  lemma ShrunkPopulation(v: Vol, inodes: seq<Inode>, own: Owners, data: nat, f: nat, b: nat, v1: Vol, oi1: Inode,
        own1: Owners)
    requires f < |inodes| && b < MAXFILEBLKS && Shrunk(v, inodes, own, data, f, b, v1, oi1, own1)
    ensures SamePopulation(v, own, v1, own1)
  {
    hide Core, Shape, A, Free, SameData, Need;
    forall p | p in own1.Keys ensures p in own.Keys { }
  }

  /** The trees determine who owns what. */
  lemma OwnersUnique(v: Vol, inodes: seq<Inode>, own: Owners, v1: Vol, ins: seq<Inode>, own1: Owners, data: nat)
    requires Core(v, inodes, own, data) && Core(v1, ins, own1, data) && |ins| == |inodes|
    requires forall g, r | 0 <= g < |inodes| && IsRole(r) :: A(v1, ins, g, r) == A(v, inodes, g, r)
    ensures own1 == own
  {
    hide A, Free;
    forall p
      ensures p in own <==> p in own1
      ensures p in own ==> own1[p] == own[p]
    {
      if p in own { assert A(v1, ins, own[p].file, own[p].role) == p; }
      if p in own1 { assert A(v, inodes, own1[p].file, own1[p].role) == p; }
    }
  }

  lemma SubsetSameSize(a: set<int>, b: set<int>)
    requires a <= b && |a| == |b|
    ensures a == b
  {
    assert |b - a| == |b| - |a|;
    assert b - a == {};
  }

  /** The pointers of an inode determine it, up to size and metadata. */
  lemma InodeFromTree(v: Vol, inodes: seq<Inode>, v1: Vol, ins: seq<Inode>, f: nat)
    requires f < |inodes| == |ins| && SameMeta(ins[f], inodes[f]) && ins[f].size == inodes[f].size
    requires forall r | IsRole(r) :: A(v1, ins, f, r) == A(v, inodes, f, r)
    ensures ins[f] == inodes[f]
  {
    Ind2At(v.disk, inodes[f]);
    Ind2At(v1.disk, ins[f]);
    assert A(v1, ins, f, Ind) == A(v, inodes, f, Ind) && A(v1, ins, f, Ind2) == A(v, inodes, f, Ind2);
    forall b | 0 <= b < 10 ensures ins[f].direct[b] == inodes[f].direct[b] {
      assert A(v1, ins, f, Data(b)) == A(v, inodes, f, Data(b));
    }
    assert ins[f].direct == inodes[f].direct;
  }

  /** Whatever grew the file within the frame, removing as many last blocks gives back the inode
      and the free map. */
  lemma UndoIsExact(v: Vol, inodes: seq<Inode>, own: Owners, data: nat, f: nat,
                    v1: Vol, oi1: Inode, own1: Owners) returns (own2: Owners)
    requires f < |inodes| && Core(v, inodes, own, data) && Shape(v, inodes, f, Nb(inodes[f]))
    requires Core(v1, inodes[f := oi1], own1, data) && Shape(v1, inodes[f := oi1], f, Nb(oi1))
    requires Nb(inodes[f]) <= Nb(oi1) < MAXFILEBLKS && SameMeta(oi1, inodes[f])
    requires |Free(v1)| == |Free(v)| - Cost(Nb(oi1)) + Cost(Nb(inodes[f])) && Within(v, own, v1, own1)
    requires Frame(v, inodes, f, Nb(inodes[f]), v1, inodes[f := oi1])
    ensures var (v2, oi2) := ShrinkLast(v1, oi1, Nb(inodes[f]));
            && oi2.(size := inodes[f].size) == inodes[f] && Nb(oi2) == Nb(inodes[f])
            && v2.free == v.free && v2.first == v.first && |v2.disk| == |v.disk|
            && Frame(v, inodes, f, Nb(inodes[f]), v2, inodes[f := oi2])
            && own2 == own && Core(v2, inodes[f := oi2], own2, data) && Shape(v2, inodes[f := oi2], f, Nb(inodes[f]))
  {
    hide Core, Shape, A, Free, Frame, Cost, Within, SamePopulation, ShrinkLast, Nb;
    var n := Nb(inodes[f]);
    var insa := inodes[f := oi1];
    own2 := ShrinkLastFrees(v1, insa, own1, data, f, n);
    var (v2, oi2) := ShrinkLast(v1, oi1, n);
    var ins := inodes[f := oi2];
    assert insa[f := oi2] == ins;
    FrameChain(v, inodes, f, n, v1, insa, n, v2, ins);
    FrameParts(v, inodes, f, n, v2, ins);
    SameTrees(v, inodes, data, f, n, v2, ins);
    OwnersUnique(v, inodes, own, v2, ins, own2, data);
    FreeBackAgain(v, own, v1, own1, v2, own2, inodes, ins, data);
    var oi3 := oi2.(size := inodes[f].size);
    forall r | IsRole(r) ensures A(v2, inodes[f := oi3], f, r) == A(v, inodes, f, r) {
      assert inodes[f := oi3] == ins[f := oi3];
      SizeFrame(v2, ins, f, oi3, f, r);
    }
    InodeFromTree(v, inodes, v2, inodes[f := oi3], f);
  }

  lemma FrameParts(v: Vol, inodes: seq<Inode>, f: nat, k: nat, v1: Vol, ins: seq<Inode>)
    requires Frame(v, inodes, f, k, v1, ins)
    ensures |v1.disk| == |v.disk| && v1.first == v.first && |ins| == |inodes|
  {
  }

  lemma SameTrees(v: Vol, inodes: seq<Inode>, data: nat, f: nat, n: nat, v2: Vol, ins: seq<Inode>)
    requires f < |inodes| == |ins| && Shape(v, inodes, f, n) && Shape(v2, ins, f, n) && Frame(v, inodes, f, n, v2, ins)
    ensures forall g, r | 0 <= g < |inodes| && IsRole(r) :: A(v2, ins, g, r) == A(v, inodes, g, r)
  {
    hide A, Blk;
    forall g, r | 0 <= g < |inodes| && IsRole(r) ensures A(v2, ins, g, r) == A(v, inodes, g, r) {
      if g == f && !InTree(r, n) {
        assert A(v, inodes, f, r) == 0 && A(v2, ins, f, r) == 0;
      }
    }
  }

  lemma FreeBackAgain(v: Vol, own: Owners, v1: Vol, own1: Owners, v2: Vol, own2: Owners,
                      inodes: seq<Inode>, ins: seq<Inode>, data: nat)
    requires Core(v, inodes, own, data) && Core(v2, ins, own2, data) && own2 == own
    requires Within(v, own, v1, own1) && SamePopulation(v1, own1, v2, own2)
    requires |Free(v2)| == |Free(v)| && |v2.disk| == |v.disk|
    ensures v2.free == v.free
  {
    hide A;
    forall p | p in Free(v2) ensures p in Free(v) {
      assert p !in own2;
      assert p in Free(v1) + own1.Keys;
    }
    SubsetSameSize(Free(v2), Free(v));
    forall i | 0 <= i < |v.free| ensures v2.free[i] == v.free[i] {
      assert i in Free(v2) <==> i in Free(v);
    }
  }

  /** Growing by any number of add_blocks and then removing as many last blocks, across every
      index-block boundary, gives back the inode and the free map. */
  lemma GrowThenUndo(v: Vol, inodes: seq<Inode>, own: Owners, data: nat, f: nat, target: nat) returns (own2: Owners)
    requires f < |inodes| && Fits(v, inodes, own, data, f, Nb(inodes[f])) && target <= 4194303
    requires Nb(inodes[f]) <= target && NeedTo(Nb(inodes[f]), Nb(inodes[f]), target) <= |Free(v)|
    ensures var (v1, oi1, ok) := Grow(v, inodes[f], target);
            var (v2, oi2) := ShrinkLast(v1, oi1, Nb(inodes[f]));
            && ok && Nb(oi1) == target && oi2.(size := inodes[f].size) == inodes[f] && Nb(oi2) == Nb(inodes[f])
            && v2.free == v.free && v2.first == v.first && |v2.disk| == |v.disk|
            && Frame(v, inodes, f, Nb(inodes[f]), v2, inodes[f := oi2])
            && Core(v2, inodes[f := oi2], own, data)
  {
    hide Core, Shape, A, Free, Frame, Cost, Within, SamePopulation, ShrinkLast, Nb, Grow, NeedTo, NewZero;
    var n := Nb(inodes[f]);
    NeedToDoc(n, target);
    var own1 := GrowSucceeds(v, inodes, own, data, f, n, target);
    var (v1, oi1, _) := Grow(v, inodes[f], target);
    own2 := UndoIsExact(v, inodes, own, data, f, v1, oi1, own1);
  }

  /** The documented invariant: no file has a block left over past its end. */
  ghost predicate DocInv(fs: Fs) {
    Inv(fs) && forall f | 0 <= f < |fs.inodes| :: High(fs, f) == Nb(fs.inodes[f])
  }

  lemma DocumentedOK(fs: Fs, own: Owners, f: nat, want: Word32)
    requires InvW(fs, own) && DocInv(fs) && f < |fs.inodes| && want <= TWO32 - BLKSIZE
    requires NeedTo(Nb(fs.inodes[f]), Nb(fs.inodes[f]), Size2Nblocks(want)) <= FreeCount(fs)
    ensures var (fs', r) := DocResize(fs, f, want);
            && r == OK && DocInv(fs') && |fs'.inodes| == |fs.inodes| && fs'.inodes[f].size == want
            && FreeCount(fs') + TotalCost(fs') == FreeCount(fs) + TotalCost(fs)
            && var n, t := Nb(fs.inodes[f]), Size2Nblocks(want);
            && Frame(fs.vol, fs.inodes, f, if t < n then t else n, fs'.vol, fs'.inodes)
            && NewZero(fs.vol, fs'.vol, fs'.inodes, f, n, t)
  {
    hide Core, Shape, A, Frame, Grow, ShrinkLast, Free, Cost, NeedTo, Need, High, Within, SamePopulation, TotalCost,
      NewZero;
    var v, inodes, data := fs.vol, fs.inodes, DataStart(fs);
    var n, t := Nb(inodes[f]), Size2Nblocks(want);
    InvFits(fs, own, f);
    NblocksStep(want);
    NeedToDoc(n, t);
    SizeOfBlocks(want);
    var owna := GrowSucceeds(v, inodes, own, data, f, n, t);
    var (va, oia, _) := Grow(v, inodes[f], t);
    var insa := inodes[f := oia];
    HighBound(fs, own, f, va, insa, owna, Nb(oia));
    var ownb := ShrinkLastFrees(va, insa, owna, data, f, t);
    var (vb, oib) := ShrinkLast(va, oia, t);
    var insb := inodes[f := oib];
    assert insa[f := oib] == insb;
    var oi1 := oib.(size := want);
    var ins := inodes[f := oi1];
    assert insb[f := oi1] == ins;
    var k := if t < n then t else n;
    FrameChain2(v, inodes, f, n, va, insa, k, vb, insb) by { if k < t { FrameWeaken(va, insa, f, t, k, vb, insb); } }
    Resized(vb, insb, ownb, data, f, t, oi1);
    FrameRefl(vb, insb, f, k, oi1);
    FrameChain(v, inodes, f, k, vb, insb, k, vb, ins);
    var fs' := Fs(vb, ins);
    DocReassemble(fs, own, f, t, k, fs', ownb);
    ZeroKept(v, va, insa, f, n, t, oi1);
    assert insa[f := oi1] == ins;
  }

  /** Growing to exactly t blocks leaves nothing to shrink, and the size plays no part. */
  lemma ZeroKept(v: Vol, va: Vol, insa: seq<Inode>, f: nat, n: nat, t: nat, oi1: Inode)
    requires f < |insa| && Nb(insa[f]) == (if n < t then t else n) && NewZero(v, va, insa, f, n, t)
    requires var (vb, oib) := ShrinkLast(va, insa[f], t); oi1 == oib.(size := oi1.size)
    ensures NewZero(v, ShrinkLast(va, insa[f], t).0, insa[f := oi1], f, n, t)
  {
    hide A, RemoveLast, Nb;
    if n < t {
      forall b: nat | n <= b < t && IsRole(Data(b))
        ensures A(va, insa[f := oi1], f, Data(b)) == A(va, insa, f, Data(b))
      {
        SizeFrame(va, insa, f, oi1, f, Data(b));
      }
    }
  }

  lemma DocReassemble(fs: Fs, own: Owners, f: nat, t: nat, k: nat, fs': Fs, own': Owners)
    requires InvW(fs, own) && DocInv(fs) && f < |fs.inodes| == |fs'.inodes|
    requires Core(fs'.vol, fs'.inodes, own', DataStart(fs)) && Shape(fs'.vol, fs'.inodes, f, t)
    requires SizeFits(fs'.inodes[f]) && t == Nb(fs'.inodes[f])
    requires Frame(fs.vol, fs.inodes, f, k, fs'.vol, fs'.inodes)
    requires |own'| == |own| - Cost(High(fs, f)) + Cost(t)
    requires |Free(fs'.vol)| == FreeCount(fs) + Cost(High(fs, f)) - Cost(t)
    ensures DocInv(fs') && FreeCount(fs') + TotalCost(fs') == FreeCount(fs) + TotalCost(fs)
  {
    hide Core, Shape, A, Free, Cost;
    Reassemble(fs, own, f, t, k, fs', own');
    SumUpdateAt(fs, f, t);
    forall g | 0 <= g < |fs'.inodes|
      ensures High(fs', g) == Nb(fs'.inodes[g])
    {
      assert Highs(fs')[g] == High(fs', g);
      if g != f {
        assert Highs(fs)[g] == High(fs, g) && fs'.inodes[g] == fs.inodes[g];
      }
    }
  }

  lemma DocumentedENOSPC(fs: Fs, own: Owners, f: nat, want: Word32)
    requires InvW(fs, own) && DocInv(fs) && f < |fs.inodes| && want <= TWO32 - BLKSIZE
    requires NeedTo(Nb(fs.inodes[f]), Nb(fs.inodes[f]), Size2Nblocks(want)) > FreeCount(fs)
    ensures var (fs', r) := DocResize(fs, f, want);
            r == ENOSPC && Restored(fs, fs') && DocInv(fs') && |fs'.inodes| == |fs.inodes|
            && FreeCount(fs') + TotalCost(fs') == FreeCount(fs) + TotalCost(fs)
  {
    hide Core, Shape, A, Frame, Grow, ShrinkLast, Free, Cost, NeedTo, Need, High, Within, SamePopulation, TotalCost;
    var v, inodes, data := fs.vol, fs.inodes, DataStart(fs);
    var n, t := Nb(inodes[f]), Size2Nblocks(want);
    InvFits(fs, own, f);
    NblocksStep(want);
    var owna, m := GrowFails(v, inodes, own, data, f, n, t);
    var (va, oia, _) := Grow(v, inodes[f], t);
    var d := DanglesAt(m, HighAfter(n, n, m), |Free(va)|);
    var oim := Mended(oia, d);
    var insa := inodes[f := oim];
    assert ClearFreed(va, oia) == oim by { if !d { Ind2Used(va, insa, owna, data, f); } else { MendedIs(va, oia); } }
    NeedToDoc(n, m);
    if m == n { FrameWeaken(v, inodes, f, MAXFILEBLKS, n, va, insa); }
    var own2 := UndoIsExact(v, inodes, own, data, f, va, oim, owna);
    var (vb, oib) := ShrinkLast(va, oim, n);
    var fs' := Fs(vb, inodes[f := oib.(size := inodes[f].size)]);
    assert fs'.inodes == inodes;
    FrameSized(v, inodes, f, n, vb, oib, inodes[f]);
    assert Shape(v, inodes, f, n) by { assert High(fs, f) == n; }
    RestoredFromFrame(fs, f, n, fs');
    Resized(vb, inodes[f := oib], own2, data, f, n, inodes[f]);
    assert inodes[f := oib][f := inodes[f]] == inodes;
    assert Free(vb) == Free(v) by { SameFree(v, vb); }
    assert High(fs, f) == n && SizeFits(inodes[f]);
    DocReassemble(fs, own, f, n, n, fs', own);
  }

  lemma CostMonotone(m: nat, n: nat)
    requires m <= n
    ensures Cost(m) <= Cost(n)
  {
  }

  lemma NeedToDoc(n: nat, t: nat)
    ensures n < t ==> NeedTo(n, n, t) == Cost(t) - Cost(n)
    ensures n >= t ==> NeedTo(n, n, t) == 0 && Cost(t) <= Cost(n)
  {
    if n >= t { CostMonotone(t, n); }
  }

  lemma FrameSized(v: Vol, inodes: seq<Inode>, f: nat, n: nat, v1: Vol, oi1: Inode, oi: Inode)
    requires f < |inodes| && oi == oi1.(size := oi.size)
    requires Frame(v, inodes, f, n, v1, inodes[f := oi1])
    ensures Frame(v, inodes, f, n, v1, inodes[f := oi])
  {
    hide Frame, A;
    var ins := inodes[f := oi1];
    assert ins[f := oi] == inodes[f := oi];
    FrameRefl(v1, ins, f, n, oi);
    FrameChain(v, inodes, f, n, v1, ins, n, v1, ins[f := oi]);
  }

  lemma Ind2Used(v: Vol, inodes: seq<Inode>, own: Owners, data: nat, f: nat)
    requires f < |inodes| && Core(v, inodes, own, data)
    ensures ClearFreed(v, inodes[f]) == inodes[f]
  {
    hide At;
    Ind2At(v.disk, inodes[f]);
    assert A(v, inodes, f, Ind2) == inodes[f].indirect2;
    assert inodes[f].indirect2 !in Free(v);
  }

  lemma SameFree(v: Vol, v1: Vol)
    requires v1.free == v.free
    ensures Free(v1) == Free(v)
  {
  }

  lemma MendedIs(v: Vol, oi: Inode)
    requires oi.indirect2 in Free(v)
    ensures ClearFreed(v, oi) == Mended(oi, true)
  {
  }

  lemma RestoredFromFrame(fs: Fs, f: nat, n: nat, fs': Fs)
    requires f < |fs.inodes| && fs'.inodes == fs.inodes && fs'.vol.free == fs.vol.free
    requires Shape(fs.vol, fs.inodes, f, n) && Frame(fs.vol, fs.inodes, f, n, fs'.vol, fs'.inodes)
    ensures Restored(fs, fs')
  {
    hide A;
    forall g, b: nat | 0 <= g < |fs.inodes| && IsRole(Data(b)) && A(fs.vol, fs.inodes, g, Data(b)) != 0
      ensures var p := A(fs.vol, fs.inodes, g, Data(b));
              A(fs'.vol, fs'.inodes, g, Data(b)) == p && Blk(fs'.vol.disk, p) == Blk(fs.vol.disk, p)
    {
      if g == f { assert InTree(Data(b), n); }
    }
  }

  // -------------------------------------------------------------------------
  // One call, and runs of calls
  // -------------------------------------------------------------------------

  /** The header of change_size, all of it: it fails exactly when blocks run out, and then
      nothing has changed; otherwise kept blocks keep their bytes, new ones are zero, and all
      other files are as they were.  No block is ever lost. */
  lemma DocumentedResize(fs: Fs, f: nat, want: Word32)
    requires DocInv(fs) && f < |fs.inodes| && want <= TWO32 - BLKSIZE
    ensures var (fs', r) := DocResize(fs, f, want);
            var n, t := Nb(fs.inodes[f]), Size2Nblocks(want);
            && DocInv(fs') && FreeCount(fs') + TotalCost(fs') == FreeCount(fs) + TotalCost(fs)
            && |fs'.inodes| == |fs.inodes| && n < MAXFILEBLKS
            && (r == OK <==> NeedTo(n, n, t) <= FreeCount(fs))
            && (r != OK ==> r == ENOSPC && Restored(fs, fs'))
            && (r == OK ==> fs'.inodes[f].size == want && t < MAXFILEBLKS && DocBytes(fs, f, fs', n, t))
  {
    hide InvW, DocResize, NeedTo, TotalCost, FreeCount, Restored, High, Frame, NewZero, Size2Nblocks, DocBytes;
    var own :| InvW(fs, own);
    var n, t := Nb(fs.inodes[f]), Size2Nblocks(want);
    InvSize(fs, f);
    if NeedTo(n, n, t) <= FreeCount(fs) {
      DocumentedOK(fs, own, f, want);
      var fs' := DocResize(fs, f, want).0;
      InvSize(fs', f);
      DocKept(fs, f, fs', n, t);
    } else {
      DocumentedENOSPC(fs, own, f, want);
    }
  }

  /** The bytes of file f from n blocks to t, and of all other files. */
  ghost predicate DocBytes(fs: Fs, f: nat, fs': Fs, n: nat, t: nat)
    requires f < |fs.inodes| == |fs'.inodes| && n < MAXFILEBLKS && t < MAXFILEBLKS
  {
    && (forall i: nat | i < BLKSIZE * n && i < BLKSIZE * t ::
          FileByte(fs'.vol, fs'.inodes[f], i) == FileByte(fs.vol, fs.inodes[f], i))
    && (forall i: nat | BLKSIZE * n <= i < BLKSIZE * t :: FileByte(fs'.vol, fs'.inodes[f], i) == 0)
    && (forall g | 0 <= g < |fs.inodes| && g != f :: fs'.inodes[g] == fs.inodes[g])
    && (forall g, i: nat | 0 <= g < |fs.inodes| && g != f && i < BLKSIZE * Nb(fs.inodes[g]) ::
          i / BLKSIZE < MAXFILEBLKS && FileByte(fs'.vol, fs'.inodes[g], i) == FileByte(fs.vol, fs.inodes[g], i))
  }

  lemma DocKept(fs: Fs, f: nat, fs': Fs, n: nat, t: nat)
    requires Inv(fs) && f < |fs.inodes| == |fs'.inodes| && n == Nb(fs.inodes[f]) && n < MAXFILEBLKS && t < MAXFILEBLKS
    requires Frame(fs.vol, fs.inodes, f, if t < n then t else n, fs'.vol, fs'.inodes)
    requires NewZero(fs.vol, fs'.vol, fs'.inodes, f, n, t)
    ensures DocBytes(fs, f, fs', n, t)
  {
    var k := if t < n then t else n;
    OwnBytes(fs, f, k, fs', n, t);
    assert forall g | 0 <= g < |fs.inodes| && g != f :: fs'.inodes[g] == fs.inodes[g];
    hide Inv, Frame, NewZero, FileByte, Nb;
    forall g | 0 <= g < |fs.inodes| && g != f
      ensures forall i: nat | i < BLKSIZE * Nb(fs.inodes[g]) ::
                i / BLKSIZE < MAXFILEBLKS && FileByte(fs'.vol, fs'.inodes[g], i) == FileByte(fs.vol, fs.inodes[g], i)
    {
      OtherBytes(fs, f, k, fs', g);
    }
  }

  function DocRunAll(fs: Fs, calls: seq<(nat, Word32)>): Fs
    requires forall i | 0 <= i < |calls| :: calls[i].0 < |fs.inodes|
    decreases |calls|
  {
    if calls == [] then fs
    else
      var fs1 := DocResize(fs, calls[0].0, calls[0].1).0;
      DocRunAll(fs1, calls[1..])
  }

  /** Over every run of calls on any files, whether they succeed or fail: all reachable blocks
      stay distinct and used, each file's tree is exactly what its size needs, and free blocks
      plus the files' blocks never change in number. */
  lemma {:induction false} DocRuns(fs: Fs, calls: seq<(nat, Word32)>)
    requires DocInv(fs)
    requires forall i | 0 <= i < |calls| :: calls[i].0 < |fs.inodes| && calls[i].1 <= TWO32 - BLKSIZE
    ensures var fs' := DocRunAll(fs, calls);
            DocInv(fs') && FreeCount(fs') + TotalCost(fs') == FreeCount(fs) + TotalCost(fs)
    decreases |calls|
  {
    hide DocInv, DocResize, FreeCount, TotalCost, NeedTo, Restored, DocBytes;
    if calls != [] {
      DocumentedResize(fs, calls[0].0, calls[0].1);
      DocRuns(DocResize(fs, calls[0].0, calls[0].1).0, calls[1..]);
    }
  }
}
