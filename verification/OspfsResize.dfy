/** The loops of change_size on a separated file system. */
module OspfsResize {
  import opened OspfsDisk
  import opened OspfsTree
  import opened OspfsSpec
  import opened OspfsInv
  import opened OspfsBlocks

  /** Every file but f, and the first k file blocks of f with their index blocks,
      keep their pointers and their bytes. */
  ghost predicate Frame(v: Vol, inodes: seq<Inode>, f: nat, k: nat, v1: Vol, ins: seq<Inode>) {
    && |ins| == |inodes| && v1.first == v.first && |v1.disk| == |v.disk|
    && (forall g | 0 <= g < |ins| && g != f :: ins[g] == inodes[g])
    && (forall g, r | 0 <= g < |ins| && IsRole(r) && (g != f || InTree(r, k)) ::
          A(v1, ins, g, r) == A(v, inodes, g, r))
    && (forall g, b: nat | 0 <= g < |ins| && IsRole(Data(b)) && (g != f || b < k) && A(v, inodes, g, Data(b)) != 0 ::
          Blk(v1.disk, A(v, inodes, g, Data(b))) == Blk(v.disk, A(v, inodes, g, Data(b))))
  }

  lemma FrameChain(v: Vol, inodes: seq<Inode>, f: nat, k: nat, v1: Vol, ins: seq<Inode>, k1: nat, v2: Vol,
        ins2: seq<Inode>)
    requires Frame(v, inodes, f, k, v1, ins) && Frame(v1, ins, f, k1, v2, ins2) && k <= k1
    ensures Frame(v, inodes, f, k, v2, ins2)
  {
    hide A, Blk;
    forall g, r | 0 <= g < |ins2| && IsRole(r) && (g != f || InTree(r, k))
      ensures A(v2, ins2, g, r) == A(v, inodes, g, r)
    {
      assert InTree(r, k) ==> InTree(r, k1);
      assert A(v1, ins, g, r) == A(v, inodes, g, r);
    }
    forall g, b: nat | 0 <= g < |ins2| && IsRole(Data(b)) && (g != f || b < k) && A(v, inodes, g, Data(b)) != 0
      ensures Blk(v2.disk, A(v, inodes, g, Data(b))) == Blk(v.disk, A(v, inodes, g, Data(b)))
    {
      assert InTree(Data(b), k) ==> InTree(Data(b), k1);
      assert A(v1, ins, g, Data(b)) == A(v, inodes, g, Data(b));
    }
  }

  lemma FrameRefl(v: Vol, inodes: seq<Inode>, f: nat, k: nat, oi: Inode)
    requires f < |inodes| && oi == inodes[f].(size := oi.size)
    ensures Frame(v, inodes, f, k, v, inodes[f := oi])
  {
    hide Blk;
    forall g, r | 0 <= g < |inodes| && IsRole(r)
      ensures A(v, inodes[f := oi], g, r) == A(v, inodes, g, r)
    {
      SizeFrame(v, inodes, f, oi, g, r);
    }
  }

  /** The size field plays no part in the trees. */
  lemma SizeFrame(v: Vol, inodes: seq<Inode>, f: nat, oi: Inode, g: nat, r: Role)
    requires f < |inodes| && oi == inodes[f].(size := oi.size) && g < |inodes| && IsRole(r)
    ensures A(v, inodes[f := oi], g, r) == A(v, inodes, g, r)
  {
    hide Word, Blk;
  }

  lemma GrewFrame(v: Vol, inodes: seq<Inode>, own: Owners, data: nat, f: nat, n: nat, h: nat, v1: Vol, oi1: Inode,
        own1: Owners)
    requires f < |inodes| && n < MAXFILEBLKS && (h == n || h == n + 1)
    requires Core(v, inodes, own, data) && Shape(v, inodes, f, h)
    requires Grew(v, inodes, own, data, f, n, h, v1, oi1, own1)
    ensures Frame(v, inodes, f, n, v1, inodes[f := oi1])
  {
    hide A, Free, Need;
    var ins := inodes[f := oi1];
    forall g, b: nat | 0 <= g < |ins| && IsRole(Data(b)) && (g != f || b < n) && A(v, inodes, g, Data(b)) != 0
      ensures Blk(v1.disk, A(v, inodes, g, Data(b))) == Blk(v.disk, A(v, inodes, g, Data(b)))
    {
      assert A(v, inodes, g, Data(b)) in own;
    }
  }

  lemma ShrunkFrame(v: Vol, inodes: seq<Inode>, own: Owners, data: nat, f: nat, b: nat, v1: Vol, oi1: Inode,
        own1: Owners)
    requires f < |inodes| && b < MAXFILEBLKS
    requires Core(v, inodes, own, data) && Shape(v, inodes, f, b + 1)
    requires Shrunk(v, inodes, own, data, f, b, v1, oi1, own1)
    ensures Frame(v, inodes, f, b, v1, inodes[f := oi1])
  {
    hide A, Free, Need;
    var ins := inodes[f := oi1];
    forall g, c: nat | 0 <= g < |ins| && IsRole(Data(c)) && (g != f || c < b) && A(v, inodes, g, Data(c)) != 0
      ensures Blk(v1.disk, A(v, inodes, g, Data(c))) == Blk(v.disk, A(v, inodes, g, Data(c)))
    {
      assert A(v, inodes, g, Data(c)) in own;
    }
  }

  function Nb(oi: Inode): nat { Size2Nblocks(oi.size) }

  /** Core and Shape do not look at the size field. */
  lemma Resized(v: Vol, inodes: seq<Inode>, own: Owners, data: nat, f: nat, h: nat, oi: Inode)
    requires f < |inodes| && oi == inodes[f].(size := oi.size)
    requires Core(v, inodes, own, data) && Shape(v, inodes, f, h)
    ensures Core(v, inodes[f := oi], own, data) && Shape(v, inodes[f := oi], f, h)
  {
    hide A, Free;
    var ins := inodes[f := oi];
    forall g, r | 0 <= g < |inodes| && IsRole(r)
      ensures A(v, ins, g, r) == A(v, inodes, g, r)
    {
      SizeFrame(v, inodes, f, oi, g, r);
    }
    forall p | p in own
      ensures data <= p < |v.disk| && p !in Free(v) && own[p].file < |ins| && IsRole(own[p].role)
      ensures A(v, ins, own[p].file, own[p].role) == p
    {
      assert A(v, inodes, own[p].file, own[p].role) == p;
    }
    assert Core(v, ins, own, data);
  }

  /** Blocks that growing from n to target file blocks takes. */
  function NeedTo(n: nat, h: nat, target: nat): int {
    if n >= target then 0 else Need(n, h) + Cost(target) - Cost(n + 1)
  }

  lemma NeedPositive(n: nat, h: nat)
    ensures Need(n, h) >= 1 && (h != n ==> Need(n, h) == 1)
  {
    NeedCases(n);
  }

  lemma NeedToStep(n: nat, h: nat, target: nat)
    requires n < target
    ensures NeedTo(n, h, target) == Need(n, h) + NeedTo(n + 1, n + 1, target)
  {
    hide Cost;
  }

  lemma NeedToPositive(n: nat, h: nat, target: nat)
    ensures NeedTo(n, h, target) >= 0
    decreases target - n
  {
    if n < target {
      NeedToStep(n, h, target);
      NeedPositive(n, h);
      NeedToPositive(n + 1, n + 1, target);
    }
  }

  /** A block left over at index n is lost when the file grows past n again. */
  function Lost(n: nat, h: nat, m: nat): nat {
    if n < m && h == n + 1 then 1 else 0
  }

  ghost predicate Fits(v: Vol, inodes: seq<Inode>, own: Owners, data: nat, f: nat, h: nat) {
    && f < |inodes| && Core(v, inodes, own, data) && Shape(v, inodes, f, h)
    && (h == Nb(inodes[f]) || h == Nb(inodes[f]) + 1)
    && Nb(inodes[f]) + |Free(v)| < MAXFILEBLKS
  }

  predicate SameMeta(a: Inode, b: Inode) { a.ftype == b.ftype && a.nlink == b.nlink }

  lemma AddBlockIs(v: Vol, oi: Inode)
    requires Nb(oi) < MAXFILEBLKS
    ensures var (v1, oi1, ok) := AddAt(v, oi, Nb(oi));
            && AddBlock(v, oi).0 == v1 && AddBlock(v, oi).2 == ok
            && (!ok ==> AddBlock(v, oi).1 == oi1)
            && (ok ==> AddBlock(v, oi).1 == oi1.(size := AddBlock(v, oi).1.size) && Nb(AddBlock(v, oi).1) == Nb(oi) + 1)
  {
    hide AddAt;
    NblocksStep(oi.size);
    BlockOpsKeepSize(v, oi, Nb(oi));
  }

  lemma FreeNotNull(v: Vol, inodes: seq<Inode>, own: Owners, data: nat, p: int)
    requires Core(v, inodes, own, data) && p in Free(v)
    ensures p != 0
  {
  }

  /** What one more file block does to the trees, whatever the size field says. */
  ghost predicate Grown(v: Vol, inodes: seq<Inode>, own: Owners, data: nat, f: nat, n: nat, h: nat,
                        v1: Vol, ins: seq<Inode>, own1: Owners)
    requires f < |inodes| && n < MAXFILEBLKS
  {
    && |ins| == |inodes| && SameMeta(ins[f], inodes[f])
    && Core(v1, ins, own1, data) && Shape(v1, ins, f, n + 1)
    && |Free(v1)| == |Free(v)| - Need(n, h) && Within(v, own, v1, own1)
    && |own1| == |own| + Need(n, h) - Lost(n, h, n + 1)
    && Frame(v, inodes, f, n, v1, ins)
    && A(v1, ins, f, Data(n)) in Free(v) && A(v1, ins, f, Data(n)) < |v1.disk|
    && v1.disk[A(v1, ins, f, Data(n))] == ZeroBlock() && A(v1, ins, f, Data(n)) != 0
  }

  lemma GrewIsGrown(v: Vol, inodes: seq<Inode>, own: Owners, data: nat, f: nat, n: nat, h: nat, v1: Vol, oi1: Inode,
        own1: Owners)
    requires f < |inodes| && n < MAXFILEBLKS && (h == n || h == n + 1)
    requires Core(v, inodes, own, data) && Shape(v, inodes, f, h)
    requires Grew(v, inodes, own, data, f, n, h, v1, oi1, own1)
    ensures Grown(v, inodes, own, data, f, n, h, v1, inodes[f := oi1], own1)
  {
    GrewFrame(v, inodes, own, data, f, n, h, v1, oi1, own1);
    hide Core, Shape, Free, A, Need, Frame, SameData;
    NeedPositive(n, h);
    FreeNotNull(v, inodes, own, data, A(v1, inodes[f := oi1], f, Data(n)));
  }

  lemma GrownResized(v: Vol, inodes: seq<Inode>, own: Owners, data: nat, f: nat, n: nat, h: nat,
                     v1: Vol, ins: seq<Inode>, own1: Owners, oi: Inode)
    requires f < |inodes| && n < MAXFILEBLKS
    requires Grown(v, inodes, own, data, f, n, h, v1, ins, own1)
    requires oi == ins[f].(size := oi.size)
    ensures Grown(v, inodes, own, data, f, n, h, v1, ins[f := oi], own1)
  {
    hide Core, Shape, Free, A, Need, Frame, Within;
    Resized(v1, ins, own1, data, f, n + 1, oi);
    FrameRefl(v1, ins, f, n, oi);
    FrameChain(v, inodes, f, n, v1, ins, n, v1, ins[f := oi]);
    SizeFrame(v1, ins, f, oi, f, Data(n));
  }

  /** One successful add_block, with its size update. */
  lemma AddStep(v: Vol, inodes: seq<Inode>, own: Owners, data: nat, f: nat, h: nat) returns (own1: Owners)
    requires Fits(v, inodes, own, data, f, h)
    requires Need(Nb(inodes[f]), h) <= |Free(v)|
    ensures var n := Nb(inodes[f]);
            var (v1, oi1, ok) := AddBlock(v, inodes[f]);
            && ok && Nb(oi1) == n + 1
            && Grown(v, inodes, own, data, f, n, h, v1, inodes[f := oi1], own1)
            && Fits(v1, inodes[f := oi1], own1, data, f, n + 1)
  {
    hide Core, Shape, Free, A, Need, Frame, Grew, AddBlock, AddAt, Nb, Within;
    var oi := inodes[f];
    var n := Nb(oi);
    NeedPositive(n, h);
    AddBlockIs(v, oi);
    var (va, oia, _) := AddAt(v, oi, n);
    var (v1, oi1, ok) := AddBlock(v, oi);
    var insa := inodes[f := oia];
    own1 := AddTop(v, inodes, own, data, f, n, h);
    GrewIsGrown(v, inodes, own, data, f, n, h, va, oia, own1);
    GrownResized(v, inodes, own, data, f, n, h, va, insa, own1, oi1);
    assert insa[f := oi1] == inodes[f := oi1];
  }

  /** Growth from (n, h) to m file blocks went through; the new blocks are zero. */
  ghost predicate Extended(v: Vol, inodes: seq<Inode>, own: Owners, data: nat, f: nat, n: nat, h: nat,
                           v1: Vol, oi1: Inode, own1: Owners, target: nat)
    requires f < |inodes|
  {
    var ins := inodes[f := oi1];
    && Nb(oi1) == (if n < target then target else n) && SameMeta(oi1, inodes[f])
    && Fits(v1, ins, own1, data, f, if n < target then target else h)
    && |Free(v1)| == |Free(v)| - NeedTo(n, h, target) && Within(v, own, v1, own1)
    && |own1| == |own| + NeedTo(n, h, target) - Lost(n, h, target)
    && Frame(v, inodes, f, n, v1, ins)
    && NewZero(v, v1, ins, f, n, target)
  }

  ghost predicate NewZero(v: Vol, v1: Vol, ins: seq<Inode>, f: nat, n: nat, target: nat)
    requires f < |ins|
  {
    forall b: nat | n <= b < target && IsRole(Data(b)) ::
      A(v1, ins, f, Data(b)) in Free(v) && Blk(v1.disk, A(v1, ins, f, Data(b))) == ZeroBlock()
  }

  lemma NewZeroStep(v: Vol, inodes: seq<Inode>, own: Owners, data: nat, f: nat, n: nat, h: nat,
                    va: Vol, insa: seq<Inode>, owna: Owners, v1: Vol, ins: seq<Inode>, target: nat)
    requires f < |inodes| == |insa| == |ins| && n < MAXFILEBLKS && n < target
    requires Grown(v, inodes, own, data, f, n, h, va, insa, owna)
    requires NewZero(va, v1, ins, f, n + 1, target) && Frame(va, insa, f, n + 1, v1, ins)
    ensures NewZero(v, v1, ins, f, n, target)
  {
    hide Core, Shape, A, Need;
    assert InTree(Data(n), n + 1);
  }

  lemma ExtendedStep(v: Vol, inodes: seq<Inode>, own: Owners, data: nat, f: nat, n: nat, h: nat,
                     va: Vol, oia: Inode, owna: Owners, v1: Vol, oi1: Inode, own1: Owners, target: nat)
    requires f < |inodes| && n < MAXFILEBLKS && n < target && (h == n || h == n + 1)
    requires Grown(v, inodes, own, data, f, n, h, va, inodes[f := oia], owna)
    requires Extended(va, inodes[f := oia], owna, data, f, n + 1, n + 1, v1, oi1, own1, target)
    ensures Extended(v, inodes, own, data, f, n, h, v1, oi1, own1, target)
  {
    hide Core, Shape, Free, A, Need, NeedTo, Frame, Within, Nb, NewZero;
    var insa, ins := inodes[f := oia], inodes[f := oi1];
    assert insa[f := oi1] == ins;
    NeedToStep(n, h, target);
    WithinChain(v, own, va, owna, v1, own1);
    NewZeroStep(v, inodes, own, data, f, n, h, va, insa, owna, v1, ins, target);
    FrameChain(v, inodes, f, n, va, insa, n + 1, v1, ins);
  }

  lemma ExtendedRefl(v: Vol, inodes: seq<Inode>, own: Owners, data: nat, f: nat, h: nat, target: nat)
    requires Fits(v, inodes, own, data, f, h) && Nb(inodes[f]) >= target
    ensures Extended(v, inodes, own, data, f, Nb(inodes[f]), h, v, inodes[f], own, target)
  {
    hide Core, Shape, Free, A, Need, NeedTo, Frame, Within;
    WithinRefl(v, own, v);
    FrameRefl(v, inodes, f, Nb(inodes[f]), inodes[f]);
    assert inodes[f := inodes[f]] == inodes;
    NeedToZero(Nb(inodes[f]), h, target);
  }

  lemma GrowSucceeds(v: Vol, inodes: seq<Inode>, own: Owners, data: nat, f: nat, h: nat, target: nat)
    returns (own1: Owners)
    requires Fits(v, inodes, own, data, f, h) && target <= 4194303
    requires NeedTo(Nb(inodes[f]), h, target) <= |Free(v)|
    ensures var (v1, oi1, ok) := Grow(v, inodes[f], target);
            ok && Extended(v, inodes, own, data, f, Nb(inodes[f]), h, v1, oi1, own1, target)
    decreases target - Nb(inodes[f])
  {
    hide Core, Shape, Free, A, Need, AddAt, NeedTo, AddBlock, Frame, Within, Extended;
    var oi := inodes[f];
    var n := Nb(oi);
    if n >= target {
      own1 := own;
      ExtendedRefl(v, inodes, own, data, f, h, target);
    } else {
      NeedToStep(n, h, target);
      NeedToPositive(n + 1, n + 1, target);
      var owna := AddStep(v, inodes, own, data, f, h);
      var (va, oia, _) := AddBlock(v, oi);
      own1 := GrowSucceeds(va, inodes[f := oia], owna, data, f, n + 1, target);
      var (v1, oi1, _) := Grow(va, oia, target);
      ExtendedStep(v, inodes, own, data, f, n, h, va, oia, owna, v1, oi1, own1, target);
    }
  }

  lemma NeedToZero(n: nat, h: nat, target: nat)
    requires n >= target
    ensures NeedTo(n, h, target) == 0
  {
  }

  /** The inode without the doubly indirect block that a failed add_block left in it. */
  function Mended(oi: Inode, dangles: bool): Inode {
    if dangles then oi.(indirect2 := 0) else oi
  }

  /** A failed add_block leaves the free map, all trees and all used blocks as they
      were, up to the dangling pointer. */
  lemma FailedKeeps(v: Vol, inodes: seq<Inode>, own: Owners, data: nat, f: nat, n: nat, h: nat, v1: Vol, oi1: Inode)
    requires f < |inodes| && n < MAXFILEBLKS && Core(v, inodes, own, data) && Shape(v, inodes, f, h)
    requires Failed(v, inodes[f], n, h, v1, oi1)
    ensures Mended(oi1, DanglesAt(n, h, |Free(v)|)) == inodes[f]
    ensures Free(v1) == Free(v) && Core(v1, inodes, own, data) && Shape(v1, inodes, f, h)
    ensures Frame(v, inodes, f, MAXFILEBLKS, v1, inodes)
  {
    hide At;
    assert inodes[f].indirect2 == A(v, inodes, f, Ind2) by { Ind2At(v.disk, inodes[f]); }
    assert Free(v1) == Free(v);
    forall g, r | 0 <= g < |inodes| && IsRole(r)
      ensures A(v1, inodes, g, r) == A(v, inodes, g, r)
    {
      forall s | IsRole(s) && IsIndex(s)
        ensures Blk(v1.disk, At(v.disk, inodes[g], s)) == Blk(v.disk, At(v.disk, inodes[g], s))
      {
        assert A(v, inodes, g, s) == At(v.disk, inodes[g], s);
      }
      AtFrame(v.disk, v1.disk, inodes[g], inodes[g], r);
    }
  }

  /** The high-water mark after growth from (n, h) reached m file blocks. */
  function HighAfter(n: nat, h: nat, m: nat): nat {
    if n < m then m else h
  }

  /** Growth from (n, h) stopped at m file blocks for want of a free block. */
  ghost predicate Stuck(v: Vol, inodes: seq<Inode>, own: Owners, data: nat, f: nat, n: nat, h: nat,
                        v1: Vol, oi1: Inode, own1: Owners, m: nat)
    requires f < |inodes|
  {
    var d := DanglesAt(m, HighAfter(n, h, m), |Free(v1)|);
    var ins := inodes[f := Mended(oi1, d)];
    && m == Nb(oi1) && n <= m
    && NeedTo(n, h, m) <= |Free(v)| < NeedTo(n, h, m) + Need(m, HighAfter(n, h, m))
    && Fits(v1, ins, own1, data, f, HighAfter(n, h, m)) && SameMeta(oi1, inodes[f])
    && |Free(v1)| == |Free(v)| - NeedTo(n, h, m) && Within(v, own, v1, own1)
    && |own1| == |own| + NeedTo(n, h, m) - Lost(n, h, m)
    && Frame(v, inodes, f, if m == n then MAXFILEBLKS else n, v1, ins)
    && (m == n ==> Free(v1) == Free(v) && v1.free == v.free && Mended(oi1, d) == inodes[f])
    && (d ==> oi1.indirect2 in Free(v1) && oi1.indirect2 < |v1.disk| && v1.disk[oi1.indirect2] == ZeroBlock())
  }

  lemma StuckStep(v: Vol, inodes: seq<Inode>, own: Owners, data: nat, f: nat, n: nat, h: nat,
                  va: Vol, oia: Inode, owna: Owners, v1: Vol, oi1: Inode, own1: Owners, m: nat)
    requires f < |inodes| && n < MAXFILEBLKS && (h == n || h == n + 1)
    requires Grown(v, inodes, own, data, f, n, h, va, inodes[f := oia], owna)
    requires Stuck(va, inodes[f := oia], owna, data, f, n + 1, n + 1, v1, oi1, own1, m)
    ensures Stuck(v, inodes, own, data, f, n, h, v1, oi1, own1, m)
  {
    hide Core, Shape, Free, At, A, Need, NeedTo, Frame, Within, Nb;
    var insa := inodes[f := oia];
    var d := DanglesAt(m, HighAfter(n, h, m), |Free(v1)|);
    var ins := inodes[f := Mended(oi1, d)];
    assert insa[f := Mended(oi1, d)] == ins;
    NeedToStep(n, h, m);
    WithinChain(v, own, va, owna, v1, own1);
    FrameChain(v, inodes, f, n, va, insa, if m == n + 1 then MAXFILEBLKS else n + 1, v1, ins);
  }

  lemma StuckBase(v: Vol, inodes: seq<Inode>, own: Owners, data: nat, f: nat, h: nat)
    requires Fits(v, inodes, own, data, f, h) && Need(Nb(inodes[f]), h) > |Free(v)|
    ensures var n := Nb(inodes[f]);
            var (v1, oi1, ok) := AddBlock(v, inodes[f]);
            !ok && Stuck(v, inodes, own, data, f, n, h, v1, oi1, own, n)
  {
    hide Core, Shape, Free, A, Need, AddAt, NeedTo, AddBlock, Frame, Within, Nb;
    var oi := inodes[f];
    var n := Nb(oi);
    NeedToZero(n, h, n);
    var _ := AddTop(v, inodes, own, data, f, n, h);
    AddBlockIs(v, oi);
    var (v1, oi1, ok) := AddBlock(v, oi);
    FailedKeeps(v, inodes, own, data, f, n, h, v1, oi1);
    WithinRefl(v, own, v1);
    assert Nb(oi1) == Nb(oi) by { FailedSize(v, oi, n, h, v1, oi1); }
    assert inodes[f := Mended(oi1, DanglesAt(n, h, |Free(v1)|))] == inodes;
  }

  lemma FailedSize(v: Vol, oi: Inode, n: nat, h: nat, v1: Vol, oi1: Inode)
    requires Failed(v, oi, n, h, v1, oi1)
    ensures Nb(oi1) == Nb(oi)
  {
  }

  lemma GrowFails(v: Vol, inodes: seq<Inode>, own: Owners, data: nat, f: nat, h: nat, target: nat)
    returns (own1: Owners, m: nat)
    requires Fits(v, inodes, own, data, f, h) && target <= 4194303
    requires NeedTo(Nb(inodes[f]), h, target) > |Free(v)|
    ensures var (v1, oi1, ok) := Grow(v, inodes[f], target);
            !ok && m < target && Stuck(v, inodes, own, data, f, Nb(inodes[f]), h, v1, oi1, own1, m)
    decreases target - Nb(inodes[f])
  {
    hide Core, Shape, Free, A, Need, AddAt, NeedTo, AddBlock, Frame, Within, Stuck;
    var oi := inodes[f];
    var n := Nb(oi);
    if n >= target {
      NeedToZero(n, h, target);
      assert false;
    } else if Need(n, h) > |Free(v)| {
      own1, m := own, n;
      StuckBase(v, inodes, own, data, f, h);
    } else {
      NeedToStep(n, h, target);
      var owna := AddStep(v, inodes, own, data, f, h);
      var (va, oia, _) := AddBlock(v, oi);
      own1, m := GrowFails(va, inodes[f := oia], owna, data, f, n + 1, target);
      var (v1, oi1, _) := Grow(va, oia, target);
      StuckStep(v, inodes, own, data, f, n, h, va, oia, owna, v1, oi1, own1, m);
    }
  }

  lemma ShrunkResized(v: Vol, inodes: seq<Inode>, own: Owners, data: nat, f: nat, b: nat, v1: Vol, oi1: Inode,
        own1: Owners, oi: Inode)
    requires f < |inodes| && b < MAXFILEBLKS && oi == oi1.(size := oi.size)
    requires Core(v, inodes, own, data) && Shape(v, inodes, f, b + 1)
    requires Shrunk(v, inodes, own, data, f, b, v1, oi1, own1)
    ensures var ins := inodes[f := oi];
            && Core(v1, ins, own1, data) && Shape(v1, ins, f, b) && SameMeta(oi, inodes[f])
            && |Free(v1)| == |Free(v)| + Need(b, b) && |own1| + Need(b, b) == |own|
            && Frame(v, inodes, f, b, v1, ins)
  {
    hide Core, Shape, Free, A, Need, Frame, SameData;
    var insa, ins := inodes[f := oi1], inodes[f := oi];
    assert ins == insa[f := oi] && oi == insa[f].(size := oi.size);
    assert Core(v1, insa, own1, data) && Shape(v1, insa, f, b);
    ShrunkFrame(v, inodes, own, data, f, b, v1, oi1, own1);
    Resized(v1, insa, own1, data, f, b, oi);
    FrameRefl(v1, insa, f, b, oi);
    FrameChain(v, inodes, f, b, v1, insa, b, v1, ins);
  }

  lemma RemoveBlockIs(v: Vol, oi: Inode)
    requires 0 < Nb(oi) < MAXFILEBLKS
    ensures var (v1, oi1) := RemoveAt(v, oi, Nb(oi));
            && RemoveBlock(v, oi).0 == v1
            && RemoveBlock(v, oi).1 == oi1.(size := RemoveBlock(v, oi).1.size)
            && Nb(RemoveBlock(v, oi).1) == Nb(oi) - 1
  {
    hide RemoveAt;
    NblocksStep(oi.size);
    BlockOpsKeepSize(v, oi, Nb(oi));
  }

  /** One remove_block as the code performs it: the block at index n goes if there is
      one, and the block at index n - 1 stays behind. */
  lemma RemoveStep(v: Vol, inodes: seq<Inode>, own: Owners, data: nat, f: nat, h: nat) returns (own1: Owners)
    requires f < |inodes| && Core(v, inodes, own, data) && Shape(v, inodes, f, h)
    requires 0 < Nb(inodes[f]) < MAXFILEBLKS && (h == Nb(inodes[f]) || h == Nb(inodes[f]) + 1)
    ensures var n := Nb(inodes[f]);
            var (v1, oi1) := RemoveBlock(v, inodes[f]);
            var ins := inodes[f := oi1];
            && Nb(oi1) == n - 1 && SameMeta(oi1, inodes[f])
            && Core(v1, ins, own1, data) && Shape(v1, ins, f, n)
            && |Free(v1)| == |Free(v)| + Cost(h) - Cost(n) && |own1| == |own| - Cost(h) + Cost(n)
            && Frame(v, inodes, f, n, v1, ins)
  {
    hide Core, Shape, Free, A, Frame, Shrunk, RemoveBlock, RemoveAt, Nb;
    var oi := inodes[f];
    var n := Nb(oi);
    RemoveBlockIs(v, oi);
    var (v1, oi1) := RemoveBlock(v, oi);
    if h == n {
      RemoveNull(v, inodes, own, data, f, n);
      own1 := own;
      Resized(v, inodes, own, data, f, n, oi1);
      FrameRefl(v, inodes, f, n, oi1);
    } else {
      own1 := RemoveTop(v, inodes, own, data, f, n);
      ShrunkResized(v, inodes, own, data, f, n, v1, RemoveAt(v, oi, n).1, own1, oi1);
    }
  }

  lemma Shrinks(v: Vol, inodes: seq<Inode>, own: Owners, data: nat, f: nat, h: nat, target: nat) returns (own1: Owners)
    requires f < |inodes| && Core(v, inodes, own, data) && Shape(v, inodes, f, h)
    requires target < Nb(inodes[f]) < MAXFILEBLKS && (h == Nb(inodes[f]) || h == Nb(inodes[f]) + 1)
    ensures var (v1, oi1) := Shrink(v, inodes[f], target);
            var ins := inodes[f := oi1];
            && Nb(oi1) == target && SameMeta(oi1, inodes[f])
            && Core(v1, ins, own1, data) && Shape(v1, ins, f, target + 1)
            && |Free(v1)| == |Free(v)| + Cost(h) - Cost(target + 1) && |own1| == |own| - Cost(h) + Cost(target + 1)
            && Frame(v, inodes, f, target + 1, v1, ins)
    decreases Nb(inodes[f])
  {
    hide Core, Shape, Free, A, Frame, RemoveBlock, Cost;
    var oi := inodes[f];
    own1 := RemoveStep(v, inodes, own, data, f, h);
    var (va, oia) := RemoveBlock(v, oi);
    var insa := inodes[f := oia];
    if Nb(oia) > target {
      var n := Nb(oi);
      own1 := Shrinks(va, insa, own1, data, f, n, target);
      var (v1, oi1) := Shrink(va, oia, target);
      assert insa[f := oi1] == inodes[f := oi1];
      FrameChain2(v, inodes, f, n, va, insa, target + 1, v1, inodes[f := oi1]);
    }
  }

  lemma FrameChain2(v: Vol, inodes: seq<Inode>, f: nat, k: nat, v1: Vol, ins: seq<Inode>, k1: nat, v2: Vol,
        ins2: seq<Inode>)
    requires Frame(v, inodes, f, k, v1, ins) && Frame(v1, ins, f, k1, v2, ins2) && k1 <= k
    ensures Frame(v, inodes, f, k1, v2, ins2)
  {
    FrameWeaken(v, inodes, f, k, k1, v1, ins);
    FrameChain(v, inodes, f, k1, v1, ins, k1, v2, ins2);
  }

  lemma FrameWeaken(v: Vol, inodes: seq<Inode>, f: nat, k: nat, k1: nat, v1: Vol, ins: seq<Inode>)
    requires Frame(v, inodes, f, k, v1, ins) && k1 <= k
    ensures Frame(v, inodes, f, k1, v1, ins)
  {
    hide A, Blk;
  }
}
