/** What one add_block or remove_block does to a separated file system. */
module OspfsBlocks {
  import opened OspfsDisk
  import opened OspfsTree
  import opened OspfsSpec
  import opened OspfsInv

  /** Disk blocks that a tree with file blocks 0..h-1 takes: data, indirect,
      doubly indirect, and the indirect blocks below the latter. */
  function Cost(h: nat): nat {
    h + (if h > 10 then 1 else 0) + (if h > 266 then 1 + (h - 266 + 255) / 256 else 0)
  }

  /** Blocks that one add_block takes on a file of n blocks whose tree holds h: when a
      block is left over at index n, its index blocks are there as well. */
  function Need(n: nat, h: nat): nat {
    if h == n then Cost(n + 1) - Cost(n) else 1
  }

  lemma NeedCases(n: nat)
    ensures Need(n, n) == if n == 10 then 2 else if n == 266 then 3
                          else if n > 266 && (n - 266) % 256 == 0 then 2 else 1
  {
    if n > 266 {
      var q, r := (n - 266) / 256, (n - 266) % 256;
      assert n - 266 == 256 * q + r;
      if r == 0 {
        assert (n - 266 + 255) / 256 == q && (n + 1 - 266 + 255) / 256 == q + 1;
      } else {
        assert (n - 266 + 255) / 256 == q + 1 && (n + 1 - 266 + 255) / 256 == q + 1;
      }
    }
  }

  /** The outcome of a successful add_block on file f. */
  ghost predicate Grew(v: Vol, inodes: seq<Inode>, own: Owners, data: nat, f: nat, n: nat, h: nat,
                       v1: Vol, oi1: Inode, own1: Owners)
    requires f < |inodes| && n < MAXFILEBLKS
  {
    var ins := inodes[f := oi1];
    && Core(v1, ins, own1, data) && Shape(v1, ins, f, n + 1)
    && |Free(v1)| + Need(n, h) == |Free(v)| && Within(v, own, v1, own1)
    && |own1| == |own| + (if h == n then Need(n, h) else 0)
    && v1.first == v.first && SameData(v, v1, own)
    && oi1.size == inodes[f].size && oi1.ftype == inodes[f].ftype && oi1.nlink == inodes[f].nlink
    && (forall r | IsRole(r) && InTree(r, n) :: A(v1, ins, f, r) == A(v, inodes, f, r))
    && A(v1, ins, f, Data(n)) in Free(v)
    && A(v1, ins, f, Data(n)) < |v1.disk| && v1.disk[A(v1, ins, f, Data(n))] == ZeroBlock()
    && (forall g, r | 0 <= g < |inodes| && g != f && IsRole(r) :: A(v1, ins, g, r) == A(v, inodes, g, r))
  }

  lemma AddSimple(v: Vol, inodes: seq<Inode>, own: Owners, data: nat, f: nat, n: nat, h: nat) returns (own1: Owners)
    requires Core(v, inodes, own, data) && f < |inodes| && n < MAXFILEBLKS && Shape(v, inodes, f, h)
    requires h == n + 1 || (h == n && Need(n, n) == 1)
    requires Free(v) != {}
    ensures var (v1, oi1, ok) := AddAt(v, inodes[f], n);
            ok && Grew(v, inodes, own, data, f, n, h, v1, oi1, own1)
  {
    hide At, Link, Word, Free, Core, Rebind, SameData, Within;
    var oi := inodes[f];
    NeedCases(n);
    NewBlockCore(v, inodes, own, data);
    var (va, x) := NewBlock(v);
    Parents(v, inodes, f, n, h);
    Parents(va, inodes, f, n, h);
    own1 := LinkCore(va, inodes, own, data, f, Data(n), x);
    var (v1, oi1) := LinkIn(va, oi, Data(n), x);
    var ins := inodes[f := oi1];
    assert AddAt(v, oi, n) == (v1, oi1, true);
    SameDataChain(v, va, v1, own, own);
    WithinRefl(v, own, v);
    WithinLink(v, own, v, own, v1, A(va, inodes, f, Data(n)), x, Tag(f, Data(n)));
    forall r | IsRole(r)
      ensures A(v1, ins, f, r) != 0 <==> InTree(r, n + 1)
    {
      IndexRoles(r, n, h);
    }
  }

  /** Without a new index block, the trees of n and n + 1 file blocks differ in one role. */
  lemma IndexRoles(r: Role, n: nat, h: nat)
    requires h == n + 1 || (h == n && Need(n, n) == 1)
    ensures InTree(r, n + 1) <==> (r == Data(n) || InTree(r, h))
  {
    NeedCases(n);
    if r.Sub? && n > 266 && n + 1 > 266 + 256 * r.k && !(n > 266 + 256 * r.k) {
      assert n - 266 == 256 * r.k;
    }
  }

  /** When the index blocks above file block n exist, add_block finds them. */
  lemma Parents(v: Vol, inodes: seq<Inode>, f: nat, n: nat, h: nat)
    requires f < |inodes| && n < MAXFILEBLKS && Shape(v, inodes, f, h)
    requires h == n + 1 || (h == n && Need(n, n) == 1)
    ensures 10 <= n < 266 ==> inodes[f].indirect != 0
    ensures n >= 266 ==> inodes[f].indirect2 != 0 && 0 <= IndirIndex(n) < 256
                         && At(v.disk, inodes[f], Sub(IndirIndex(n))) != 0
    ensures n >= 10 ==> Holder(v.disk, inodes[f], Data(n)) != 0
  {
    hide Word, Blk;
    NeedCases(n);
    if 10 <= n < 266 {
      assert A(v, inodes, f, Ind) == inodes[f].indirect;
      assert InTree(Ind, h);
    } else if n >= 266 {
      DataViaSub(v.disk, inodes[f], n);
      var k := (n - 266) / 256;
      assert A(v, inodes, f, Ind2) == inodes[f].indirect2;
      assert A(v, inodes, f, Sub(k)) == At(v.disk, inodes[f], Sub(k));
      assert InTree(Ind2, h) && InTree(Sub(k), h);
    }
  }

  lemma SameDataChain(v: Vol, v1: Vol, v2: Vol, own: Owners, own1: Owners)
    requires SameData(v, v1, own) && SameData(v1, v2, own1)
    requires forall p | p in own :: p in own1 && own1[p] == own[p]
    ensures SameData(v, v2, own)
  {
  }

  lemma AddTenIs(v: Vol, oi: Inode)
    requires oi.indirect == 0
    ensures var (va, x) := NewBlock(v);
            var (vb, y) := NewBlock(va);
            x != 0 && y != 0 ==>
              var (vc, oic) := LinkIn(vb, oi, Ind, y);
              var (v1, oi1) := LinkIn(vc, oic, Data(10), x);
              AddAt(v, oi, 10) == (v1, oi1, true)
  {
    hide NewBlock, LinkIn;
  }

  lemma AddBelowIs(v: Vol, oi: Inode, n: nat, x: Word32, z: Word32)
    requires 266 <= n < MAXFILEBLKS && At(v.disk, oi, Sub(IndirIndex(n))) == 0
    ensures var (vb, y) := NewBlock(v);
            y != 0 ==>
              var (vc, oic) := LinkIn(vb, oi, Sub(IndirIndex(n)), y);
              var (v1, oi1) := LinkIn(vc, oic, Data(n), x);
              AddBelow(v, oi, n, x, z) == (v1, oi1, true)
  {
    hide NewBlock, LinkIn;
  }

  /** After the index block z of role p of file f is in place, data block x still waits. */
  ghost predicate Waiting(v: Vol, inodes: seq<Inode>, own: Owners, data: nat, f: nat, p: Role,
                          vc: Vol, oic: Inode, ownc: Owners, x: Word32, z: Word32)
    requires f < |inodes|
  {
    var insc := inodes[f := oic];
    && Core(vc, insc, ownc, data) && x in Free(v) && x !in Free(vc) && x !in ownc && x != 0 && z != 0
    && data <= x < |vc.disk| && vc.disk[x] == ZeroBlock() && |vc.disk| == |v.disk|
    && |Free(vc)| + 2 == |Free(v)| && Within(v, own, vc, ownc) && |ownc| == |own| + 1
    && (forall p | p in own :: p in ownc && ownc[p] == own[p])
    && vc.first == v.first && SameData(v, vc, own)
    && oic.size == inodes[f].size && oic.ftype == inodes[f].ftype && oic.nlink == inodes[f].nlink
    && (forall g, s | 0 <= g < |inodes| && IsRole(s) ::
          A(vc, insc, g, s) == if g == f && s == p then z else A(v, inodes, g, s))
  }

  /** Two allocations, the second one linked as an index block held by the inode. */
  lemma LinkIndex(v: Vol, inodes: seq<Inode>, own: Owners, data: nat, f: nat, p: Role) returns (ownc: Owners)
    requires Core(v, inodes, own, data) && f < |inodes| && (p == Ind || p == Ind2)
    requires |Free(v)| >= 2 && A(v, inodes, f, p) == 0
    ensures var (va, x) := NewBlock(v);
            var (vb, z) := NewBlock(va);
            var (vc, oic) := LinkIn(vb, inodes[f], p, z);
            Waiting(v, inodes, own, data, f, p, vc, oic, ownc, x, z)
  {
    hide At, Link, Word, Free, Core, Rebind, SameData, Within, NewBlock, LinkIn;
    NewBlockCore(v, inodes, own, data);
    var (va, x) := NewBlock(v);
    NewBlockCore(va, inodes, own, data);
    var (vb, z) := NewBlock(va);
    ownc := LinkCore(vb, inodes, own, data, f, p, z);
    var (vc, oic) := LinkIn(vb, inodes[f], p, z);
    WithinSub(v, own, vb);
    WithinLink(v, own, vb, own, vc, 0, z, Tag(f, p));
    SameDataChain(v, va, vb, own, own);
    SameDataChain(v, vb, vc, own, own);
  }

  /** File block 10 brings the indirect block with it. */
  lemma AddFirstIndirect(v: Vol, inodes: seq<Inode>, own: Owners, data: nat, f: nat) returns (own1: Owners)
    requires Core(v, inodes, own, data) && f < |inodes| && Shape(v, inodes, f, 10)
    requires |Free(v)| >= 2
    ensures var (v1, oi1, ok) := AddAt(v, inodes[f], 10);
            ok && Grew(v, inodes, own, data, f, 10, 10, v1, oi1, own1)
  {
    hide At, Link, Word, Free, Core, Rebind, SameData, Within, NewBlock, LinkIn, AddAt;
    var oi := inodes[f];
    assert A(v, inodes, f, Ind) == oi.indirect == 0 by { Ind2At(v.disk, oi); }
    AddTenIs(v, oi);
    var ownc := LinkIndex(v, inodes, own, data, f, Ind);
    var (va, x) := NewBlock(v);
    var (vb, y) := NewBlock(va);
    var (vc, oic) := LinkIn(vb, oi, Ind, y);
    var insc := inodes[f := oic];
    assert Holder(vc.disk, oic, Data(10)) == A(vc, insc, f, Ind) by { Ind2At(vc.disk, oic); }
    own1 := LinkCore(vc, insc, ownc, data, f, Data(10), x);
    var (v1, oi1) := LinkIn(vc, oic, Data(10), x);
    assert insc[f := oi1] == inodes[f := oi1];
    SameDataChain(v, vc, v1, own, ownc);
    WithinLink(v, own, vc, ownc, v1, 0, x, Tag(f, Data(10)));
  }

  /** At a multiple of 256 above 266, one more file block means one more indirect block. */
  lemma BoundaryRoles(r: Role, n: nat)
    requires n >= 266 && (n - 266) % 256 == 0
    ensures InTree(r, n + 1) <==> r == Data(n) || r == Sub((n - 266) / 256) || r == Ind2 || InTree(r, n)
  {
    var q := (n - 266) / 256;
    assert n - 266 == 256 * q;
  }

  /** From file block 266 on, every 256th block brings an indirect block with it. */
  lemma AddFirstBelow(v0: Vol, own0: Owners, v: Vol, inodes: seq<Inode>, own: Owners, data: nat, f: nat, n: nat,
        x: Word32, z: Word32)
    returns (own1: Owners)
    requires Core(v, inodes, own, data) && f < |inodes| && 266 <= n < MAXFILEBLKS && (n - 266) % 256 == 0
    requires forall r | IsRole(r) :: A(v, inodes, f, r) != 0 <==> InTree(r, n) || r == Ind2
    requires Free(v) != {} && x !in Free(v) && x !in own && x != 0 && data <= x < |v.disk| && v.disk[x] == ZeroBlock()
    requires Within(v0, own0, v, own) && x in Free(v0)
    ensures var (v1, oi1, ok) := AddBelow(v, inodes[f], n, x, z);
            var ins := inodes[f := oi1];
            && ok && Core(v1, ins, own1, data) && Shape(v1, ins, f, n + 1)
            && |Free(v1)| == |Free(v)| - 1 && |own1| == |own| + 2 && Within(v0, own0, v1, own1)
            && v1.first == v.first && SameData(v, v1, own)
            && oi1.size == inodes[f].size && oi1.ftype == inodes[f].ftype && oi1.nlink == inodes[f].nlink
            && (forall r | IsRole(r) && InTree(r, n) :: A(v1, ins, f, r) == A(v, inodes, f, r))
            && A(v1, ins, f, Data(n)) == x && v1.disk[x] == ZeroBlock()
            && (forall g, r | 0 <= g < |inodes| && g != f && IsRole(r) :: A(v1, ins, g, r) == A(v, inodes, g, r))
  {
    hide At, Link, Word, Free, Core, Rebind, SameData, Within, NewBlock, LinkIn, AddAt, AddBelow;
    var oi := inodes[f];
    var k := (n - 266) / 256;
    DataViaSub(v.disk, oi, n);
    assert A(v, inodes, f, Sub(k)) == At(v.disk, oi, Sub(k)) == 0;
    assert A(v, inodes, f, Ind2) == At(v.disk, oi, Ind2) == oi.indirect2 by { Ind2At(v.disk, oi); }
    NewBlockCore(v, inodes, own, data);
    var (vb, y) := NewBlock(v);
    SubHolder(vb.disk, oi, Sub(k));
    var ownc := LinkCore(vb, inodes, own, data, f, Sub(k), y);
    var (vc, oic) := LinkIn(vb, oi, Sub(k), y);
    var insc := inodes[f := oic];
    assert A(vc, insc, f, Sub(k)) == At(vc.disk, oic, Sub(k)) == Holder(vc.disk, oic, Data(n));
    own1 := LinkCore(vc, insc, ownc, data, f, Data(n), x);
    var (v1, oi1) := LinkIn(vc, oic, Data(n), x);
    var ins := insc[f := oi1];
    assert ins == inodes[f := oi1];
    AddBelowIs(v, oi, n, x, z);
    forall r | IsRole(r)
      ensures A(v1, ins, f, r) != 0 <==> InTree(r, n + 1)
    {
      BoundaryRoles(r, n);
    }
    SameDataChain(v, vb, vc, own, own);
    SameDataChain(v, vc, v1, own, ownc);
    WithinFree(v0, own0, v, own);
    WithinLink(v0, own0, v, own, vc, 0, y, Tag(f, Sub(k)));
    WithinLink(v0, own0, vc, ownc, v1, 0, x, Tag(f, Data(n)));
  }

  lemma AddDeepIs(v: Vol, oi: Inode, n: nat)
    requires 266 <= n < MAXFILEBLKS
    ensures var (va, x) := NewBlock(v);
            x != 0 ==>
              if oi.indirect2 != 0 then AddAt(v, oi, n) == AddBelow(va, oi, n, x, 0)
              else
                var (vb, z) := NewBlock(va);
                if z == 0 then AddAt(v, oi, n) == (FreeBlock(va, x), oi, false)
                else
                  var (vc, oic) := LinkIn(vb, oi, Ind2, z);
                  AddAt(v, oi, n) == AddBelow(vc, oic, n, x, z)
  {
    hide NewBlock, LinkIn, AddBelow, FreeBlock;
  }

  lemma AddFirstSub(v: Vol, inodes: seq<Inode>, own: Owners, data: nat, f: nat, n: nat) returns (own1: Owners)
    requires Core(v, inodes, own, data) && f < |inodes| && Shape(v, inodes, f, n)
    requires 266 < n < MAXFILEBLKS && (n - 266) % 256 == 0 && |Free(v)| >= 2
    ensures var (v1, oi1, ok) := AddAt(v, inodes[f], n);
            ok && Grew(v, inodes, own, data, f, n, n, v1, oi1, own1)
  {
    hide At, Link, Word, Free, Core, Rebind, SameData, Within, NewBlock, AddAt, AddBelow, LinkIn;
    var oi := inodes[f];
    NeedCases(n);
    NewBlockCore(v, inodes, own, data);
    var (va, x) := NewBlock(v);
    assert A(v, inodes, f, Ind2) == oi.indirect2 != 0 by { Ind2At(v.disk, oi); assert InTree(Ind2, n); }
    AddDeepIs(v, oi, n);
    WithinSub(v, own, va);
    own1 := AddFirstBelow(v, own, va, inodes, own, data, f, n, x, 0);
    var (v1, oi1, ok) := AddBelow(va, oi, n, x, 0);
    SameDataChain(v, va, v1, own, own);
  }

  /** File block 266 brings the doubly indirect block and its first indirect block. */
  lemma AddFirstDeep(v: Vol, inodes: seq<Inode>, own: Owners, data: nat, f: nat) returns (own1: Owners)
    requires Core(v, inodes, own, data) && f < |inodes| && Shape(v, inodes, f, 266)
    requires |Free(v)| >= 3
    ensures var (v1, oi1, ok) := AddAt(v, inodes[f], 266);
            ok && Grew(v, inodes, own, data, f, 266, 266, v1, oi1, own1)
  {
    hide At, Free, Core, Rebind, SameData, Within, AddAt, AddBelow, LinkIn, NewBlock;
    var oi := inodes[f];
    assert A(v, inodes, f, Ind2) == oi.indirect2 == 0 by { Ind2At(v.disk, oi); }
    AddDeepIs(v, oi, 266);
    var ownc := LinkIndex(v, inodes, own, data, f, Ind2);
    var (va, x) := NewBlock(v);
    var (vb, z) := NewBlock(va);
    var (vc, oic) := LinkIn(vb, oi, Ind2, z);
    var insc := inodes[f := oic];
    own1 := AddFirstBelow(v, own, vc, insc, ownc, data, f, 266, x, z);
    var (v1, oi1, ok) := AddBelow(vc, oic, 266, x, z);
    assert insc[f := oi1] == inodes[f := oi1];
    SameDataChain(v, vc, v1, own, ownc);
  }

  /** The one failure of add_block that changes the inode: file block 266 is asked for
      with exactly two free blocks, so that the third allocation fails. */
  predicate DanglesAt(n: nat, h: nat, free: nat) {
    n == 266 && h == 266 && free == 2
  }

  /** The outcome of a failed add_block: the bitmap and all used blocks are as before. */
  ghost predicate Failed(v: Vol, oi: Inode, n: nat, h: nat, v1: Vol, oi1: Inode) {
    && v1.free == v.free && v1.first == v.first && |v1.disk| == |v.disk|
    && (forall p | 0 <= p < |v.disk| && p !in Free(v) :: v1.disk[p] == v.disk[p])
    && (if DanglesAt(n, h, |Free(v)|)
        then oi1.indirect2 in Free(v) && oi1 == oi.(indirect2 := oi1.indirect2)
             && oi1.indirect2 < |v.disk| && v1.disk[oi1.indirect2] == ZeroBlock()
        else oi1 == oi)
  }

  lemma FreeBack(v: Vol, x: int)
    requires 0 <= x < |v.free| && v.free[x] && v.first <= x
    ensures FreeBlock(v.(free := v.free[x := false]), x).free == v.free
  {
  }

  lemma DeepFails(v: Vol, inodes: seq<Inode>, own: Owners, data: nat, f: nat)
    requires Core(v, inodes, own, data) && f < |inodes|
    requires inodes[f].indirect2 == 0 && |Free(v)| == 2
    ensures var (v1, oi1, ok) := AddAt(v, inodes[f], 266);
            !ok && Failed(v, inodes[f], 266, 266, v1, oi1)
  {
    hide At, Word;
    var oi := inodes[f];
    NewBlockCore(v, inodes, own, data);
    var (va, x) := NewBlock(v);
    NewBlockCore(va, inodes, own, data);
    var (vb, z) := NewBlock(va);
    NewBlockCore(vb, inodes, own, data);
    var oic := oi.(indirect2 := z);
    assert NewBlock(vb) == (vb, 0);
    assert At(vb.disk, oic, Sub(0)) == 0 by { ZeroNoWords(); SubAt(vb.disk, oic); }
    AddDeepIs(v, oi, 266);
    assert AddBelow(vb, oic, 266, x, z) == (FreeBlock(FreeBlock(vb, x), z), oic, false);
    assert FreeBlock(FreeBlock(vb, x), z).free == v.free;
  }

  lemma SubAt(disk: seq<Block>, oi: Inode)
    ensures At(disk, oi, Sub(0)) == Word(Blk(disk, oi.indirect2), 0)
  {
  }

  lemma AddFails(v: Vol, inodes: seq<Inode>, own: Owners, data: nat, f: nat, n: nat, h: nat)
    requires Core(v, inodes, own, data) && f < |inodes| && n < MAXFILEBLKS && Shape(v, inodes, f, h)
    requires h == n || h == n + 1
    requires |Free(v)| < Need(n, h)
    ensures var (v1, oi1, ok) := AddAt(v, inodes[f], n);
            !ok && Failed(v, inodes[f], n, h, v1, oi1)
  {
    hide At, Link, Word;
    var oi := inodes[f];
    NeedCases(n);
    NewBlockCore(v, inodes, own, data);
    var (va, x) := NewBlock(v);
    if x != 0 {
      FreeBack(v, x);
      assert h == n && n >= 10;
      NewBlockCore(va, inodes, own, data);
      var (vb, z) := NewBlock(va);
      if n == 10 {
        assert A(v, inodes, f, Ind) == oi.indirect == 0 by { Ind2At(v.disk, oi); }
      } else if n == 266 {
        assert A(v, inodes, f, Ind2) == oi.indirect2 == 0 by { Ind2At(v.disk, oi); }
        AddDeepIs(v, oi, 266);
        if z != 0 { DeepFails(v, inodes, own, data, f); }
      } else {
        assert A(v, inodes, f, Ind2) == oi.indirect2 != 0 by { Ind2At(v.disk, oi); assert InTree(Ind2, n); }
        AddDeepIs(v, oi, n);
        var k := (n - 266) / 256;
        assert A(va, inodes, f, Sub(k)) == At(va.disk, oi, Sub(k)) == 0;
      }
    }
  }

  /** The role whose pointer is word j of the index block in role r. */
  function Child(r: Role, j: nat): (c: Role)
    requires IsRole(r) && IsIndex(r) && j < NINDIRECT
    ensures IsRole(c)
  {
    match r
    case Ind => Data(10 + j)
    case Ind2 => Sub(j)
    case Sub(k) => Data(266 + 256 * k + j)
    case Data(_) => r
  }

  lemma EmptyIndex(v: Vol, inodes: seq<Inode>, f: nat, r: Role)
    requires f < |inodes| && IsRole(r) && IsIndex(r)
    requires forall j | 0 <= j < NINDIRECT :: A(v, inodes, f, Child(r, j)) == 0
    ensures NoWords(Blk(v.disk, A(v, inodes, f, r)))
  {
    hide Word, Blk;
    forall j | 0 <= j < NINDIRECT
      ensures Word(Blk(v.disk, A(v, inodes, f, r)), j) == 0
    {
      assert A(v, inodes, f, Child(r, j)) == 0;
      if r.Sub? {
        var b := 266 + 256 * r.k + j;
        assert (b - 266) / 256 == r.k && (b - 266) % 256 == j;
        DataViaSub(v.disk, inodes[f], b);
      }
    }
  }

  /** The outcome of removing file block b from a tree of exactly b + 1 file blocks. */
  ghost predicate Shrunk(v: Vol, inodes: seq<Inode>, own: Owners, data: nat, f: nat, b: nat,
                         v1: Vol, oi1: Inode, own1: Owners)
    requires f < |inodes| && b < MAXFILEBLKS
  {
    var ins := inodes[f := oi1];
    && Core(v1, ins, own1, data) && Shape(v1, ins, f, b)
    && |Free(v1)| == |Free(v)| + Need(b, b) && |own1| + Need(b, b) == |own|
    && Free(v1) == Free(v) + (own.Keys - own1.Keys) && (forall p | p in own1 :: p in own && own1[p] == own[p])
    && v1.first == v.first && SameData(v, v1, own)
    && oi1.size == inodes[f].size && oi1.ftype == inodes[f].ftype && oi1.nlink == inodes[f].nlink
    && (forall r | IsRole(r) && InTree(r, b) :: A(v1, ins, f, r) == A(v, inodes, f, r))
    && (forall g, r | 0 <= g < |inodes| && g != f && IsRole(r) :: A(v1, ins, g, r) == A(v, inodes, g, r))
  }

  lemma RemoveSimpleIs(v: Vol, oi: Inode, b: nat)
    requires b < MAXFILEBLKS && Need(b, b) == 1
    ensures RemoveAt(v, oi, b) == Drop(v, oi, Data(b))
  {
    hide Drop;
    NeedCases(b);
    assert b >= 266 ==> (b - 10) % 256 == (b - 266) % 256;
  }

  lemma RemoveSimple(v: Vol, inodes: seq<Inode>, own: Owners, data: nat, f: nat, b: nat) returns (own1: Owners)
    requires Core(v, inodes, own, data) && f < |inodes| && b < MAXFILEBLKS && Shape(v, inodes, f, b + 1)
    requires Need(b, b) == 1
    ensures var (v1, oi1) := RemoveAt(v, inodes[f], b);
            Shrunk(v, inodes, own, data, f, b, v1, oi1, own1)
  {
    hide At, Link, Word, Free, Core, Drop, SameData, RemoveAt, Need, Holder, Shape;
    RemoveSimpleIs(v, inodes[f], b);
    Parents(v, inodes, f, b, b + 1);
    assert A(v, inodes, f, Data(b)) != 0 by { TopSet(v, inodes, f, b); }
    own1 := DropCore(v, inodes, own, data, f, Data(b));
    var (v1, oi1) := Drop(v, inodes[f], Data(b));
    assert own.Keys - own1.Keys == {A(v, inodes, f, Data(b)) as int};
    forall r | IsRole(r)
      ensures InTree(r, b) <==> InTree(r, b + 1) && r !in {Data(b)}
    {
      IndexRoles(r, b, b);
    }
    ShapeLess(v, inodes, v1, inodes[f := oi1], f, b + 1, b, {Data(b)});
  }

  lemma TopSet(v: Vol, inodes: seq<Inode>, f: nat, b: nat)
    requires f < |inodes| && b < MAXFILEBLKS && Shape(v, inodes, f, b + 1)
    ensures A(v, inodes, f, Data(b)) != 0
  {
    hide A;
    assert InTree(Data(b), b + 1);
  }

  /** Dropping index role r after everything below it is gone. */
  lemma DropIndex(v: Vol, inodes: seq<Inode>, own: Owners, data: nat, f: nat, r: Role) returns (own1: Owners)
    requires Core(v, inodes, own, data) && f < |inodes| && IsRole(r) && IsIndex(r)
    requires A(v, inodes, f, r) != 0 && (r.Sub? ==> inodes[f].indirect2 != 0)
    requires forall j | 0 <= j < NINDIRECT :: A(v, inodes, f, Child(r, j)) == 0
    ensures var p := A(v, inodes, f, r);
            var (v1, oi1) := Drop(v, inodes[f], r);
            var ins := inodes[f := oi1];
            && own1 == own - {p as int} && |own1| == |own| - 1 && p in own
            && Core(v1, ins, own1, data) && SameData(v, v1, own)
            && v1.first == v.first && 0 < p < |v.disk| == |v1.disk|
            && (forall q | 0 < q < |v.disk| && q !in own :: v1.disk[q] == v.disk[q])
            && oi1.size == inodes[f].size && oi1.ftype == inodes[f].ftype && oi1.nlink == inodes[f].nlink
            && Free(v1) == Free(v) + {p as int} && |Free(v1)| == |Free(v)| + 1
            && (forall g, s | 0 <= g < |inodes| && IsRole(s) ::
                  A(v1, ins, g, s) == if g == f && s == r then 0 else A(v, inodes, g, s))
  {
    hide At, Link, Word, Free, Core, Drop, SameData;
    EmptyIndex(v, inodes, f, r);
    if r.Sub? { SubHolder(v.disk, inodes[f], r); }
    own1 := DropCore(v, inodes, own, data, f, r);
  }

  /** With 11 file blocks the indirect block holds one pointer. */
  lemma TenAlone(v: Vol, inodes: seq<Inode>, f: nat)
    requires f < |inodes| && Shape(v, inodes, f, 11)
    ensures A(v, inodes, f, Data(10)) != 0 && A(v, inodes, f, Ind) != 0
    ensures forall j | 0 < j < NINDIRECT :: A(v, inodes, f, Child(Ind, j)) == 0
  {
    hide A;
    assert InTree(Data(10), 11) && InTree(Ind, 11);
    forall j | 0 < j < NINDIRECT ensures A(v, inodes, f, Child(Ind, j)) == 0 { assert !InTree(Child(Ind, j), 11); }
  }

  /** With 267 file blocks the doubly indirect block holds one pointer. */
  lemma DeepAlone(v: Vol, inodes: seq<Inode>, f: nat)
    requires f < |inodes| && Shape(v, inodes, f, 267)
    ensures A(v, inodes, f, Ind2) != 0
    ensures forall j | 0 < j < NINDIRECT :: A(v, inodes, f, Child(Ind2, j)) == 0
  {
    hide A;
    assert InTree(Ind2, 267);
    forall j | 0 < j < NINDIRECT ensures A(v, inodes, f, Child(Ind2, j)) == 0 { assert !InTree(Child(Ind2, j), 267); }
  }

  lemma RemoveTen(v: Vol, inodes: seq<Inode>, own: Owners, data: nat, f: nat) returns (own1: Owners)
    requires Core(v, inodes, own, data) && f < |inodes| && Shape(v, inodes, f, 11)
    ensures var (v1, oi1) := RemoveAt(v, inodes[f], 10);
            Shrunk(v, inodes, own, data, f, 10, v1, oi1, own1)
  {
    hide At, Link, Word, Free, Core, Drop, SameData, Shape;
    Parents(v, inodes, f, 10, 11);
    TenAlone(v, inodes, f);
    var owna := DropCore(v, inodes, own, data, f, Data(10));
    var (va, oia) := Drop(v, inodes[f], Data(10));
    var insa := inodes[f := oia];
    own1 := DropIndex(va, insa, owna, data, f, Ind);
    var (v1, oi1) := Drop(va, oia, Ind);
    assert insa[f := oi1] == inodes[f := oi1];
    assert own.Keys - own1.Keys == {A(v, inodes, f, Data(10)) as int, A(va, insa, f, Ind) as int};
    SameDataDrop(v, va, v1, own, owna, A(v, inodes, f, Data(10)));
    ShapeLess(v, inodes, v1, inodes[f := oi1], f, 11, 10, {Data(10), Ind});
  }

  /** Chaining past a dropped block, whose bytes the second step does not touch either. */
  lemma SameDataDrop(v: Vol, v1: Vol, v2: Vol, own: Owners, own1: Owners, p: int)
    requires SameData(v, v1, own) && own1 == own - {p} && SameData(v1, v2, own1)
    requires 0 <= p < |v1.disk| == |v2.disk| && v2.disk[p] == v1.disk[p]
    ensures SameData(v, v2, own)
  {
  }

  lemma RemoveDeepIs(v: Vol, oi: Inode, k: nat)
    requires 266 + 256 * k < MAXFILEBLKS
    ensures k < 256
    ensures var (va, oia) := Drop(v, oi, Data(266 + 256 * k));
            var (vb, oib) := Drop(va, oia, Sub(k));
            RemoveAt(v, oi, 266 + 256 * k) == if k == 0 then Drop(vb, oib, Ind2) else (vb, oib)
  {
    hide Drop;
    assert (266 + 256 * k - 10) % 256 == 0;
    assert IndirIndex(266 + 256 * k) == k;
  }

  /** Disk and inode after file block 266 + 256 * k and the indirect block above it are dropped. */
  function PairGone(v: Vol, oi: Inode, k: nat): (Vol, Inode)
    requires 266 + 256 * k < MAXFILEBLKS
  {
    var (va, oia) := Drop(v, oi, Data(266 + 256 * k));
    Drop(va, oia, Sub(k))
  }

  /** Dropping a file block and the indirect block it was alone in. */
  lemma RemovePair(v: Vol, inodes: seq<Inode>, own: Owners, data: nat, f: nat, k: nat) returns (own1: Owners)
    requires 266 + 256 * k < MAXFILEBLKS
    requires Core(v, inodes, own, data) && f < |inodes| && Shape(v, inodes, f, 266 + 256 * k + 1)
    ensures k < 256
    ensures var b := 266 + 256 * k;
            var (v1, oi1) := PairGone(v, inodes[f], k);
            var ins := inodes[f := oi1];
            var p, q := A(v, inodes, f, Data(b)), A(v, inodes, f, Sub(k));
            && own1 == own - {p as int} - {q as int} && |own1| == |own| - 2
            && Core(v1, ins, own1, data) && SameData(v, v1, own)
            && v1.first == v.first && |v1.disk| == |v.disk|
            && (forall q | 0 < q < |v.disk| && q !in own :: v1.disk[q] == v.disk[q])
            && oi1.size == inodes[f].size && oi1.ftype == inodes[f].ftype && oi1.nlink == inodes[f].nlink
            && p in own && q in own && 0 < p < |v.disk| && 0 < q < |v.disk|
            && Free(v1) == Free(v) + {p as int, q as int} && |Free(v1)| == |Free(v)| + 2
            && (forall g, s | 0 <= g < |inodes| && IsRole(s) ::
                  A(v1, ins, g, s) == if g == f && (s == Data(b) || s == Sub(k)) then 0 else A(v, inodes, g, s))
  {
    hide At, Link, Word, Free, Core, Drop, SameData;
    var b := 266 + 256 * k;
    RemoveDeepIs(v, inodes[f], k);
    Parents(v, inodes, f, b, b + 1);
    var owna := DropCore(v, inodes, own, data, f, Data(b));
    var (va, oia) := Drop(v, inodes[f], Data(b));
    var insa := inodes[f := oia];
    assert A(va, insa, f, Ind2) == oia.indirect2 != 0 by { Ind2At(va.disk, oia); assert InTree(Ind2, b + 1); }
    assert A(v, inodes, f, Sub(k)) != 0 by { assert InTree(Sub(k), b + 1); }
    forall j | 0 <= j < NINDIRECT
      ensures A(va, insa, f, Child(Sub(k), j)) == 0
    {
      assert !InTree(Data(b + j), b + 1) || j == 0;
    }
    own1 := DropIndex(va, insa, owna, data, f, Sub(k));
    var (v1, oi1) := Drop(va, oia, Sub(k));
    assert insa[f := oi1] == inodes[f := oi1];
    SameDataDrop(v, va, v1, own, owna, A(v, inodes, f, Data(b)));
  }

  lemma ShapeLess(v: Vol, inodes: seq<Inode>, v1: Vol, ins: seq<Inode>, f: nat, h: nat, h1: nat, gone: set<Role>)
    requires f < |inodes| == |ins| && Shape(v, inodes, f, h)
    requires forall r | IsRole(r) :: A(v1, ins, f, r) == if r in gone then 0 else A(v, inodes, f, r)
    requires forall r | IsRole(r) :: InTree(r, h1) <==> InTree(r, h) && r !in gone
    ensures Shape(v1, ins, f, h1)
    ensures forall r | IsRole(r) && InTree(r, h1) :: A(v1, ins, f, r) == A(v, inodes, f, r)
  {
    hide A;
  }

  lemma NeedDeep()
    ensures Need(266, 266) == 3
  {
    NeedCases(266);
  }

  lemma NeedSub(k: nat)
    requires k > 0
    ensures Need(266 + 256 * k, 266 + 256 * k) == 2
  {
    hide Need;
    var n := 266 + 256 * k;
    assert (n - 266) % 256 == 0;
    NeedCases(n);
  }

  lemma RemoveSub(v: Vol, inodes: seq<Inode>, own: Owners, data: nat, f: nat, k: nat) returns (own1: Owners)
    requires 0 < k && 266 + 256 * k < MAXFILEBLKS
    requires Core(v, inodes, own, data) && f < |inodes| && Shape(v, inodes, f, 266 + 256 * k + 1)
    ensures var b := 266 + 256 * k;
            var (v1, oi1) := RemoveAt(v, inodes[f], b);
            Shrunk(v, inodes, own, data, f, b, v1, oi1, own1)
  {
    hide At, Link, Word, Free, Core, Drop, SameData, RemoveAt, Need, Shape;
    var b := 266 + 256 * k;
    NeedSub(k);
    RemoveDeepIs(v, inodes[f], k);
    own1 := RemovePair(v, inodes, own, data, f, k);
    assert own.Keys - own1.Keys == {A(v, inodes, f, Data(b)) as int, A(v, inodes, f, Sub(k)) as int};
    var (v1, oi1) := RemoveAt(v, inodes[f], b);
    ShapeLess(v, inodes, v1, inodes[f := oi1], f, b + 1, b, {Data(b), Sub(k)});
  }

  lemma SameDataDrop2(v: Vol, v1: Vol, v2: Vol, own: Owners, own1: Owners, p: int, q: int)
    requires SameData(v, v1, own) && own1 == own - {p} - {q} && SameData(v1, v2, own1)
    requires 0 <= p < |v1.disk| == |v2.disk| && v2.disk[p] == v1.disk[p]
    requires 0 <= q < |v1.disk| && v2.disk[q] == v1.disk[q]
    ensures SameData(v, v2, own)
  {
  }

  /** And the doubly indirect block with them, when the file ends in its first block. */
  lemma RemoveTriple(v: Vol, inodes: seq<Inode>, own: Owners, data: nat, f: nat) returns (own1: Owners)
    requires Core(v, inodes, own, data) && f < |inodes| && Shape(v, inodes, f, 267)
    ensures var (vb, oib) := PairGone(v, inodes[f], 0);
            var (v1, oi1) := Drop(vb, oib, Ind2);
            var ins := inodes[f := oi1];
            var p, q, t := A(v, inodes, f, Data(266)), A(v, inodes, f, Sub(0)), A(v, inodes, f, Ind2);
            && own1 == own - {p as int} - {q as int} - {t as int} && |own1| == |own| - 3
            && Core(v1, ins, own1, data) && SameData(v, v1, own) && v1.first == v.first
            && oi1.size == inodes[f].size && oi1.ftype == inodes[f].ftype && oi1.nlink == inodes[f].nlink
            && p in own && q in own && t in own
            && Free(v1) == Free(v) + {p as int, q as int, t as int} && |Free(v1)| == |Free(v)| + 3
            && (forall g, s | 0 <= g < |inodes| && IsRole(s) ::
                  A(v1, ins, g, s) ==
                    if g == f && (s == Data(266) || s == Sub(0) || s == Ind2) then 0 else A(v, inodes, g, s))
  {
    hide At, Link, Word, Free, Core, Drop, SameData, Shape, PairGone;
    var ownb := RemovePair(v, inodes, own, data, f, 0);
    var (vb, oib) := PairGone(v, inodes[f], 0);
    var insb := inodes[f := oib];
    DeepAlone(v, inodes, f);
    own1 := DropIndex(vb, insb, ownb, data, f, Ind2);
    var (v1, oi1) := Drop(vb, oib, Ind2);
    assert insb[f := oi1] == inodes[f := oi1];
    SameDataDrop2(v, vb, v1, own, ownb, A(v, inodes, f, Data(266)), A(v, inodes, f, Sub(0)));
  }

  lemma RemoveDeep(v: Vol, inodes: seq<Inode>, own: Owners, data: nat, f: nat) returns (own1: Owners)
    requires Core(v, inodes, own, data) && f < |inodes| && Shape(v, inodes, f, 267)
    ensures var (v1, oi1) := RemoveAt(v, inodes[f], 266);
            Shrunk(v, inodes, own, data, f, 266, v1, oi1, own1)
  {
    hide At, Link, Word, Free, Core, Drop, SameData, RemoveAt, Need, Shape, A;
    NeedDeep();
    RemoveDeepIs(v, inodes[f], 0);
    own1 := RemoveTriple(v, inodes, own, data, f);
    var p, q, t := A(v, inodes, f, Data(266)), A(v, inodes, f, Sub(0)), A(v, inodes, f, Ind2);
    assert own.Keys - own1.Keys == {p as int, q as int, t as int};
    var (v1, oi1) := RemoveAt(v, inodes[f], 266);
    ShapeLess(v, inodes, v1, inodes[f := oi1], f, 267, 266, {Data(266), Sub(0), Ind2});
  }

  /** remove_block's body, given the index of the last block in the tree. */
  lemma RemoveTop(v: Vol, inodes: seq<Inode>, own: Owners, data: nat, f: nat, b: nat) returns (own1: Owners)
    requires Core(v, inodes, own, data) && f < |inodes| && b < MAXFILEBLKS && Shape(v, inodes, f, b + 1)
    ensures var (v1, oi1) := RemoveAt(v, inodes[f], b);
            Shrunk(v, inodes, own, data, f, b, v1, oi1, own1)
  {
    hide Core, RemoveAt, Shape, Shrunk;
    NeedCases(b);
    if b == 10 {
      own1 := RemoveTen(v, inodes, own, data, f);
    } else if b == 266 {
      own1 := RemoveDeep(v, inodes, own, data, f);
    } else if b > 266 && (b - 266) % 256 == 0 {
      var k := (b - 266) / 256;
      assert b == 266 + 256 * k;
      own1 := RemoveSub(v, inodes, own, data, f, k);
    } else {
      own1 := RemoveSimple(v, inodes, own, data, f, b);
    }
  }

  /** remove_block's body, given an index just past the tree, changes nothing. */
  lemma RemoveNull(v: Vol, inodes: seq<Inode>, own: Owners, data: nat, f: nat, b: nat)
    requires Core(v, inodes, own, data) && f < |inodes| && b < MAXFILEBLKS && Shape(v, inodes, f, b)
    ensures RemoveAt(v, inodes[f], b) == (v, inodes[f])
  {
    hide Core, Drop, At, A;
    DropNull(v, inodes, own, data, f, Data(b));
    if b == 10 {
      DropNull(v, inodes, own, data, f, Ind);
    } else if b >= 266 && (b - 10) % 256 == 0 {
      var k := (b - 266) / 256;
      assert b == 266 + 256 * k;
      DropNull(v, inodes, own, data, f, Sub(k));
      if b == 266 { DropNull(v, inodes, own, data, f, Ind2); }
    }
  }

  /** add_block on file block n succeeds exactly when enough blocks are free. */
  lemma AddTop(v: Vol, inodes: seq<Inode>, own: Owners, data: nat, f: nat, n: nat, h: nat) returns (own1: Owners)
    requires Core(v, inodes, own, data) && f < |inodes| && n < MAXFILEBLKS && Shape(v, inodes, f, h)
    requires h == n || h == n + 1
    ensures var (v1, oi1, ok) := AddAt(v, inodes[f], n);
            && ok == (|Free(v)| >= Need(n, h))
            && (ok ==> Grew(v, inodes, own, data, f, n, h, v1, oi1, own1))
            && (!ok ==> Failed(v, inodes[f], n, h, v1, oi1))
  {
    hide Core, AddAt, Shape, Grew, Failed, Free;
    NeedCases(n);
    own1 := own;
    if |Free(v)| < Need(n, h) {
      AddFails(v, inodes, own, data, f, n, h);
    } else if h == n + 1 || Need(n, n) == 1 {
      own1 := AddSimple(v, inodes, own, data, f, n, h);
    } else if n == 10 {
      own1 := AddFirstIndirect(v, inodes, own, data, f);
    } else if n == 266 {
      own1 := AddFirstDeep(v, inodes, own, data, f);
    } else {
      own1 := AddFirstSub(v, inodes, own, data, f, n);
    }
  }
}
