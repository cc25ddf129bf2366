/** Separation: which block belongs to which role of which file. */
module OspfsInv {
  import opened OspfsDisk
  import opened OspfsTree
  import opened OspfsSpec

  datatype Tag = Tag(file: nat, role: Role)
  type Owners = map<int, Tag>

  ghost function Free(v: Vol): set<int> {
    set p | 0 <= p < |v.free| && v.free[p]
  }

  ghost function A(v: Vol, inodes: seq<Inode>, f: nat, r: Role): Word32
    requires f < |inodes| && IsRole(r)
  {
    At(v.disk, inodes[f], r)
  }

  ghost predicate Layout(v: Vol, data: nat) {
    && 2 <= v.first <= data <= |v.disk| == |v.free|
    && v.disk[0] == ZeroBlock()
    && forall p | p in Free(v) :: data <= p
  }

  /** own is the inverse of the pointer trees: every non-null pointer of every file
      is a used data block, recorded under its own file and role, and own records
      nothing else. */
  ghost predicate Core(v: Vol, inodes: seq<Inode>, own: Owners, data: nat) {
    && Layout(v, data)
    && (forall p | p in own ::
          && data <= p < |v.disk| && p !in Free(v)
          && own[p].file < |inodes| && IsRole(own[p].role)
          && A(v, inodes, own[p].file, own[p].role) == p)
    && (forall f, r | 0 <= f < |inodes| && IsRole(r) ::
          A(v, inodes, f, r) != 0 ==> A(v, inodes, f, r) in own && own[A(v, inodes, f, r)] == Tag(f, r))
  }

  /** The tree of file f holds exactly the blocks that file blocks 0..h-1 need. */
  ghost predicate Shape(v: Vol, inodes: seq<Inode>, f: nat, h: nat)
    requires f < |inodes|
  {
    forall r | IsRole(r) :: A(v, inodes, f, r) != 0 <==> InTree(r, h)
  }

  /** Every block that holds file data keeps its bytes. */
  ghost predicate SameData(v: Vol, v': Vol, own: Owners) {
    |v'.disk| == |v.disk| && forall p | p in own && 0 <= p < |v.disk| && own[p].role.Data? :: v'.disk[p] == v.disk[p]
  }

  /** own with block x recorded under t and block y (if recorded) forgotten. */
  ghost function Rebind(own: Owners, y: int, x: int, t: Tag): (o: Owners)
    ensures x in o && o[x] == t
    ensures forall p | p in o && p != x :: p in own && p != y && o[p] == own[p]
    ensures forall p | p in own && p != y && p != x :: p in o && o[p] == own[p]
    ensures x !in own ==> |o| == |own| + if y in own then 0 else 1
  {
    var o := (own - {y})[x := t];
    assert o.Keys == own.Keys - {y} + {x};
    o
  }

  lemma CoreIndexSound(v: Vol, inodes: seq<Inode>, own: Owners, data: nat, f: nat)
    requires Core(v, inodes, own, data) && f < |inodes|
    ensures IndexSound(v.disk, inodes[f])
  {
    hide At, Free;
    forall r | IsRole(r) && IsIndex(r)
      ensures At(v.disk, inodes[f], r) < |v.disk|
    {
      assert A(v, inodes, f, r) == At(v.disk, inodes[f], r);
    }
    forall r, s | IsRole(r) && IsRole(s) && IsIndex(r) && IsIndex(s) && r != s
      ensures At(v.disk, inodes[f], r) == At(v.disk, inodes[f], s) ==> At(v.disk, inodes[f], r) == 0
    {
      assert A(v, inodes, f, r) == At(v.disk, inodes[f], r);
      assert A(v, inodes, f, s) == At(v.disk, inodes[f], s);
    }
  }

  /** Changing one block that is no index block of a file leaves the file's tree alone. */
  lemma OtherBlock(v: Vol, disk': seq<Block>, inodes: seq<Inode>, own: Owners, data: nat, f: nat, q: nat, r: Role)
    requires Core(v, inodes, own, data) && f < |inodes| && IsRole(r)
    requires |disk'| == |v.disk| && q != 0
    requires q in own ==> own[q].file != f || own[q].role.Data?
    requires forall p | 0 <= p < |disk'| && p != q :: disk'[p] == v.disk[p]
    ensures At(disk', inodes[f], r) == A(v, inodes, f, r)
  {
    hide At, Free;
    forall s | IsRole(s) && IsIndex(s)
      ensures Blk(disk', At(v.disk, inodes[f], s)) == Blk(v.disk, At(v.disk, inodes[f], s))
    {
      assert A(v, inodes, f, s) == At(v.disk, inodes[f], s);
    }
    AtFrame(v.disk, disk', inodes[f], inodes[f], r);
  }

  lemma NewBlockCore(v: Vol, inodes: seq<Inode>, own: Owners, data: nat)
    requires Core(v, inodes, own, data)
    ensures var (v1, x) := NewBlock(v);
            && (x == 0 <==> Free(v) == {})
            && (x == 0 ==> v1 == v)
            && (x != 0 ==>
                  && x in Free(v) && x !in own && data <= x < |v.disk|
                  && Free(v1) == Free(v) - {x} && |Free(v1)| == |Free(v)| - 1
                  && v1 == v.(free := v.free[x := false], disk := v.disk[x := ZeroBlock()])
                  && SameData(v, v1, own)
                  && (forall f, r | 0 <= f < |inodes| && IsRole(r) :: A(v1, inodes, f, r) == A(v, inodes, f, r))
                  && Core(v1, inodes, own, data))
  {
    hide At;
    var (v1, x) := NewBlock(v);
    if x == 0 {
      forall p | p in Free(v) ensures false { }
    } else {
      assert v.free[x] && x in Free(v);
      assert Free(v1) == Free(v) - {x};
      forall f, r | 0 <= f < |inodes| && IsRole(r)
        ensures A(v1, inodes, f, r) == A(v, inodes, f, r)
      {
        OtherBlock(v, v1.disk, inodes, own, data, f, x, r);
      }
    }
  }

  /** Storing x in role r of file f changes that pointer, no other pointer of any
      file, and no data block. */
  lemma LinkAll(v: Vol, inodes: seq<Inode>, own: Owners, data: nat, f: nat, r: Role, x: Word32)
    requires Core(v, inodes, own, data) && f < |inodes| && IsRole(r)
    requires x !in own && x < |v.disk|
    requires IsIndex(r) ==> NoWords(Blk(v.disk, A(v, inodes, f, r))) && NoWords(v.disk[x])
    requires !InInode(r) ==> Holder(v.disk, inodes[f], r) != 0
    ensures var (v1, oi1) := LinkIn(v, inodes[f], r, x);
            var ins := inodes[f := oi1];
            && v1 == v.(disk := v1.disk) && |v1.disk| == |v.disk| && v1.disk[0] == v.disk[0]
            && SameData(v, v1, own)
            && oi1.size == inodes[f].size && oi1.ftype == inodes[f].ftype && oi1.nlink == inodes[f].nlink
            && (forall p | 0 < p < |v.disk| && p !in own :: v1.disk[p] == v.disk[p])
            && (forall g, s | 0 <= g < |inodes| && IsRole(s) ::
                  A(v1, ins, g, s) == if g == f && s == r then x else A(v, inodes, g, s))
  {
    hide At, Link, Word, Holder, NoWords;
    var oi := inodes[f];
    var (v1, oi1) := LinkIn(v, oi, r, x);
    var ins := inodes[f := oi1];
    var h := Holder(v.disk, oi, r);
    CoreIndexSound(v, inodes, own, data, f);
    LinkDisk(v.disk, oi, r, x);
    if !InInode(r) { HolderOwned(v, inodes, own, data, f, r); }
    assert A(v, inodes, f, r) == At(v.disk, oi, r);
    assert A(v, inodes, f, Ind2) == At(v.disk, oi, Ind2) == oi.indirect2 by { Ind2At(v.disk, oi); }
    if r.Sub? { SubHolder(v.disk, oi, r); }
    forall g, s | 0 <= g < |inodes| && IsRole(s)
      ensures A(v1, ins, g, s) == if g == f && s == r then x else A(v, inodes, g, s)
    {
      if g == f {
        LinkAt(v.disk, oi, r, x, s);
      } else if InInode(r) {
        assert v1.disk == v.disk;
      } else {
        OtherBlock(v, v1.disk, inodes, own, data, g, h, s);
      }
    }
  }

  /** Hanging the fresh block x in role r of file f. */
  lemma LinkCore(v: Vol, inodes: seq<Inode>, own: Owners, data: nat, f: nat, r: Role, x: Word32) returns (own': Owners)
    requires Core(v, inodes, own, data) && f < |inodes| && IsRole(r)
    requires x !in own && data <= x < |v.disk| && x !in Free(v)
    requires IsIndex(r) ==> A(v, inodes, f, r) == 0 && v.disk[x] == ZeroBlock()
    requires !InInode(r) ==> Holder(v.disk, inodes[f], r) != 0
    ensures var (v1, oi1) := LinkIn(v, inodes[f], r, x);
            var ins := inodes[f := oi1];
            && own' == Rebind(own, A(v, inodes, f, r), x, Tag(f, r))
            && |own'| == |own| + (if A(v, inodes, f, r) == 0 then 1 else 0)
            && Core(v1, ins, own', data) && SameData(v, v1, own) && |v1.disk| == |v.disk|
            && oi1.size == inodes[f].size && oi1.ftype == inodes[f].ftype && oi1.nlink == inodes[f].nlink
            && v1.free == v.free && Free(v1) == Free(v) && v1.first == v.first
            && (forall p | 0 < p < |v.disk| && p !in own :: v1.disk[p] == v.disk[p])
            && (forall g, s | 0 <= g < |inodes| && IsRole(s) ::
                  A(v1, ins, g, s) == if g == f && s == r then x else A(v, inodes, g, s))
  {
    hide At, LinkIn, Core, SameData;
    ZeroNoWords();
    assert Layout(v, data) by { CoreLayout(v, inodes, own, data); }
    LinkAll(v, inodes, own, data, f, r, x);
    var (v1, oi1) := LinkIn(v, inodes[f], r, x);
    own' := Rebind(own, A(v, inodes, f, r), x, Tag(f, r));
    LinkOwners(v, v1, inodes, inodes[f := oi1], own, own', data, f, r, x);
  }

  lemma CoreLayout(v: Vol, inodes: seq<Inode>, own: Owners, data: nat)
    requires Core(v, inodes, own, data)
    ensures Layout(v, data) && 0 !in own
  {
  }

  lemma Ind2At(disk: seq<Block>, oi: Inode)
    ensures At(disk, oi, Ind2) == oi.indirect2 && At(disk, oi, Ind) == oi.indirect
  {
  }

  /** The index block a pointer is stored in is recorded as an index block of the file. */
  lemma HolderOwned(v: Vol, inodes: seq<Inode>, own: Owners, data: nat, f: nat, r: Role)
    requires Core(v, inodes, own, data) && f < |inodes| && IsRole(r) && !InInode(r)
    ensures var h := Holder(v.disk, inodes[f], r);
            h != 0 ==> h in own && own[h].file == f && IsIndex(own[h].role)
  {
    var s := if r.Sub? then Ind2 else if r.b < 266 then Ind else Sub((r.b - 266) / 256);
    assert IsRole(s);
    assert A(v, inodes, f, s) == Holder(v.disk, inodes[f], r) by { hide Word, Blk; }
  }

  lemma LinkOwners(v: Vol, v1: Vol, inodes: seq<Inode>, ins: seq<Inode>, own: Owners, own': Owners, data: nat,
                   f: nat, r: Role, x: Word32)
    requires Core(v, inodes, own, data) && f < |inodes| == |ins| && IsRole(r)
    requires x !in own && data <= x < |v.disk| && x !in Free(v)
    requires v1.free == v.free && v1.first == v.first && |v1.disk| == |v.disk| && v1.disk[0] == v.disk[0]
    requires own' == Rebind(own, A(v, inodes, f, r), x, Tag(f, r))
    requires forall g, s | 0 <= g < |inodes| && IsRole(s) ::
               A(v1, ins, g, s) == if g == f && s == r then x else A(v, inodes, g, s)
    ensures Core(v1, ins, own', data)
    ensures |own'| == |own| + (if A(v, inodes, f, r) == 0 then 1 else 0)
  {
    hide A, Rebind;
    var y: int := A(v, inodes, f, r);
    assert Free(v1) == Free(v);
    assert y != 0 ==> y in own && own[y] == Tag(f, r);
    assert 0 !in own;
    forall p | p in own'
      ensures own'[p].file < |ins| && IsRole(own'[p].role) && A(v1, ins, own'[p].file, own'[p].role) == p
      ensures data <= p < |v1.disk| && p !in Free(v1)
    {
      if p != x { assert p in own && own'[p] == own[p]; }
    }
    forall g, s | 0 <= g < |ins| && IsRole(s) && A(v1, ins, g, s) != 0
      ensures A(v1, ins, g, s) in own' && own'[A(v1, ins, g, s)] == Tag(g, s)
    {
      if !(g == f && s == r) { assert A(v, inodes, g, s) in own; }
    }
  }

  /** Clearing the pointer in role r of file f and freeing its block. */
  lemma DropCore(v: Vol, inodes: seq<Inode>, own: Owners, data: nat, f: nat, r: Role) returns (own': Owners)
    requires Core(v, inodes, own, data) && f < |inodes| && IsRole(r)
    requires A(v, inodes, f, r) != 0
    requires IsIndex(r) ==> NoWords(Blk(v.disk, A(v, inodes, f, r)))
    requires !InInode(r) ==> Holder(v.disk, inodes[f], r) != 0
    ensures var p := A(v, inodes, f, r);
            var (v1, oi1) := Drop(v, inodes[f], r);
            var ins := inodes[f := oi1];
            && own' == own - {p as int} && |own'| == |own| - 1 && p in own
            && Core(v1, ins, own', data) && SameData(v, v1, own) && |v1.disk| == |v.disk|
            && v1.first == v.first && 0 < p < |v.disk| == |v1.disk|
            && (forall q | 0 < q < |v.disk| && q !in own :: v1.disk[q] == v.disk[q])
            && oi1.size == inodes[f].size && oi1.ftype == inodes[f].ftype && oi1.nlink == inodes[f].nlink
            && Free(v1) == Free(v) + {p as int} && |Free(v1)| == |Free(v)| + 1
            && (forall g, s | 0 <= g < |inodes| && IsRole(s) ::
                  A(v1, ins, g, s) == if g == f && s == r then 0 else A(v, inodes, g, s))
  {
    hide At, Link, Core;
    ZeroNoWords();
    assert Layout(v, data) && 0 !in own by { CoreLayout(v, inodes, own, data); }
    var oi := inodes[f];
    var p := A(v, inodes, f, r);
    assert p in own && data <= p < |v.disk| && p !in Free(v) && own[p] == Tag(f, r) by {
      PointerOwned(v, inodes, own, data, f, r);
    }
    assert p == At(v.disk, oi, r);
    LinkAll(v, inodes, own, data, f, r, 0);
    var (vl, oil) := LinkIn(v, oi, r, 0);
    var (v1, oi1) := Drop(v, oi, r);
    assert oi1 == oil && v1 == vl.(free := v.free[p := true]);
    assert Free(v1) == Free(v) + {p as int};
    own' := own - {p as int};
    assert own'.Keys == own.Keys - {p as int};
    var ins := inodes[f := oi1];
    forall g, s | 0 <= g < |inodes| && IsRole(s)
      ensures A(v1, ins, g, s) == if g == f && s == r then 0 else A(v, inodes, g, s)
    {
      assert A(v1, ins, g, s) == A(vl, ins, g, s);
    }
    DropOwners(v, v1, inodes, ins, own, data, f, r);
  }

  lemma PointerOwned(v: Vol, inodes: seq<Inode>, own: Owners, data: nat, f: nat, r: Role)
    requires Core(v, inodes, own, data) && f < |inodes| && IsRole(r) && A(v, inodes, f, r) != 0
    ensures var p := A(v, inodes, f, r);
            p in own && data <= p < |v.disk| && p !in Free(v) && own[p] == Tag(f, r)
  {
    hide At;
  }

  lemma SubHolder(disk: seq<Block>, oi: Inode, r: Role)
    requires IsRole(r) && r.Sub?
    ensures Holder(disk, oi, r) == oi.indirect2
  {
  }

  lemma DropOwners(v: Vol, v1: Vol, inodes: seq<Inode>, ins: seq<Inode>, own: Owners, data: nat, f: nat, r: Role)
    requires Core(v, inodes, own, data) && f < |inodes| == |ins| && IsRole(r)
    requires A(v, inodes, f, r) != 0
    requires Free(v1) == Free(v) + {A(v, inodes, f, r) as int} && |v1.free| == |v.free|
    requires v1.first == v.first && |v1.disk| == |v.disk| && v1.disk[0] == v.disk[0]
    requires forall g, s | 0 <= g < |inodes| && IsRole(s) ::
               A(v1, ins, g, s) == if g == f && s == r then 0 else A(v, inodes, g, s)
    ensures Core(v1, ins, own - {A(v, inodes, f, r) as int}, data)
  {
    hide A;
    assert A(v, inodes, f, r) in own;
  }

  /** Clearing a null pointer changes nothing, not even the boot block it may be read from. */
  lemma DropNull(v: Vol, inodes: seq<Inode>, own: Owners, data: nat, f: nat, r: Role)
    requires Core(v, inodes, own, data) && f < |inodes| && IsRole(r)
    requires A(v, inodes, f, r) == 0
    ensures Drop(v, inodes[f], r) == (v, inodes[f])
  {
    var oi := inodes[f];
    assert FreeBlock(v, 0) == v;
    if !InInode(r) {
      var h, s := Holder(v.disk, oi, r), Slot(r);
      HolderOwned(v, inodes, own, data, f, r);
      assert h < |v.disk| by { hide At; }
      assert At(v.disk, oi, r) == Word(v.disk[h], s) by {
        hide Word;
        if r.Data? && r.b >= 266 { DataViaSub(v.disk, oi, r.b); }
      }
      SetWordSame(v.disk[h], s);
      assert v.disk[h := SetWord(v.disk[h], s, 0)] == v.disk;
    } else if r.Data? {
      assert oi.direct[r.b := 0] == oi.direct;
    }
  }

  /** Blocks come into use only out of the free ones. */
  ghost predicate Within(v: Vol, own: Owners, v1: Vol, own1: Owners) {
    Free(v1) <= Free(v) && own1.Keys <= own.Keys + Free(v)
  }

  lemma WithinSub(v: Vol, own: Owners, v1: Vol)
    requires Free(v1) <= Free(v)
    ensures Within(v, own, v1, own)
  {
  }

  lemma WithinRefl(v: Vol, own: Owners, v1: Vol)
    requires Free(v1) == Free(v)
    ensures Within(v, own, v1, own)
  {
  }

  lemma WithinFree(v: Vol, own: Owners, v1: Vol, own1: Owners)
    requires Within(v, own, v1, own1)
    ensures forall p | p in Free(v1) :: p in Free(v)
  {
  }

  lemma WithinChain(v: Vol, own: Owners, v1: Vol, own1: Owners, v2: Vol, own2: Owners)
    requires Within(v, own, v1, own1) && Within(v1, own1, v2, own2)
    ensures Within(v, own, v2, own2)
  {
  }

  lemma WithinLink(v: Vol, own: Owners, v1: Vol, own1: Owners, v2: Vol, y: int, x: int, t: Tag)
    requires Within(v, own, v1, own1) && x in Free(v) && Free(v2) <= Free(v1)
    ensures Within(v, own, v2, Rebind(own1, y, x, t))
  {
  }

  /** Size, type and link count play no part in the trees. */
  lemma FieldsTree(v: Vol, oi: Inode, oi': Inode, r: Role)
    requires IsRole(r) && oi'.direct == oi.direct && oi'.indirect == oi.indirect && oi'.indirect2 == oi.indirect2
    ensures At(v.disk, oi', r) == At(v.disk, oi, r)
  {
    hide Word, Blk;
  }
}
