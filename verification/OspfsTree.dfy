/** Writing one pointer of a block tree changes that pointer and no other. */
module OspfsTree {
  import opened OspfsDisk

  predicate IsIndex(r: Role) { r.Ind? || r.Ind2? || r.Sub? }

  predicate NoWords(b: Block) {
    forall j | 0 <= j < NINDIRECT :: Word(b, j) == 0
  }

  function Poke(disk: seq<Block>, p: nat, i: nat, w: Word32): seq<Block>
    requires i < NINDIRECT
  {
    if p < |disk| then disk[p := SetWord(disk[p], i, w)] else disk
  }

  /** The block whose word holds the pointer of role r; 0 when the inode holds it. */
  function Holder(disk: seq<Block>, oi: Inode, r: Role): nat
    requires IsRole(r)
  {
    match r
    case Sub(_) => oi.indirect2
    case Data(b) =>
      if b < NDIRECT then 0
      else if b < NDIRECT + NINDIRECT then oi.indirect
      else At(disk, oi, Sub((b - NDIRECT - NINDIRECT) / NINDIRECT))
    case _ => 0
  }

  predicate InInode(r: Role) { r.Ind? || r.Ind2? || (r.Data? && r.b < NDIRECT) }

  /** The word inside Holder that holds the pointer of role r. */
  function Slot(r: Role): nat
    requires IsRole(r) && !InInode(r)
    ensures Slot(r) < NINDIRECT
  {
    if r.Sub? then r.k else DirectIndex(r.b)
  }

  /** Store pointer x in role r, as the assignments of add_block and remove_block do. */
  function Link(disk: seq<Block>, oi: Inode, r: Role, x: Word32): (seq<Block>, Inode)
    requires IsRole(r)
  {
    match r
    case Ind => (disk, oi.(indirect := x))
    case Ind2 => (disk, oi.(indirect2 := x))
    case Sub(k) => (Poke(disk, oi.indirect2, k, x), oi)
    case Data(b) =>
      if b < NDIRECT then (disk, oi.(direct := oi.direct[b := x]))
      else (Poke(disk, Holder(disk, oi, r), DirectIndex(b), x), oi)
  }

  /** No two index roles of one inode share a block, and all lie on the disk. */
  ghost predicate IndexSound(disk: seq<Block>, oi: Inode) {
    && |disk| > 0 && disk[0] == ZeroBlock()
    && (forall r | IsRole(r) && IsIndex(r) :: At(disk, oi, r) < |disk|)
    && (forall r, s | IsRole(r) && IsRole(s) && IsIndex(r) && IsIndex(s) && r != s ::
          At(disk, oi, r) == At(disk, oi, s) ==> At(disk, oi, r) == 0)
  }

  lemma ZeroNoWords()
    ensures NoWords(ZeroBlock())
  {
  }

  lemma DataViaSub(disk: seq<Block>, oi: Inode, b: nat)
    requires 266 <= b < MAXFILEBLKS
    ensures IndirIndex(b) == (b - 266) / 256 < 256
    ensures DirectIndex(b) == (b - 266) % 256
    ensures b == 266 + 256 * ((b - 266) / 256) + (b - 266) % 256
    ensures At(disk, oi, Data(b)) == Word(Blk(disk, At(disk, oi, Sub((b - 266) / 256))), (b - 266) % 256)
  {
    assert (b - 10) % 256 == (b - 266) % 256;
  }

  lemma {:induction false} PokeWord(disk: seq<Block>, p: nat, i: nat, w: Word32, q: nat, j: nat)
    requires i < NINDIRECT && j < NINDIRECT && p < |disk|
    ensures |Poke(disk, p, i, w)| == |disk|
    ensures Word(Blk(Poke(disk, p, i, w), q), j) == if q == p && j == i then w else Word(Blk(disk, q), j)
    ensures q != p ==> Blk(Poke(disk, p, i, w), q) == Blk(disk, q)
  {
    hide Word, SetWord;
    WordAfterSet(disk[p], i, w, j);
  }

  /** A role's pointer depends only on the index blocks of its own inode. */
  lemma AtFrame(disk: seq<Block>, disk': seq<Block>, oi: Inode, oi': Inode, r: Role)
    requires IsRole(r)
    requires oi'.direct == oi.direct && oi'.indirect == oi.indirect && oi'.indirect2 == oi.indirect2
    requires forall s | IsRole(s) && IsIndex(s) :: Blk(disk', At(disk, oi, s)) == Blk(disk, At(disk, oi, s))
    ensures At(disk', oi', r) == At(disk, oi, r)
  {
    hide Word, Blk;
    assert IsIndex(Ind) && At(disk, oi, Ind) == oi.indirect;
    assert IsIndex(Ind2) && At(disk, oi, Ind2) == oi.indirect2;
    if r.Data? && r.b >= 266 {
      var k := (r.b - 266) / 256;
      DataViaSub(disk, oi, r.b);
      DataViaSub(disk', oi', r.b);
      assert IsRole(Sub(k)) && IsIndex(Sub(k));
    }
  }

  /** Linking x in role r sets that pointer and leaves every other one alone. */
  lemma LinkAt(disk: seq<Block>, oi: Inode, r: Role, x: Word32, r': Role)
    requires IsRole(r) && IsRole(r') && IndexSound(disk, oi)
    requires !InInode(r) ==> Holder(disk, oi, r) != 0
    requires IsIndex(r) ==> NoWords(Blk(disk, At(disk, oi, r))) && NoWords(Blk(disk, x))
    requires r.Sub? ==> x != oi.indirect2
    ensures var (d, i) := Link(disk, oi, r, x);
            At(d, i, r') == if r' == r then x else At(disk, oi, r')
  {
    hide Word, Blk, SetWord, Poke;
    var (d, i) := Link(disk, oi, r, x);
    if r'.Data? && r'.b >= 266 {
      DataViaSub(disk, oi, r'.b);
      DataViaSub(d, i, r'.b);
    }
    match r
    case Ind =>
    case Ind2 =>
      if r'.Data? && r'.b >= 266 {
        assert At(d, i, r') == 0 by { Deep(disk, i, r'.b); }
        assert At(disk, oi, r') == 0 by { Deep(disk, oi, r'.b); }
      }
    case Sub(k) =>
      assert IsIndex(Ind) && IsIndex(Ind2) && At(disk, oi, Ind2) == oi.indirect2;
      if r'.Data? && r'.b >= 266 {
        var kk, j := (r'.b - 266) / 256, (r'.b - 266) % 256;
        PokeWord(disk, oi.indirect2, k, x, oi.indirect2, kk);
        PokeWord(disk, oi.indirect2, k, x, At(d, i, Sub(kk)), j);
        assert IsIndex(Sub(kk));
      } else if r'.Sub? {
        PokeWord(disk, oi.indirect2, k, x, oi.indirect2, r'.k);
      } else if r'.Data? && r'.b >= 10 {
        PokeWord(disk, oi.indirect2, k, x, oi.indirect, r'.b - 10);
        assert At(disk, oi, Ind) == oi.indirect;
      }
    case Data(b) =>
      if b >= 10 {
        LinkDataAt(disk, oi, b, x, r');
      }
  }

  /** Below a doubly indirect block without words, every pointer reads as null. */
  lemma Deep(disk: seq<Block>, oi: Inode, b: nat)
    requires |disk| > 0 && disk[0] == ZeroBlock() && NoWords(Blk(disk, oi.indirect2))
    requires 266 <= b < MAXFILEBLKS
    ensures At(disk, oi, Data(b)) == 0
  {
    hide Word;
    DataViaSub(disk, oi, b);
    ZeroNoWords();
    assert At(disk, oi, Sub((b - 266) / 256)) == 0;
  }

  lemma LinkDataAt(disk: seq<Block>, oi: Inode, b: nat, x: Word32, r': Role)
    requires 10 <= b < MAXFILEBLKS && IsRole(r') && IndexSound(disk, oi)
    requires Holder(disk, oi, Data(b)) != 0
    ensures var (d, i) := Link(disk, oi, Data(b), x);
            At(d, i, r') == if r' == Data(b) then x else At(disk, oi, r')
  {
    hide Word, Blk, SetWord, Poke;
    var h, s := Holder(disk, oi, Data(b)), DirectIndex(b);
    var (d, i) := Link(disk, oi, Data(b), x);
    var own := if b < 266 then Ind else Sub((b - 266) / 256);
    if b >= 266 { DataViaSub(disk, oi, b); }
    assert IsIndex(own) && IsRole(own) && At(disk, oi, own) == h;
    assert IsIndex(Ind2) && At(disk, oi, Ind2) == oi.indirect2;
    assert IsIndex(Ind) && At(disk, oi, Ind) == oi.indirect;
    match r'
    case Ind =>
    case Ind2 =>
    case Sub(k) => PokeWord(disk, h, s, x, oi.indirect2, k);
    case Data(c) =>
      if c >= 266 {
        var k, j := (c - 266) / 256, (c - 266) % 256;
        DataViaSub(disk, oi, c);
        DataViaSub(d, i, c);
        assert IsIndex(Sub(k)) && IsRole(Sub(k));
        PokeWord(disk, h, s, x, oi.indirect2, k);
        PokeWord(disk, h, s, x, At(disk, oi, Sub(k)), j);
      } else if c >= 10 {
        PokeWord(disk, h, s, x, oi.indirect, c - 10);
      }
  }

  lemma LinkDisk(disk: seq<Block>, oi: Inode, r: Role, x: Word32)
    requires IsRole(r)
    ensures var (d, i) := Link(disk, oi, r, x);
            |d| == |disk|
            && (forall p | 0 <= p < |disk| && (InInode(r) || p != Holder(disk, oi, r)) :: d[p] == disk[p])
            && i == oi.(direct := i.direct, indirect := i.indirect, indirect2 := i.indirect2)
  {
    hide Word, SetWord;
  }
}
