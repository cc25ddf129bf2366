/** Whole runs of the formatter: whatever files and directories it writes, the image it
    hands over is sound for the kernel, and the kernel reads back what was stored. */
module FormatRuns {
  import opened Options
  import opened OspfsDisk
  import opened OspfsTree
  import opened OspfsSpec
  import opened OspfsInv
  import opened OspfsBlocks
  import opened OspfsResize
  import opened OspfsChangeSize
  import opened OspfsBytes
  import opened FormatImage

  /** One stored file block: where it is, and its contents. */
  datatype Stored = Stored(bno: nat, data: Block)

  /** The uncached disk, nextb, the inode table, and what was stored in each file so far. */
  datatype Image = Image(first: nat, disk: seq<Block>, nextb: nat, inodes: seq<Inode>, files: seq<seq<Stored>>)

  function Start(img: Image): nat { img.first + (|img.inodes| + 15) / 16 }

  function Counts(files: seq<seq<Stored>>): seq<nat> { seq(|files|, f requires 0 <= f < |files| => |files[f]|) }

  function Volume(img: Image): Vol
    requires |img.disk| <= MAXBLOCKS
  {
    View(img.first, img.disk, img.nextb)
  }

  /** The decoder finds every stored block, in order, with its contents. */
  ghost predicate Decodes(v: Vol, inodes: seq<Inode>, f: nat, stored: seq<Stored>)
    requires f < |inodes|
  {
    && |stored| <= MAXFILEBLKS
    && forall b | 0 <= b < |stored| ::
         A(v, inodes, f, Data(b)) == stored[b].bno != 0 && Blk(v.disk, stored[b].bno) == stored[b].data
  }

  ghost predicate Good(img: Image, own: Owners) {
    && 2 <= img.nextb <= |img.disk| <= MAXBLOCKS && |img.files| == |img.inodes|
    && Core(Volume(img), img.inodes, own, Start(img))
    && (forall f | 0 <= f < |img.inodes| ::
          Decodes(Volume(img), img.inodes, f, img.files[f]) && Shape(Volume(img), img.inodes, f, |img.files[f]|))
    && |own| == SumCosts(Counts(img.files))
  }

  /** The formatter's steps: take the next block, fill it with c and store it as the next
      block of inode f; change a stored block (a directory entry); set the other fields. */
  datatype Act =
    | Append(f: nat, c: Block)
    | Change(f: nat, b: nat, c: Block)
    | Fields(f: nat, size: Word32, ftype: nat, nlink: nat)

  predicate CanAct(img: Image, a: Act) {
    match a
    case Append(f, _) => f < |img.inodes| == |img.files|
    case Change(f, b, _) => f < |img.files| && b < |img.files[f]| && img.files[f][b].bno < |img.disk|
    case Fields(f, _, _, _) => f < |img.inodes|
  }

  /** None where the program aborts: the disk or the file is full. */
  function Perform(img: Image, a: Act): Option<Image>
    requires CanAct(img, a)
  {
    match a
    case Append(f, c) =>
      if img.nextb >= |img.disk| || img.nextb + 1 >= TWO32 then None
      else
        var s := StoreBlk(img.disk[img.nextb := c], img.inodes[f], img.nextb + 1, img.nextb, |img.files[f]|);
        if s.None? then None
        else
          Some(Image(img.first, s.value.disk, s.value.nextb, img.inodes[f := s.value.oi],
                     img.files[f := img.files[f] + [Stored(img.nextb, c)]]))
    case Change(f, b, c) =>
      var st := img.files[f][b];
      Some(img.(disk := img.disk[st.bno := c], files := img.files[f := img.files[f][b := st.(data := c)]]))
    case Fields(f, size, ftype, nlink) =>
      Some(img.(inodes := img.inodes[f := img.inodes[f].(size := size, ftype := ftype, nlink := nlink)]))
  }

  // -------------------------------------------------------------------------
  // Each step keeps the image good
  // -------------------------------------------------------------------------

  /** Writing a data block leaves all trees alone. */
  lemma DataWrite(v: Vol, inodes: seq<Inode>, own: Owners, data: nat, q: nat, c: Block)
    requires Core(v, inodes, own, data) && q in own && own[q].role.Data? && q < |v.disk|
    ensures var v' := v.(disk := v.disk[q := c]);
            && Core(v', inodes, own, data)
            && (forall g, r | 0 <= g < |inodes| && IsRole(r) :: A(v', inodes, g, r) == A(v, inodes, g, r))
            && (forall p | p != q :: Blk(v'.disk, p) == Blk(v.disk, p)) && Blk(v'.disk, q) == c
  {
    hide At;
    var v' := v.(disk := v.disk[q := c]);
    CoreLayout(v, inodes, own, data);
    forall g, r | 0 <= g < |inodes| && IsRole(r)
      ensures A(v', inodes, g, r) == A(v, inodes, g, r)
    {
      OtherBlock(v, v'.disk, inodes, own, data, g, q, r);
    }
    assert Free(v') == Free(v);
    hide A, Free;
    assert Core(v', inodes, own, data);
  }

  lemma UsedFits(img: Image, own: Owners, f: nat)
    requires Good(img, own) && f < |img.inodes| && img.nextb < |img.disk|
    ensures var d1 := img.disk[img.nextb := ZeroBlock()];
            && PointersFit(d1, img.inodes[f]) && IndexSound(d1, img.inodes[f])
            && img.inodes[f].indirect < img.nextb && img.inodes[f].indirect2 < img.nextb
            && forall k | 0 <= k < NINDIRECT :: At(d1, img.inodes[f], Sub(k)) != img.nextb
  {
    hide At, Shape, Decodes;
    var v, inodes, data := Volume(img), img.inodes, Start(img);
    NewBlockCore(v, inodes, own, data);
    TakeIsNew(img.first, img.disk, img.nextb);
    var (v1, x) := NewBlock(v);
    assert v1.disk == img.disk[img.nextb := ZeroBlock()] && x == img.nextb;
    CoreIndexSound(v1, inodes, own, data, f);
    Ind2At(v1.disk, inodes[f]);
    forall r | IsRole(r) ensures At(v1.disk, inodes[f], r) == 0
      || (At(v1.disk, inodes[f], r) != img.nextb && At(v1.disk, inodes[f], r) < img.nextb)
    {
      assert A(v1, inodes, f, r) == At(v1.disk, inodes[f], r);
      if A(v1, inodes, f, r) != 0 {
        PointerOwned(v1, inodes, own, data, f, r);
        UsedBelow(img.first, v1.disk, img.nextb + 1, A(v1, inodes, f, r));
        assert x !in own;
      }
    }
  }

  lemma UsedBelow(first: nat, d: seq<Block>, nextb: nat, p: nat)
    requires |d| <= MAXBLOCKS && p < |d| && p !in Free(View(first, d, nextb))
    ensures p < nextb
  {
    assert Unused(|d|, nextb)[p] == (p >= nextb);
  }

  /** One block stored: the view after add_block, with the contents in the new block. */
  ghost predicate Appended(img: Image, f: nat, c: Block, v1: Vol, oi1: Inode, img': Image) {
    && f < |img.inodes| == |img.files| && |img.files[f]| < MAXFILEBLKS
    && img.nextb < img'.nextb <= |img.disk| == |img'.disk| == |v1.disk| <= MAXBLOCKS
    && img'.first == img.first && img'.inodes == img.inodes[f := oi1]
    && Volume(img') == v1.(disk := v1.disk[img.nextb := c])
    && img'.files == img.files[f := img.files[f] + [Stored(img.nextb, c)]]
    && At(v1.disk, oi1, Data(|img.files[f]|)) == img.nextb
  }

  /** storeblk on the disk with the contents in place is one add_block on the view. */
  lemma StoreWithContents(first: nat, d: seq<Block>, oi: Inode, x: nat, n: nat, c: Block)
    requires 2 <= x < |d| <= MAXBLOCKS && n < MAXFILEBLKS
    requires PointersFit(d[x := ZeroBlock()], oi) && IndexSound(d[x := ZeroBlock()], oi)
    requires oi.indirect < x && oi.indirect2 < x
    requires forall k | 0 <= k < NINDIRECT :: At(d[x := ZeroBlock()], oi, Sub(k)) != x
    ensures var (v1, oi1, ok) := AddAt(View(first, d, x), oi, n);
            var s := StoreBlk(d[x := c], oi, x + 1, x, n);
            && (ok <==> s.Some?)
            && (ok ==>
                  && s.value.oi == oi1 && x < s.value.nextb <= |d| == |s.value.disk| == |v1.disk|
                  && View(first, s.value.disk, s.value.nextb) == v1.(disk := v1.disk[x := c])
                  && At(v1.disk, oi1, Data(n)) == x)
  {
    hide At, AddAt, StoreBlk, IndexSound, ZeroBlock, PointersFit;
    var d1 := d[x := ZeroBlock()];
    StoreCommutes(d1, oi, x + 1, x, n, x, c) by { PointersNot(d1, oi, x); }
    assert d1[x := c] == d[x := c];
    StoreIsAdd(first, d, oi, x, n);
    if StoreBlk(d1, oi, x + 1, x, n).Some? { StoreDecodes(d1, oi, x + 1, x, n); }
  }

  /** The uncached step is one successful add_block on the view, then the contents. */
  lemma AppendIsAdd(img: Image, own: Owners, f: nat, c: Block)
    requires Good(img, own) && f < |img.inodes| && |img.files[f]| < MAXFILEBLKS && img.nextb < |img.disk|
    ensures var (v1, oi1, ok) := AddAt(Volume(img), img.inodes[f], |img.files[f]|);
            var r := Perform(img, Append(f, c));
            (ok <==> r.Some?) && (ok ==> Appended(img, f, c, v1, oi1, r.value))
  {
    UsedFits(img, own, f);
    hide At, AddAt, StoreBlk, Core, Shape, Decodes, IndexSound, ZeroBlock, PointersFit, Counts, View;
    StoreWithContents(img.first, img.disk, img.inodes[f], img.nextb, |img.files[f]|, c);
  }

  lemma PointersNot(d: seq<Block>, oi: Inode, x: nat)
    requires oi.indirect < x && oi.indirect2 < x && forall k | 0 <= k < NINDIRECT :: At(d, oi, Sub(k)) != x
    ensures x != oi.indirect && x != oi.indirect2
    ensures forall k | 0 <= k < NINDIRECT :: At(d, oi, Sub(k)) != x
  {
  }

  /** Storing a block works exactly when the disk has the blocks it takes and the file is
      not full, and keeps the image good. */
  lemma AppendGood(img: Image, own: Owners, f: nat, c: Block) returns (own': Owners)
    requires Good(img, own) && f < |img.inodes|
    ensures Perform(img, Append(f, c)).Some? <==>
              |img.files[f]| < MAXFILEBLKS && Need(|img.files[f]|, |img.files[f]|) <= |img.disk| - img.nextb
    ensures Perform(img, Append(f, c)).Some? ==>
              var img' := Perform(img, Append(f, c)).value;
              && Good(img', own') && IndexAhead(img, f, img')
              && |img'.disk| == |img.disk| && img'.nextb == img.nextb + Need(|img.files[f]|, |img.files[f]|)
  {
    own' := own;
    var n, x := |img.files[f]|, img.nextb;
    FreeIs(img);
    NeedPositive(n, n);
    if n < MAXFILEBLKS && x < |img.disk| {
      AppendIsAdd(img, own, f, c);
      assert Shape(Volume(img), img.inodes, f, n);
      hide Perform, AddAt, Core, Shape, Decodes, Need, Grew, Free;
      own' := AddTop(Volume(img), img.inodes, own, Start(img), f, n, n);
      var (v1, oi1, ok) := AddAt(Volume(img), img.inodes[f], n);
      if ok {
        GrewGood(img, own, f, c, v1, oi1, own', Perform(img, Append(f, c)).value);
        GrewAhead(img, own, f, c, v1, oi1, own', Perform(img, Append(f, c)).value);
        GrewFree(img, own, f, c, v1, oi1, own', Perform(img, Append(f, c)).value);
      }
    } else if n >= MAXFILEBLKS {
      hide At;
    }
  }

  lemma FreeIs(img: Image)
    requires img.nextb <= |img.disk| <= MAXBLOCKS
    ensures |Free(Volume(img))| == |img.disk| - img.nextb
  {
    var s := Free(Volume(img));
    assert forall p :: p in s <==> img.nextb <= p < |img.disk|;
    RangeExact(s, img.nextb, |img.disk|);
  }

  /** What was stored before stays where it is. */
  lemma DecodesKept(v: Vol, inodes: seq<Inode>, own: Owners, data: nat, v1: Vol, oi1: Inode, own1: Owners, f: nat,
        n: nat, g: nat, stored: seq<Stored>)
    requires f < |inodes| && g < |inodes| && n < MAXFILEBLKS && (g == f ==> |stored| == n)
    requires Core(v, inodes, own, data) && Decodes(v, inodes, g, stored)
    requires Grew(v, inodes, own, data, f, n, n, v1, oi1, own1)
    ensures Decodes(v1, inodes[f := oi1], g, stored)
  {
    hide At, Core, Shape, Free, Need, A;
    var ins := inodes[f := oi1];
    forall b | 0 <= b < |stored|
      ensures A(v1, ins, g, Data(b)) == stored[b].bno != 0 && Blk(v1.disk, stored[b].bno) == stored[b].data
    {
      assert A(v, inodes, g, Data(b)) == stored[b].bno;
      if g == f { assert InTree(Data(b), n); }
      assert A(v1, ins, g, Data(b)) == A(v, inodes, g, Data(b));
      PointerOwned(v, inodes, own, data, g, Data(b));
    }
  }

  /** The new block's contents go into the new block. */
  lemma DecodesNext(v1: Vol, v2: Vol, ins: seq<Inode>, own1: Owners, data: nat, f: nat, n: nat, x: nat, c: Block,
        g: nat, stored: seq<Stored>)
    requires f < |ins| && g < |ins| && n < MAXFILEBLKS && (g == f ==> |stored| == n)
    requires Core(v1, ins, own1, data) && Decodes(v1, ins, g, stored) && x != 0 && A(v1, ins, f, Data(n)) == x
    requires forall h, r | 0 <= h < |ins| && IsRole(r) :: A(v2, ins, h, r) == A(v1, ins, h, r)
    requires (forall p | p != x :: Blk(v2.disk, p) == Blk(v1.disk, p)) && Blk(v2.disk, x) == c
    ensures Decodes(v2, ins, g, if g == f then stored + [Stored(x, c)] else stored)
  {
    hide At, Core, Shape, Free, A, Blk;
    var s2 := if g == f then stored + [Stored(x, c)] else stored;
    forall b | 0 <= b < |s2|
      ensures A(v2, ins, g, Data(b)) == s2[b].bno != 0 && Blk(v2.disk, s2[b].bno) == s2[b].data
    {
      if b < |stored| {
        assert A(v1, ins, g, Data(b)) == stored[b].bno;
        PointerOwned(v1, ins, own1, data, g, Data(b));
        PointerOwned(v1, ins, own1, data, f, Data(n));
      }
    }
  }

  lemma FileStep(v: Vol, inodes: seq<Inode>, own: Owners, data: nat, f: nat, n: nat, v1: Vol, oi1: Inode, own1: Owners,
                 x: nat, c: Block, v2: Vol, g: nat, stored: seq<Stored>)
    requires f < |inodes| && g < |inodes| && n < MAXFILEBLKS && (g == f ==> |stored| == n)
    requires Core(v, inodes, own, data) && Grew(v, inodes, own, data, f, n, n, v1, oi1, own1)
    requires Decodes(v, inodes, g, stored) && Shape(v, inodes, g, |stored|)
    requires 0 < x < |v1.disk| && At(v1.disk, oi1, Data(n)) == x && v2 == v1.(disk := v1.disk[x := c])
    ensures var now := if g == f then stored + [Stored(x, c)] else stored;
            Decodes(v2, inodes[f := oi1], g, now) && Shape(v2, inodes[f := oi1], g, |now|)
    ensures Core(v2, inodes[f := oi1], own1, data)
  {
    var ins := inodes[f := oi1];
    assert A(v1, ins, f, Data(n)) == x;
    hide At, Core, Free, Blk, Cost, A, Grew, Decodes, Shape;
    GrewFacts(v, inodes, own, data, f, n, v1, oi1, own1);
    PointerOwned(v1, ins, own1, data, f, Data(n));
    DataWrite(v1, ins, own1, data, x, c);
    DecodesKept(v, inodes, own, data, v1, oi1, own1, f, n, g, stored);
    DecodesNext(v1, v2, ins, own1, data, f, n, x, c, g, stored);
    GrewShape(v, inodes, own, data, v1, oi1, own1, f, n, v2, ins, g, |stored|);
  }

  lemma FileAfter(img: Image, own: Owners, f: nat, c: Block, v1: Vol, oi1: Inode, own1: Owners, img': Image, g: nat)
    requires Good(img, own) && Appended(img, f, c, v1, oi1, img') && g < |img.inodes|
    requires Grew(Volume(img), img.inodes, own, Start(img), f, |img.files[f]|, |img.files[f]|, v1, oi1, own1)
    ensures Decodes(Volume(img'), img'.inodes, g, img'.files[g]) && Shape(Volume(img'), img'.inodes, g, |img'.files[g]|)
    ensures Core(Volume(img'), img'.inodes, own1, Start(img'))
  {
    hide At, Core, Free, Blk, Cost, Volume, A, Grew, Decodes, Shape, Counts;
    FileStep(Volume(img), img.inodes, own, Start(img), f, |img.files[f]|, v1, oi1, own1, img.nextb, c, Volume(img'), g,
      img.files[g]);
  }

  lemma GrewGood(img: Image, own: Owners, f: nat, c: Block, v1: Vol, oi1: Inode, own1: Owners, img': Image)
    requires Good(img, own) && Appended(img, f, c, v1, oi1, img')
    requires Grew(Volume(img), img.inodes, own, Start(img), f, |img.files[f]|, |img.files[f]|, v1, oi1, own1)
    ensures Good(img', own1)
  {
    hide At, Core, Free, Blk, Cost, Volume, A, Grew, Decodes, Shape, Counts;
    forall g | 0 <= g < |img'.inodes|
      ensures Decodes(Volume(img'), img'.inodes, g, img'.files[g])
        && Shape(Volume(img'), img'.inodes, g, |img'.files[g]|)
    {
      FileAfter(img, own, f, c, v1, oi1, own1, img', g);
    }
    FileAfter(img, own, f, c, v1, oi1, own1, img', f);
    GrewFacts(Volume(img), img.inodes, own, Start(img), f, |img.files[f]|, v1, oi1, own1);
    CountsNext(img.files, f, Stored(img.nextb, c));
  }

  /** New index blocks of a file come from the blocks not yet taken. */
  ghost predicate IndexAhead(img: Image, f: nat, img': Image) {
    && f < |img.inodes| == |img'.inodes|
    && forall r | IsRole(r) && IsIndex(r) ::
         var p := At(img'.disk, img'.inodes[f], r);
         p == At(img.disk, img.inodes[f], r) || p == 0 || p >= img.nextb
  }

  lemma GrewAhead(img: Image, own: Owners, f: nat, c: Block, v1: Vol, oi1: Inode, own1: Owners, img': Image)
    requires Good(img, own) && Appended(img, f, c, v1, oi1, img')
    requires Grew(Volume(img), img.inodes, own, Start(img), f, |img.files[f]|, |img.files[f]|, v1, oi1, own1)
    ensures IndexAhead(img, f, img')
  {
    var n, x := |img.files[f]|, img.nextb;
    var v, data, ins := Volume(img), Start(img), img'.inodes;
    assert Shape(v, img.inodes, f, n);
    GrewFacts(v, img.inodes, own, data, f, n, v1, oi1, own1);
    assert A(v1, ins, f, Data(n)) == x;
    forall r | IsRole(r) && IsIndex(r)
      ensures At(img'.disk, ins[f], r) == At(img.disk, img.inodes[f], r) || At(img'.disk, ins[f], r) == 0
        || At(img'.disk, ins[f], r) >= x
    {
      hide At, Core, Free, Cost, Need, Decodes, Good, Shape, Grew, Counts, Appended;
      PointerOwned(v1, ins, own1, data, f, Data(n));
      DataWrite(v1, ins, own1, data, x, c);
      assert At(img'.disk, ins[f], r) == A(v1.(disk := v1.disk[x := c]), ins, f, r);
      RoleAhead(v, img.inodes, own, data, f, n, v1, oi1, own1, r);
      if A(v1, ins, f, r) in Free(v) { FreeAhead(img, A(v1, ins, f, r)); }
    }
  }

  lemma GrewFree(img: Image, own: Owners, f: nat, c: Block, v1: Vol, oi1: Inode, own1: Owners, img': Image)
    requires Good(img, own) && Appended(img, f, c, v1, oi1, img')
    requires Grew(Volume(img), img.inodes, own, Start(img), f, |img.files[f]|, |img.files[f]|, v1, oi1, own1)
    ensures |img'.disk| == |img.disk| && img'.nextb == img.nextb + Need(|img.files[f]|, |img.files[f]|)
  {
    FreeIs(img);
    FreeIs(img');
    assert Free(Volume(img')) == Free(v1);
    hide At, Core, A, Need, Shape, Decodes, SameData, Within;
  }

  lemma FreeAhead(img: Image, p: nat)
    requires img.nextb <= |img.disk| <= MAXBLOCKS && p in Free(Volume(img))
    ensures p >= img.nextb
  {
  }

  lemma RoleAhead(v: Vol, inodes: seq<Inode>, own: Owners, data: nat, f: nat, n: nat, v1: Vol, oi1: Inode, own1: Owners,
        r: Role)
    requires f < |inodes| && n < MAXFILEBLKS && Core(v, inodes, own, data) && Shape(v, inodes, f, n)
    requires Grew(v, inodes, own, data, f, n, n, v1, oi1, own1) && IsRole(r)
    ensures var p := A(v1, inodes[f := oi1], f, r);
            p == A(v, inodes, f, r) || p == 0 || p in Free(v)
  {
    hide At, Free, Cost, A, SameData;
    var ins := inodes[f := oi1];
    var p := A(v1, ins, f, r);
    if p != 0 && !InTree(r, n) && p !in Free(v) {
      PointerOwned(v1, ins, own1, data, f, r);
      assert p in own;
      var t := own[p];
      assert A(v, inodes, t.file, t.role) == p;
      assert t.file == f ==> InTree(t.role, n);
      assert A(v1, ins, t.file, t.role) == p;
      PointerOwned(v1, ins, own1, data, t.file, t.role);
      assert false;
    }
  }

  lemma GrewFacts(v: Vol, inodes: seq<Inode>, own: Owners, data: nat, f: nat, n: nat, v1: Vol, oi1: Inode, own1: Owners)
    requires f < |inodes| && n < MAXFILEBLKS && Grew(v, inodes, own, data, f, n, n, v1, oi1, own1)
    ensures Core(v1, inodes[f := oi1], own1, data) && |own1| == |own| + Cost(n + 1) - Cost(n)
  {
    hide At, Core, Shape, Free, A, Cost, Within, SameData;
  }

  lemma GrewShape(v: Vol, inodes: seq<Inode>, own: Owners, data: nat, v1: Vol, oi1: Inode, own1: Owners, f: nat, n: nat,
        v2: Vol, ins: seq<Inode>, g: nat, h: nat)
    requires f < |inodes| && g < |inodes| && ins == inodes[f := oi1] && n < MAXFILEBLKS
      && Grew(v, inodes, own, data, f, n, n, v1, oi1, own1)
    requires Shape(v, inodes, g, h) && (g == f ==> h == n)
    requires forall k, r | 0 <= k < |inodes| && IsRole(r) :: A(v2, ins, k, r) == A(v1, ins, k, r)
    ensures Shape(v2, ins, g, if g == f then n + 1 else h)
  {
    hide At, Core, Free, A, Cost, Within, SameData, InTree;
  }

  lemma CountsNext(files: seq<seq<Stored>>, f: nat, s: Stored)
    requires f < |files|
    ensures SumCosts(Counts(files[f := files[f] + [s]])) ==
      SumCosts(Counts(files)) - Cost(|files[f]|) + Cost(|files[f]| + 1)
  {
    hide Cost;
    assert Counts(files[f := files[f] + [s]]) == Counts(files)[f := |files[f]| + 1];
    SumUpdate(Counts(files), f, |files[f]| + 1);
  }

  lemma ChangedFile(v: Vol, v': Vol, inodes: seq<Inode>, own: Owners, data: nat, f: nat, b: nat, q: nat, c: Block,
        g: nat, stored: seq<Stored>)
    requires Core(v, inodes, own, data) && f < |inodes| && g < |inodes| && b < MAXFILEBLKS
    requires A(v, inodes, f, Data(b)) == q != 0 && Decodes(v, inodes, g, stored) && (g == f ==> b < |stored|)
    requires forall h, r | 0 <= h < |inodes| && IsRole(r) :: A(v', inodes, h, r) == A(v, inodes, h, r)
    requires (forall p | p != q :: Blk(v'.disk, p) == Blk(v.disk, p)) && Blk(v'.disk, q) == c
    ensures Decodes(v', inodes, g, if g == f then stored[b := stored[b].(data := c)] else stored)
  {
    hide At, Core, Free, A, Blk;
    var s2 := if g == f then stored[b := stored[b].(data := c)] else stored;
    forall k | 0 <= k < |s2|
      ensures A(v', inodes, g, Data(k)) == s2[k].bno != 0 && Blk(v'.disk, s2[k].bno) == s2[k].data
    {
      assert A(v, inodes, g, Data(k)) == stored[k].bno;
      PointerOwned(v, inodes, own, data, g, Data(k));
      PointerOwned(v, inodes, own, data, f, Data(b));
    }
  }

  lemma ChangeGood(img: Image, own: Owners, f: nat, b: nat, c: Block)
    requires Good(img, own) && CanAct(img, Change(f, b, c))
    ensures Good(Perform(img, Change(f, b, c)).value, own)
  {
    hide At, Core, Free, Blk, A, Shape;
    var v, data, q := Volume(img), Start(img), img.files[f][b].bno;
    var img' := Perform(img, Change(f, b, c)).value;
    var v' := Volume(img');
    assert Decodes(v, img.inodes, f, img.files[f]);
    assert v' == v.(disk := v.disk[q := c]);
    PointerOwned(v, img.inodes, own, data, f, Data(b));
    DataWrite(v, img.inodes, own, data, q, c);
    hide Decodes;
    forall g | 0 <= g < |img.inodes|
      ensures Decodes(v', img.inodes, g, img'.files[g]) && Shape(v', img.inodes, g, |img'.files[g]|)
    {
      assert Decodes(v, img.inodes, g, img.files[g]) && Shape(v, img.inodes, g, |img.files[g]|);
      ChangedFile(v, v', img.inodes, own, data, f, b, q, c, g, img.files[g]);
      SameShape(v, v', img.inodes, img.inodes, g, |img.files[g]|);
    }
    assert Counts(img'.files) == Counts(img.files);
  }

  lemma SameShape(v: Vol, v': Vol, inodes: seq<Inode>, ins: seq<Inode>, g: nat, h: nat)
    requires g < |inodes| == |ins| && Shape(v, inodes, g, h)
    requires forall k, r | 0 <= k < |inodes| && IsRole(r) :: A(v', ins, k, r) == A(v, inodes, k, r)
    ensures Shape(v', ins, g, h)
  {
    hide A, InTree;
  }

  lemma FieldsGood(img: Image, own: Owners, f: nat, size: Word32, ftype: nat, nlink: nat)
    requires Good(img, own) && f < |img.inodes|
    ensures Good(Perform(img, Fields(f, size, ftype, nlink)).value, own)
  {
    var v, data := Volume(img), Start(img);
    var img' := Perform(img, Fields(f, size, ftype, nlink)).value;
    var ins := img'.inodes;
    forall g, r | 0 <= g < |ins| && IsRole(r) ensures A(v, ins, g, r) == A(v, img.inodes, g, r) {
      FieldsTree(v, img.inodes[g], ins[g], r);
    }
    SameTreesCore(v, img.inodes, ins, own, data);
    hide A, At, Core;
    forall g | 0 <= g < |ins|
      ensures Decodes(v, ins, g, img.files[g]) && Shape(v, ins, g, |img.files[g]|)
    {
      assert Decodes(v, img.inodes, g, img.files[g]) && Shape(v, img.inodes, g, |img.files[g]|);
      SameShape(v, v, img.inodes, ins, g, |img.files[g]|);
      SameDecodes(v, img.inodes, ins, g, img.files[g]);
    }
  }

  lemma SameDecodes(v: Vol, inodes: seq<Inode>, ins: seq<Inode>, g: nat, stored: seq<Stored>)
    requires g < |inodes| == |ins| && Decodes(v, inodes, g, stored)
    requires forall k, r | 0 <= k < |inodes| && IsRole(r) :: A(v, ins, k, r) == A(v, inodes, k, r)
    ensures Decodes(v, ins, g, stored)
  {
    hide A, Blk;
  }

  lemma SameTreesCore(v: Vol, inodes: seq<Inode>, ins: seq<Inode>, own: Owners, data: nat)
    requires Core(v, inodes, own, data) && |inodes| == |ins|
    requires forall k, r | 0 <= k < |inodes| && IsRole(r) :: A(v, ins, k, r) == A(v, inodes, k, r)
    ensures Core(v, ins, own, data)
  {
    hide A, Free;
    assert forall p | p in own :: A(v, inodes, own[p].file, own[p].role) == p;
  }

  // -------------------------------------------------------------------------
  // Runs
  // -------------------------------------------------------------------------

  function Run(img: Image, acts: seq<Act>): Option<Image>
    decreases |acts|
  {
    if acts == [] then Some(img)
    else if !CanAct(img, acts[0]) then None
    else
      var r := Perform(img, acts[0]);
      if r.None? then None else Run(r.value, acts[1..])
  }

  /** opendisk: superblock, free map and inode blocks come first, and all inodes are clear. */
  function Opened(nblocks: nat, ninodes: nat): Image {
    var first := 2 + (nblocks + 8191) / 8192;
    Image(first, seq(nblocks, _ => ZeroBlock()), first + (ninodes + 15) / 16,
          seq(ninodes, _ => Inode(0, FTYPE_REG, 0, seq(10, _ => 0), 0, 0)), seq(ninodes, _ => []))
  }

  lemma OpenedGood(nblocks: nat, ninodes: nat)
    requires nblocks <= MAXBLOCKS && Opened(nblocks, ninodes).nextb <= nblocks
    ensures Good(Opened(nblocks, ninodes), map[])
  {
    var img := Opened(nblocks, ninodes);
    var v := Volume(img);
    forall g, r | 0 <= g < ninodes && IsRole(r) ensures A(v, img.inodes, g, r) == 0 {
      NullTree(v, img.inodes, g, r);
    }
    hide A;
    assert forall p | p in Free(v) :: v.free[p];
    NoCosts(ninodes);
    assert Counts(img.files) == seq(ninodes, _ => 0);
  }

  lemma {:induction false} NoCosts(n: nat)
    ensures SumCosts(seq(n, _ => 0)) == 0
  {
    if n > 0 {
      assert seq(n, _ => 0)[..n - 1] == seq(n - 1, _ => 0);
      NoCosts(n - 1);
    }
  }

  lemma {:induction false} RunGood(img: Image, own: Owners, acts: seq<Act>) returns (own': Owners)
    requires Good(img, own) && Run(img, acts).Some?
    ensures Good(Run(img, acts).value, own')
    decreases |acts|
  {
    own' := own;
    if acts != [] {
      var own1 := StepGood(img, own, acts[0]);
      hide Good, Perform, CanAct;
      own' := RunGood(Perform(img, acts[0]).value, own1, acts[1..]);
    }
  }

  lemma StepGood(img: Image, own: Owners, a: Act) returns (own': Owners)
    requires Good(img, own) && CanAct(img, a) && Perform(img, a).Some?
    ensures Good(Perform(img, a).value, own')
  {
    hide Good, Perform;
    own' := own;
    match a
    case Append(f, c) => own' := AppendGood(img, own, f, c);
    case Change(f, b, c) => ChangeGood(img, own, f, b, c);
    case Fields(f, size, ftype, nlink) => FieldsGood(img, own, f, size, ftype, nlink);
  }

  /** Every inode's size is that of its stored blocks. */
  predicate SizesSet(img: Image) {
    |img.files| == |img.inodes|
    && forall f | 0 <= f < |img.inodes| ::
         Nb(img.inodes[f]) == |img.files[f]| < MAXFILEBLKS && img.inodes[f].size <= BLKSIZE * |img.files[f]|
  }

  /** What the kernel finds: the free map that finishfs writes, the blocks, the inodes. */
  function HandedOver(img: Image): Fs
    requires |img.disk| <= MAXBLOCKS
  {
    Fs(Volume(img), img.inodes)
  }

  lemma GoodInv(img: Image, own: Owners)
    requires Good(img, own) && SizesSet(img)
    ensures InvW(HandedOver(img), own)
  {
    hide At, Core, Cost, A;
    var fs := HandedOver(img);
    forall f | 0 <= f < |img.inodes|
      ensures SizeFits(img.inodes[f]) && High(fs, f) == |img.files[f]| && Shape(fs.vol, fs.inodes, f, High(fs, f))
    {
      assert Shape(fs.vol, fs.inodes, f, |img.files[f]|);
      ShapeHigh(fs, f, |img.files[f]|);
    }
    assert Highs(fs) == Counts(img.files);
  }

  /** Whatever the formatter wrote, the kernel allocator's invariant holds of the image:
      no block reachable from any inode is free or shared. */
  lemma ImageIsSound(nblocks: nat, ninodes: nat, acts: seq<Act>)
    requires nblocks <= MAXBLOCKS && Opened(nblocks, ninodes).nextb <= nblocks
    requires Run(Opened(nblocks, ninodes), acts).Some? && SizesSet(Run(Opened(nblocks, ninodes), acts).value)
    ensures |Run(Opened(nblocks, ninodes), acts).value.disk| <= MAXBLOCKS
    ensures Inv(HandedOver(Run(Opened(nblocks, ninodes), acts).value))
  {
    OpenedGood(nblocks, ninodes);
    var own := RunGood(Opened(nblocks, ninodes), map[], acts);
    GoodInv(Run(Opened(nblocks, ninodes), acts).value, own);
    hide InvW;
  }

  /** The kernel's ospfs_inode_blockno finds the i'th block stored for every offset in
      block i, at all three tree levels, and the bytes read are those stored. */
  lemma KernelReadsBack(nblocks: nat, ninodes: nat, acts: seq<Act>, f: nat, off: Word32)
    requires nblocks <= MAXBLOCKS && Opened(nblocks, ninodes).nextb <= nblocks
    requires Run(Opened(nblocks, ninodes), acts).Some? && SizesSet(Run(Opened(nblocks, ninodes), acts).value)
    requires var img := Run(Opened(nblocks, ninodes), acts).value;
             f < |img.inodes| && off < img.inodes[f].size && img.inodes[f].ftype != FTYPE_SYMLINK
    ensures var img := Run(Opened(nblocks, ninodes), acts).value;
            && off / BLKSIZE < |img.files[f]| < MAXFILEBLKS
            && InodeBlockno(img.disk, img.inodes[f], off) == img.files[f][off / BLKSIZE].bno
            && |img.disk| <= MAXBLOCKS
            && FileByte(HandedOver(img).vol, img.inodes[f], off) == img.files[f][off / BLKSIZE].data[off % BLKSIZE]
  {
    OpenedGood(nblocks, ninodes);
    var own := RunGood(Opened(nblocks, ninodes), map[], acts);
    hide Opened, Run;
    var img := Run(Opened(nblocks, ninodes), acts).value;
    InBlock(off, |img.files[f]|);
    assert Decodes(Volume(img), img.inodes, f, img.files[f]);
    hide At, Good, Core;
  }

  /** All blocks stored are distinct, data blocks, and used in the free map. */
  lemma StoredDistinct(img: Image, own: Owners, f: nat, b: nat, g: nat, k: nat)
    requires Good(img, own) && f < |img.inodes| && g < |img.inodes| && b < |img.files[f]| && k < |img.files[g]|
    ensures img.files[f][b].bno == img.files[g][k].bno <==> f == g && b == k
    ensures Start(img) <= img.files[f][b].bno < img.nextb
  {
    var v := Volume(img);
    assert Decodes(v, img.inodes, f, img.files[f]) && Decodes(v, img.inodes, g, img.files[g]);
    hide At, Core, A;
    PointerOwned(v, img.inodes, own, Start(img), f, Data(b));
    PointerOwned(v, img.inodes, own, Start(img), g, Data(k));
    UsedBelow(img.first, img.disk, img.nextb, img.files[f][b].bno);
  }

  /** getblk of the block not yet taken changes nothing that counts. */
  lemma UnusedWrite(img: Image, own: Owners, c: Block)
    requires Good(img, own) && img.nextb < |img.disk|
    ensures Good(img.(disk := img.disk[img.nextb := c]), own)
  {
    var v, data, x := Volume(img), Start(img), img.nextb;
    var img' := img.(disk := img.disk[x := c]);
    var v' := Volume(img');
    assert v' == v.(disk := v.disk[x := c]);
    assert v.free[x] && x in Free(v);
    hide At;
    CoreLayout(v, img.inodes, own, data);
    forall g, r | 0 <= g < |img.inodes| && IsRole(r) ensures A(v', img.inodes, g, r) == A(v, img.inodes, g, r) {
      OtherBlock(v, v'.disk, img.inodes, own, data, g, x, r);
    }
    hide A;
    SameTreesDisk(v, v', img.inodes, own, data);
    forall g | 0 <= g < |img.inodes|
      ensures Decodes(v', img.inodes, g, img.files[g]) && Shape(v', img.inodes, g, |img.files[g]|)
    {
      assert Decodes(v, img.inodes, g, img.files[g]) && Shape(v, img.inodes, g, |img.files[g]|);
      SameShape(v, v', img.inodes, img.inodes, g, |img.files[g]|);
      hide Core;
      forall b | 0 <= b < |img.files[g]|
        ensures A(v', img.inodes, g, Data(b)) == img.files[g][b].bno != 0
          && Blk(v'.disk, img.files[g][b].bno) == img.files[g][b].data
      {
        assert A(v, img.inodes, g, Data(b)) == img.files[g][b].bno;
        PointerOwned(v, img.inodes, own, data, g, Data(b));
      }
    }
  }

  lemma SameTreesDisk(v: Vol, v': Vol, inodes: seq<Inode>, own: Owners, data: nat)
    requires Core(v, inodes, own, data) && v' == v.(disk := v'.disk) && |v'.disk| == |v.disk| && v'.disk[0] == v.disk[0]
    requires forall k, r | 0 <= k < |inodes| && IsRole(r) :: A(v', inodes, k, r) == A(v, inodes, k, r)
    ensures Core(v', inodes, own, data)
  {
    hide A;
    assert Free(v') == Free(v);
    assert forall p | p in own :: A(v, inodes, own[p].file, own[p].role) == p;
  }

  /** The stored blocks hold a file's bytes, the last block only in part. */
  ghost predicate HoldsBytes(stored: seq<Stored>, data: seq<Byte>) {
    && |stored| == (|data| + 1023) / 1024
    && forall i | 0 <= i < |data| :: stored[i / 1024].data[i % 1024] == data[i]
  }

  /** What the kernel reads from a file whose blocks hold these bytes. */
  lemma ReadsBytes(img: Image, own: Owners, f: nat, data: seq<Byte>)
    requires Good(img, own) && f < |img.inodes| && HoldsBytes(img.files[f], data) && |img.files[f]| < MAXFILEBLKS
    requires img.inodes[f].size == |data| && SizesSet(img)
    ensures Inv(HandedOver(img)) && Contents(HandedOver(img), f) == data
  {
    GoodInv(img, own);
    hide InvW;
    var fs := HandedOver(img);
    assert Decodes(Volume(img), img.inodes, f, img.files[f]);
    hide At, Core;
    forall i | 0 <= i < |data| ensures FileByte(fs.vol, fs.inodes[f], i) == data[i] {
      InBlock(i, |img.files[f]|);
      assert A(Volume(img), img.inodes, f, Data(i / 1024)) == img.files[f][i / 1024].bno;
    }
  }
}
