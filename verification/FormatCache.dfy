/** The formatter's write-back block cache (lab3/ospfsformat.c): sixteen slots, the least
    recently used idle one evicted.  swizzle is the identity on a little-endian host. */
module FormatCache {
  import opened Options
  import opened OspfsDisk

  const NSLOTS: nat := 16

  /** struct Block; bno 0 and used 0 in a slot that holds nothing. */
  datatype Slot = Slot(bno: nat, typ: nat, busy: nat, used: nat, data: Block)

  ghost predicate InCache(ss: seq<Slot>, b: nat) { b != 0 && exists i :: 0 <= i < |ss| && ss[i].bno == b }

  /** vol is what the disk would hold without a cache: no block is in two slots, a slot
      holds its block's contents, and all other blocks are on the disk as they are. */
  ghost predicate Sound(ss: seq<Slot>, disk: seq<Block>, vol: seq<Block>, t: nat) {
    && |ss| == NSLOTS && |disk| == |vol|
    && (forall i | 0 <= i < |ss| ::
          && (ss[i].bno == 0 ==> ss[i].used == 0 && ss[i].busy == 0)
          && (ss[i].bno != 0 ==> 0 < ss[i].used && ss[i].bno < |vol| && vol[ss[i].bno] == ss[i].data)
          && ss[i].used <= t)
    && (forall i, j | 0 <= i < j < |ss| :: ss[i].bno != 0 ==> ss[i].bno != ss[j].bno)
    && (forall b | 0 <= b < |vol| && !InCache(ss, b) :: vol[b] == disk[b])
  }

  lemma StillIn(ss: seq<Slot>, r: nat, s: Slot, b: nat)
    requires r < |ss| && InCache(ss, b) && (b == ss[r].bno ==> s.bno == b)
    ensures InCache(ss[r := s], b)
  {
    var i :| 0 <= i < |ss| && ss[i].bno == b;
    assert ss[r := s][i].bno == b;
  }

  /** A slot of the same block gets new contents or counters. */
  lemma Rewrite(ss: seq<Slot>, disk: seq<Block>, vol: seq<Block>, t: nat, r: nat, s: Slot)
    requires Sound(ss, disk, vol, t) && r < NSLOTS && ss[r].bno != 0
    requires s.bno == ss[r].bno && 0 < s.used
    ensures Sound(ss[r := s], disk, vol[s.bno := s.data], if s.used > t then s.used else t)
  {
    var ss' := ss[r := s];
    forall b | 0 <= b < |vol| && !InCache(ss', b)
      ensures vol[s.bno := s.data][b] == disk[b]
    {
      if InCache(ss, b) { StillIn(ss, r, s, b); }
    }
  }

  /** Writing a slot back. */
  lemma Flushed(ss: seq<Slot>, disk: seq<Block>, vol: seq<Block>, t: nat, r: nat)
    requires Sound(ss, disk, vol, t) && r < NSLOTS && ss[r].bno != 0
    ensures Sound(ss, disk[ss[r].bno := ss[r].data], vol, t)
  {
  }

  /** An idle slot whose contents are on the disk is given to a block that is in no slot. */
  lemma Reuse(ss: seq<Slot>, disk: seq<Block>, vol: seq<Block>, t: nat, r: nat, s: Slot)
    requires Sound(ss, disk, vol, t) && r < NSLOTS && (ss[r].bno != 0 ==> disk[ss[r].bno] == ss[r].data)
    requires s.bno != 0 && s.bno < |vol| && !InCache(ss, s.bno) && 0 < s.used
    ensures Sound(ss[r := s], disk, vol[s.bno := s.data], if s.used > t then s.used else t)
  {
    var ss' := ss[r := s];
    var vol' := vol[s.bno := s.data];
    forall b | 0 <= b < |vol| && !InCache(ss', b)
      ensures vol'[b] == disk[b]
    {
      assert ss'[r].bno == s.bno;
      if InCache(ss, b) && b != ss[r].bno { StillIn(ss, r, s, b); }
    }
    forall i | 0 <= i < |ss| && i != r && ss[i].bno != 0
      ensures ss[i].bno != s.bno && vol'[ss[i].bno] == ss[i].data
    {
      assert InCache(ss, ss[i].bno);
    }
  }

  /** The search of getblk: the slot of the block, or the least recently used idle slot. */
  ghost predicate Chosen(ss: seq<Slot>, bno: nat, r: nat) {
    && r < |ss|
    && (ss[r].bno == bno
        || ((forall i | 0 <= i < |ss| :: ss[i].bno != bno)
            && ss[r].busy == 0 && forall i | 0 <= i < |ss| && ss[i].busy == 0 :: ss[r].used <= ss[i].used))
  }

  class Cache {
    const slots: array<Slot>
    var disk: seq<Block>
    var t: nat
    ghost var vol: seq<Block>

    ghost predicate Valid()
      reads this, slots
    {
      slots.Length == NSLOTS && Sound(slots[..], disk, vol, t)
    }

    /** A new disk of zeroes. */
    constructor (nblocks: nat)
      ensures Valid() && fresh(slots) && vol == seq(nblocks, _ => ZeroBlock())
      ensures forall i | 0 <= i < NSLOTS :: slots[i].busy == 0
    {
      slots := new Slot[NSLOTS](_ => Slot(0, 0, 0, 0, ZeroBlock()));
      disk := seq(nblocks, _ => ZeroBlock());
      vol := seq(nblocks, _ => ZeroBlock());
      t := 1;
    }

    method Flush(i: nat)
      requires Valid() && i < NSLOTS && slots[i].bno != 0
      modifies this`disk
      ensures Valid() && slots[i].bno < |disk| == |old(disk)| && disk == old(disk)[slots[i].bno := slots[i].data]
    {
      Flushed(slots[..], disk, vol, t, i);
      hide Sound;
      disk := disk[slots[i].bno := slots[i].data];
    }

    /** The search loop; -1 when every slot is busy. */
    method Search(bno: nat) returns (r: int)
      requires slots.Length == NSLOTS
      ensures r == -1 || (0 <= r < NSLOTS && Chosen(slots[..], bno, r))
      ensures r == -1 <==> forall i | 0 <= i < NSLOTS :: slots[i].bno != bno && slots[i].busy > 0
    {
      r := -1;
      for i := 0 to NSLOTS
        invariant -1 <= r < i
        invariant forall j | 0 <= j < i :: slots[j].bno != bno
        invariant r == -1 ==> forall j | 0 <= j < i :: slots[j].busy > 0
        invariant r >= 0 ==> slots[r].busy == 0 && forall j | 0 <= j < i && slots[j].busy == 0 ::
          slots[r].used <= slots[j].used
      {
        if slots[i].bno == bno { return i; }
        if slots[i].busy == 0 && (r == -1 || slots[i].used < slots[r].used) { r := i; }
      }
    }

    /** getblk on a block other than 0; -1 where the program aborts. */
    method GetBlk(bno: nat, clr: bool, typ: nat) returns (r: int)
      requires Valid() && 0 < bno
      modifies this, slots
      ensures r == -1 || 0 <= r < NSLOTS
      ensures r == -1 ==> old(bno >= |vol| || (forall i | 0 <= i < NSLOTS :: slots[i].bno != bno && slots[i].busy > 0)
                              || exists i ::
                                   0 <= i < NSLOTS && slots[i].bno == bno && slots[i].busy > 0
                                   && slots[i].typ != typ)
      ensures r >= 0 ==> Valid() && bno < |old(vol)| && vol == if clr then old(vol)[bno := ZeroBlock()] else old(vol)
      ensures r >= 0 ==> Chosen(old(slots[..]), bno, r)
      ensures r >= 0 ==> slots[r].bno == bno && slots[r].typ == typ
      ensures r >= 0 ==> slots[r].busy == old(slots[r].busy) + 1
      ensures r >= 0 ==> forall i | 0 <= i < NSLOTS && i != r :: slots[i] == old(slots[i])
      ensures r >= 0 ==> forall i | 0 <= i < NSLOTS && old(slots[i].busy) > 0 ::
                slots[i].bno == old(slots[i].bno) && slots[i].typ == old(slots[i].typ)
    {
      hide Sound, Chosen, ZeroBlock;
      SoundSizes(slots[..], disk, vol, t);
      if bno >= |disk| { return -1; }
      r := Search(bno);
      if r == -1 { return; }
      ghost var ss, hit := slots[..], slots[r].bno == bno;
      ChosenFacts(ss, disk, vol, t, bno, r);
      var b := slots[r];
      if b.bno != bno {
        if b.used > 0 { Flush(r); }
        b := b.(bno := bno, busy := 0, typ := typ, data := disk[bno]);
      }
      if clr { b := b.(data := ZeroBlock()); }
      t := t + 1;
      b := b.(used := t, busy := b.busy + 1);
      if b.typ != typ && b.busy != 1 { return -1; }
      b := b.(typ := typ);
      if hit { Rewrite(ss, disk, vol, t - 1, r, b); } else { Reuse(ss, disk, vol, t - 1, r, b); }
      slots[r] := b;
      assert slots[..] == ss[r := b];
      vol := vol[bno := b.data];
      if !clr { assert vol == old(vol); }
    }

    lemma HeldData(r: nat)
      requires Valid() && r < NSLOTS && slots[r].busy > 0
      ensures slots[r].bno < |vol| && slots[r].data == vol[slots[r].bno] && slots[r].bno != 0
    {
    }

    lemma BusyNotZero()
      requires Valid()
      ensures forall i | 0 <= i < NSLOTS && slots[i].busy > 0 :: slots[i].bno != 0
    {
    }

    /** Writing through a pointer that getblk gave out. */
    method Write(r: nat, data: Block)
      requires Valid() && r < NSLOTS && slots[r].busy > 0
      modifies this`vol, slots
      ensures Valid() && vol == old(vol)[slots[r].bno := data]
      ensures slots[r] == old(slots[r]).(data := data) && slots[r].bno < |vol|
      ensures forall i | 0 <= i < NSLOTS && i != r :: slots[i] == old(slots[i])
    {
      BusyFacts(slots[..], disk, vol, t, r);
      Rewrite(slots[..], disk, vol, t, r, slots[r].(data := data));
      ghost var ss := slots[..];
      hide Sound;
      vol := vol[slots[r].bno := data];
      slots[r] := slots[r].(data := data);
      assert slots[..] == ss[r := slots[r]];
    }

    method PutBlk(r: nat)
      requires Valid() && r < NSLOTS && slots[r].busy > 0
      modifies slots
      ensures Valid() && slots[r] == old(slots[r]).(busy := old(slots[r].busy) - 1)
      ensures forall i | 0 <= i < NSLOTS && i != r :: slots[i] == old(slots[i])
    {
      BusyFacts(slots[..], disk, vol, t, r);
      Rewrite(slots[..], disk, vol, t, r, slots[r].(busy := slots[r].busy - 1));
      ghost var ss := slots[..];
      hide Sound;
      slots[r] := slots[r].(busy := slots[r].busy - 1);
      assert slots[..] == ss[r := slots[r]];
    }

    /** flushdisk: the disk is what it would be without a cache. */
    method FlushDisk()
      requires Valid()
      modifies this`disk
      ensures Valid() && disk == vol
    {
      for i := 0 to NSLOTS
        invariant Valid() && forall j | 0 <= j < i && slots[j].bno != 0 :: disk[slots[j].bno] == slots[j].data
      {
        if slots[i].used > 0 { Flush(i); }
      }
    }
  }

  lemma SoundSizes(ss: seq<Slot>, disk: seq<Block>, vol: seq<Block>, t: nat)
    requires Sound(ss, disk, vol, t)
    ensures |ss| == NSLOTS && |disk| == |vol|
  {
  }

  lemma BusyFacts(ss: seq<Slot>, disk: seq<Block>, vol: seq<Block>, t: nat, r: nat)
    requires Sound(ss, disk, vol, t) && r < NSLOTS && ss[r].busy > 0
    ensures ss[r].bno != 0 && 0 < ss[r].used <= t && ss[r].bno < |vol| && vol[ss[r].bno] == ss[r].data
  {
  }

  lemma ChosenFacts(ss: seq<Slot>, disk: seq<Block>, vol: seq<Block>, t: nat, bno: nat, r: nat)
    requires Sound(ss, disk, vol, t) && 0 < bno < |vol| && r < NSLOTS && Chosen(ss, bno, r)
    ensures ss[r].used <= t && (ss[r].used > 0 <==> ss[r].bno != 0)
    ensures ss[r].bno == bno ==> vol[bno] == ss[r].data
    ensures ss[r].bno != bno ==> !InCache(ss, bno) && vol[bno] == disk[bno] && ss[r].busy == 0
  {
  }

  // -------------------------------------------------------------------------
  // Whole runs
  // -------------------------------------------------------------------------

  /** getblk; writing through the k'th pointer held; putblk of the k'th pointer held. */
  datatype Op = Get(bno: nat, clr: bool, typ: nat) | Set(k: nat, data: Block) | Put(k: nat)

  /** An uncached disk, with the block numbers of the pointers held. */
  datatype Plain = Plain(vol: seq<Block>, held: seq<nat>)

  predicate Legal(p: Plain, op: Op) {
    match op
    case Get(b, _, _) => 0 < b < |p.vol|
    case Set(k, _) => k < |p.held| && p.held[k] < |p.vol|
    case Put(k) => k < |p.held|
  }

  function Without<T>(s: seq<T>, k: nat): seq<T>
    requires k < |s|
  {
    s[..k] + s[k + 1..]
  }

  /** What the operation does without a cache. */
  function Do(p: Plain, op: Op): Plain
    requires Legal(p, op)
  {
    match op
    case Get(b, clr, _) => Plain(if clr then p.vol[b := ZeroBlock()] else p.vol, p.held + [b])
    case Set(k, data) => p.(vol := p.vol[p.held[k] := data])
    case Put(k) => p.(held := Without(p.held, k))
  }

  /** The pointers held are bound to their blocks, and a slot's count is the number of
      pointers to it. */
  ghost predicate Bound(ss: seq<Slot>, h: seq<nat>, held: seq<nat>) {
    && |ss| == NSLOTS && |h| == |held|
    && (forall k | 0 <= k < |h| :: h[k] < NSLOTS && ss[h[k]].bno == held[k])
    && (forall r | 0 <= r < NSLOTS :: ss[r].busy == multiset(h)[r])
  }

  lemma BoundGet(ss: seq<Slot>, ss': seq<Slot>, h: seq<nat>, held: seq<nat>, r: nat, b: nat)
    requires Bound(ss, h, held) && r < NSLOTS == |ss'| && Chosen(ss, b, r)
    requires forall i | 0 <= i < NSLOTS && i != r :: ss'[i] == ss[i]
    requires ss'[r].bno == b && ss'[r].busy == ss[r].busy + 1
    ensures Bound(ss', h + [r], held + [b])
  {
    var h' := h + [r];
    assert multiset(h') == multiset(h) + multiset{r};
    forall k | 0 <= k < |h| ensures h'[k] < NSLOTS && ss'[h'[k]].bno == held[k]
    {
      assert h[k] in multiset(h);
    }
  }

  lemma BoundPut(ss: seq<Slot>, ss': seq<Slot>, h: seq<nat>, held: seq<nat>, k: nat)
    requires Bound(ss, h, held) && k < |h| && |ss'| == NSLOTS
    requires forall i | 0 <= i < NSLOTS && i != h[k] :: ss'[i] == ss[i]
    requires ss[h[k]].busy > 0 && ss'[h[k]] == ss[h[k]].(busy := ss[h[k]].busy - 1)
    ensures Bound(ss', Without(h, k), Without(held, k))
  {
    WithoutOne(h, k);
    var h' := Without(h, k);
    forall j | 0 <= j < |h'| ensures h'[j] < NSLOTS && ss'[h'[j]].bno == Without(held, k)[j]
    {
      var i := if j < k then j else j + 1;
      assert h'[j] == h[i] && Without(held, k)[j] == held[i];
    }
  }

  lemma BoundBusy(ss: seq<Slot>, h: seq<nat>, held: seq<nat>, k: nat)
    requires Bound(ss, h, held) && k < |h|
    ensures h[k] < NSLOTS && ss[h[k]].busy > 0 && ss[h[k]].bno == held[k]
  {
    assert h[k] in multiset(h);
  }

  lemma BoundFree(ss: seq<Slot>, h: seq<nat>, held: seq<nat>, b: nat)
    requires Bound(ss, h, held) && b !in held
    ensures forall i | 0 <= i < NSLOTS && ss[i].bno == b :: ss[i].busy == 0
  {
    forall i | 0 <= i < NSLOTS && ss[i].bno == b ensures ss[i].busy == 0
    {
      forall k | 0 <= k < |h| ensures h[k] != i { assert held[k] in held; }
      assert i !in multiset(h);
    }
  }

  lemma WithoutOne(h: seq<nat>, k: nat)
    requires k < |h|
    ensures multiset(Without(h, k)) == multiset(h) - multiset{h[k]}
  {
    assert h == h[..k] + [h[k]] + h[k + 1..];
  }

  /** The uncached run; None if an operation is illegal where it stands. */
  function Simulate(p: Plain, ops: seq<Op>): Option<Plain>
    decreases |ops|
  {
    if ops == [] then Some(p)
    else if Legal(p, ops[0]) then Simulate(Do(p, ops[0]), ops[1..])
    else None
  }

  /** Fewer than sixteen pointers held at every getblk, none of them to the same block. */
  predicate Gentle(p: Plain, ops: seq<Op>)
    decreases |ops|
  {
    ops == []
    || (Legal(p, ops[0]) && (ops[0].Get? ==> |p.held| < NSLOTS && ops[0].bno !in p.held)
         && Gentle(Do(p, ops[0]), ops[1..]))
  }

  lemma {:induction false} Pigeons(h: seq<nat>, n: nat)
    requires forall r: nat | r < n :: r in h
    ensures |h| >= n
  {
    if n > 0 {
      var last: nat := n - 1;
      assert last in h;
      var k :| 0 <= k < |h| && h[k] == last;
      var h' := Without(h, k);
      forall r: nat | r < n - 1 ensures r in h'
      {
        assert r in h;
        var i :| 0 <= i < |h| && h[i] == r;
        assert h'[if i < k then i else i - 1] == r;
      }
      Pigeons(h', n - 1);
    }
  }

  /** With fewer than sixteen pointers some slot is idle. */
  lemma SomeIdle(ss: seq<Slot>, h: seq<nat>, held: seq<nat>)
    requires Bound(ss, h, held) && |h| < NSLOTS
    ensures exists r :: 0 <= r < NSLOTS && ss[r].busy == 0
  {
    if forall r | 0 <= r < NSLOTS :: ss[r].busy > 0 {
      forall r: nat | r < NSLOTS ensures r in h { assert ss[r].busy > 0; }
      Pigeons(h, NSLOTS);
      assert false;
    }
  }

  /** One operation through the cache. */
  method Step(c: Cache, h: seq<nat>, op: Op, ghost p: Plain) returns (done: bool, h': seq<nat>)
    requires c.Valid() && c.vol == p.vol && Bound(c.slots[..], h, p.held) && Legal(p, op)
    modifies c, c.slots
    ensures !op.Get? || (|p.held| < NSLOTS && op.bno !in p.held) ==> done
    ensures done ==> c.Valid() && c.vol == Do(p, op).vol && Bound(c.slots[..], h', Do(p, op).held)
  {
    hide Sound, Bound, Chosen, ZeroBlock;
    done, h' := true, h;
    ghost var ss := c.slots[..];
    assert |h| == |p.held| by { BoundSizes(ss, h, p.held); }
    match op
    case Get(b, clr, typ) =>
      if |p.held| < NSLOTS && b !in p.held {
        SomeIdle(ss, h, p.held);
        BoundFree(ss, h, p.held, b);
      }
      var r := c.GetBlk(b, clr, typ);
      if r == -1 { return false, h; }
      BoundGet(ss, c.slots[..], h, p.held, r, b);
      h' := h + [r];
    case Set(k, data) =>
      BoundBusy(ss, h, p.held, k);
      c.Write(h[k], data);
      BoundWrite(ss, c.slots[..], h, p.held);
    case Put(k) =>
      BoundBusy(ss, h, p.held, k);
      c.PutBlk(h[k]);
      BoundPut(ss, c.slots[..], h, p.held, k);
      h' := Without(h, k);
  }

  lemma BoundSizes(ss: seq<Slot>, h: seq<nat>, held: seq<nat>)
    requires Bound(ss, h, held)
    ensures |h| == |held|
  {
  }

  lemma BoundWrite(ss: seq<Slot>, ss': seq<Slot>, h: seq<nat>, held: seq<nat>)
    requires Bound(ss, h, held) && |ss'| == NSLOTS
    requires forall i | 0 <= i < NSLOTS :: ss'[i].bno == ss[i].bno && ss'[i].busy == ss[i].busy
    ensures Bound(ss', h, held)
  {
  }

  /** Any operations through the cache, then flushdisk, leave the disk as the same
      operations on an uncached disk do, unless the program aborts on the way; gentle
      ones never do. */
  method Run(nblocks: nat, ops: seq<Op>) returns (done: bool, disk: seq<Block>)
    requires Simulate(Plain(seq(nblocks, _ => ZeroBlock()), []), ops).Some?
    ensures done ==> disk == Simulate(Plain(seq(nblocks, _ => ZeroBlock()), []), ops).value.vol
    ensures Gentle(Plain(seq(nblocks, _ => ZeroBlock()), []), ops) ==> done
  {
    var c := new Cache(nblocks);
    ghost var p0 := Plain(seq(nblocks, _ => ZeroBlock()), []);
    ghost var p := p0;
    var h: seq<nat> := [];
    var rest := ops;
    while rest != []
      invariant c.Valid() && c.vol == p.vol && Bound(c.slots[..], h, p.held) && fresh(c) && fresh(c.slots)
      invariant Simulate(p, rest) == Simulate(p0, ops) && (Gentle(p0, ops) ==> Gentle(p, rest))
    {
      done, h := Step(c, h, rest[0], p);
      if !done { return false, []; }
      p := Do(p, rest[0]);
      rest := rest[1..];
    }
    c.FlushDisk();
    return true, c.disk;
  }
}
