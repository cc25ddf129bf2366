/** The ticketed reader/writer lock of lab2/osprd.c as a state machine over the steps
    of concurrent ioctl calls.  The wait condition is tested in one step (Pass) and the
    lock granted in a later one (Grant); all other steps of other tasks may come
    between. */
module OsprdLock {

  /** An open file: opened for writing or not, and its F_OSPRD_LOCKED flag. */
  datatype File = File(writable: bool, locked: bool)

  /** Where a task is inside OSPRDIOCACQUIRE, with its ticket and its open file. */
  datatype Pc =
    | Idle
    | Checking(ticket: nat, file: nat) // has a ticket, reader list not yet looked at
    | Waiting(ticket: nat, file: nat)  // in wait_event_interruptible
    | Passed(ticket: nat, file: nat)   // wait condition found true, lock not yet granted

  const NOBODY: int := -1

  /** Device fields, open files and tasks, and three histories: the tickets granted in
      order, the tickets given out to calls refused with -EDEADLK, and the read grants
      made to a file that was flagged locked already. */
  datatype Dev = Dev(head: nat, tail: nat, invalid: seq<nat>,
                     numWrite: int, numRead: int, writerPid: int, readerPids: seq<int>,
                     files: map<nat, File>, tasks: map<int, Pc>,
                     granted: seq<nat>, refused: set<nat>, regrants: nat)

  datatype Action =
    | Open(file: nat, writable: bool)
    | Acquire(pid: nat, file: nat)
    | Check(pid: nat)
    | Pass(pid: nat)
    | Interrupt(pid: nat)
    | Grant(pid: nat)
    | TryAcquire(pid: nat, file: nat)
    | Release(file: nat)
    | Close(file: nat)

  function PcOf(s: Dev, pid: int): Pc { if pid in s.tasks then s.tasks[pid] else Idle }

  predicate Pending(s: Dev, pid: int) { PcOf(s, pid) != Idle }

  function Later(invalid: seq<nat>, tail: nat): set<nat> { set t | t in invalid && t >= tail }

  /** The loop that moves ticket_tail past abandoned tickets. */
  function SkipInvalid(tail: nat, invalid: seq<nat>): (t: nat)
    ensures tail <= t && t !in invalid
    ensures forall u | tail <= u < t :: u in invalid
    decreases |Later(invalid, tail)|
  {
    if tail in invalid then
      assert Later(invalid, tail + 1) <= Later(invalid, tail) - {tail};
      assert |Later(invalid, tail) - {tail}| == |Later(invalid, tail)| - 1;
      LaterSmaller(Later(invalid, tail + 1), Later(invalid, tail) - {tail});
      SkipInvalid(tail + 1, invalid)
    else tail
  }

  lemma {:induction false} LaterSmaller(a: set<nat>, b: set<nat>)
    requires a <= b
    ensures |a| <= |b|
  {
    assert |b - a| == |b| - |a| by { assert b == a + (b - a); }
  }

  /** The wait condition of a task in wait_event_interruptible. */
  predicate MayPass(s: Dev, ticket: nat, writable: bool) {
    s.tail == ticket && s.numWrite == 0 && (writable ==> s.numRead == 0)
  }

  function SetPc(s: Dev, pid: nat, pc: Pc): Dev { s.(tasks := s.tasks[pid := pc]) }

  /** Flag the file and bump the counters, for a blocking or a non-blocking acquire. */
  function Lock(s: Dev, pid: nat, f: nat): Dev
    requires f in s.files
  {
    var file := s.files[f];
    var s1 := s.(files := s.files[f := file.(locked := true)]);
    if file.writable then s1.(numWrite := s1.numWrite + 1, writerPid := pid)
    else s1.(numRead := s1.numRead + 1, readerPids := s1.readerPids + [pid],
             regrants := if file.locked then s1.regrants + 1 else s1.regrants)
  }

  function Unlock(s: Dev, f: nat): Dev
    requires f in s.files
  {
    var file := s.files[f];
    var s1 := if file.writable then s.(numWrite := 0, writerPid := NOBODY) else s.(numRead := s.numRead - 1);
    s1.(files := s1.files[f := file.(locked := false)])
  }

  /** Which steps the kernel can take: a task runs one ioctl at a time on an open file,
      and a file is closed for good only when no call uses it. */
  predicate Enabled(s: Dev, a: Action) {
    match a
    case Open(f, _) => f !in s.files
    case Acquire(p, f) => f in s.files && !Pending(s, p)
    case Check(p) => PcOf(s, p).Checking? && PcOf(s, p).file in s.files
    case Pass(p) =>
      var pc := PcOf(s, p);
      pc.Waiting? && pc.file in s.files && MayPass(s, pc.ticket, s.files[pc.file].writable)
    case Interrupt(p) => PcOf(s, p).Waiting?
    case Grant(p) => PcOf(s, p).Passed? && PcOf(s, p).file in s.files
    case TryAcquire(p, f) => f in s.files && !Pending(s, p)
    case Release(f) => f in s.files
    case Close(f) => f in s.files && forall p | p in s.tasks :: s.tasks[p].Idle? || s.tasks[p].file != f
  }

  function Next(s: Dev, a: Action): Dev
    requires Enabled(s, a)
  {
    match a
    case Open(f, w) => s.(files := s.files[f := File(w, false)])
    case Acquire(p, f) =>
      var t := s.head;
      var s1 := s.(head := t + 1);
      if p == s.writerPid then s1.(refused := s1.refused + {t}) // -EDEADLK
      else SetPc(s1, p, if s.files[f].writable then Checking(t, f) else Waiting(t, f))
    case Check(p) =>
      var Checking(t, f) := PcOf(s, p);
      if p as int in s.readerPids then SetPc(s, p, Idle).(refused := s.refused + {t}) // -EDEADLK
      else SetPc(s, p, Waiting(t, f))
    case Pass(p) => SetPc(s, p, Passed(PcOf(s, p).ticket, PcOf(s, p).file))
    case Interrupt(p) =>
      var t := PcOf(s, p).ticket;
      var s1 := SetPc(s, p, Idle);
      if s.tail == t then s1.(tail := SkipInvalid(t + 1, s.invalid))
      else s1.(invalid := s.invalid + [t])
    case Grant(p) =>
      var Passed(t, f) := PcOf(s, p);
      var s1 := Lock(SetPc(s, p, Idle), p, f);
      s1.(tail := SkipInvalid(s.tail + 1, s.invalid), granted := s.granted + [t])
    case TryAcquire(p, f) =>
      if p == s.writerPid then s // -EDEADLK
      else if (if s.files[f].writable then s.numWrite > 0 || s.numRead > 0 else s.numWrite != 0) || s.head != s.tail
        then s // -EBUSY
      else Lock(s, p, f)
    case Release(f) => if s.files[f].locked then Unlock(s, f) else s // -EINVAL
    case Close(f) =>
      var s1 := if s.files[f].locked then Unlock(s, f) else s;
      s1.(files := s1.files - {f})
  }

  /** osprd_setup */
  function Init(): Dev { Dev(0, 0, [], 0, 0, NOBODY, [], map[], map[], [], {}, 0) }

  function LockedFiles(s: Dev, writable: bool): set<nat> {
    set f | f in s.files && s.files[f].locked && s.files[f].writable == writable
  }

  // -------------------------------------------------------------------------
  // The invariant
  // -------------------------------------------------------------------------

  /** Counters and flags agree, up to read grants on a flagged file. */
  ghost predicate Counted(s: Dev) {
    && 0 <= s.numWrite <= 1 && 0 <= s.numRead
    && (s.numWrite == 1 ==> s.numRead == 0)
    && s.numWrite == |LockedFiles(s, true)|
    && s.numRead == |LockedFiles(s, false)| + s.regrants
    && (s.numWrite == 0 <==> s.writerPid == NOBODY)
  }

  /** Pending tasks hold distinct live tickets that were neither abandoned nor refused. */
  ghost predicate Ticketed(s: Dev) {
    && (forall p | Pending(s, p) ::
          var pc := PcOf(s, p);
          && s.tail <= pc.ticket < s.head && pc.file in s.files
          && pc.ticket !in s.invalid && pc.ticket !in s.refused
          && (pc.Checking? ==> s.files[pc.file].writable)
          && (pc.Passed? ==> MayPass(s, pc.ticket, s.files[pc.file].writable)))
    && (forall p, q | Pending(s, p) && Pending(s, q) && p != q :: PcOf(s, p).ticket != PcOf(s, q).ticket)
  }

  ghost predicate Owned(s: Dev, t: nat) { exists p :: Pending(s, p) && PcOf(s, p).ticket == t }

  /** Every ticket between tail and head is accounted for. */
  ghost predicate Covered(s: Dev) {
    && s.tail <= s.head && s.tail !in s.invalid
    && (forall t: nat | s.tail <= t < s.head :: Owned(s, t) || t in s.invalid || t in s.refused)
    && (forall t | t in s.invalid :: t < s.head && t !in s.refused)
    && (forall t | t in s.refused :: s.tail <= t < s.head)
  }

  ghost predicate Fifo(s: Dev) {
    && (forall i, j | 0 <= i < j < |s.granted| :: s.granted[i] < s.granted[j])
    && (forall i | 0 <= i < |s.granted| :: s.granted[i] < s.tail)
  }

  ghost predicate Inv(s: Dev) { Counted(s) && Ticketed(s) && Covered(s) && Fifo(s) }

  lemma LockCounted(s: Dev, p: nat, f: nat)
    requires Counted(s) && f in s.files && s.numWrite == 0 && (s.files[f].writable ==> s.numRead == 0)
    ensures Counted(Lock(s, p, f))
  {
    var s' := Lock(s, p, f);
    var w := s.files[f].writable;
    assert LockedFiles(s', w) == LockedFiles(s, w) + {f};
    assert LockedFiles(s', !w) == LockedFiles(s, !w);
    if s.files[f].locked { assert f in LockedFiles(s, w); }
  }

  lemma UnlockCounted(s: Dev, f: nat)
    requires Counted(s) && f in s.files && s.files[f].locked
    ensures Counted(Unlock(s, f))
  {
    var s' := Unlock(s, f);
    var w := s.files[f].writable;
    assert LockedFiles(s', w) == LockedFiles(s, w) - {f};
    assert LockedFiles(s', !w) == LockedFiles(s, !w);
    assert f in LockedFiles(s, w);
  }

  lemma NextCounted(s: Dev, a: Action)
    requires Inv(s) && Enabled(s, a)
    ensures Counted(Next(s, a))
  {
    var s' := Next(s, a);
    match a
    case Open(f, w) => SameLocked(s, s');
    case Grant(p) =>
      var Passed(t, f) := PcOf(s, p);
      assert Pending(s, p);
      LockCounted(SetPc(s, p, Idle), p, f) by { SameLocked(s, SetPc(s, p, Idle)); }
      SameLocked(Lock(SetPc(s, p, Idle), p, f), s');
    case TryAcquire(p, f) => if s' != s { LockCounted(s, p, f); }
    case Release(f) => if s.files[f].locked { UnlockCounted(s, f); }
    case Close(f) =>
      if s.files[f].locked { UnlockCounted(s, f); }
      SameLocked(if s.files[f].locked then Unlock(s, f) else s, s');
    case _ => SameLocked(s, s');
  }

  lemma SameLocked(s: Dev, s': Dev)
    requires forall f | f in s.files && s.files[f].locked :: f in s'.files && s'.files[f] == s.files[f]
    requires forall f | f in s'.files && s'.files[f].locked :: f in s.files && s'.files[f] == s.files[f]
    ensures LockedFiles(s, true) == LockedFiles(s', true) && LockedFiles(s, false) == LockedFiles(s', false)
  {
  }

  /** Moving the tail past ticket t (which is being served or abandoned) and the
      abandoned tickets after it passes no pending and no refused ticket. */
  lemma SkipStops(t: nat, invalid: seq<nat>, u: nat)
    requires t < u && u !in invalid
    ensures SkipInvalid(t + 1, invalid) <= u
  {
  }

  lemma NextTicketed(s: Dev, a: Action)
    requires Inv(s) && Enabled(s, a)
    ensures Ticketed(Next(s, a))
  {
    hide SkipInvalid;
    var s' := Next(s, a);
    forall q | Pending(s', q)
      ensures var pc := PcOf(s', q);
              && s'.tail <= pc.ticket < s'.head && pc.file in s'.files
              && pc.ticket !in s'.invalid && pc.ticket !in s'.refused
              && (pc.Checking? ==> s'.files[pc.file].writable)
              && (pc.Passed? ==> MayPass(s', pc.ticket, s'.files[pc.file].writable))
    {
      TaskKept(s, a, q);
    }
    forall p, q | Pending(s', p) && Pending(s', q) && p != q
      ensures PcOf(s', p).ticket != PcOf(s', q).ticket
    {
      TicketKept(s, a, p);
      TicketKept(s, a, q);
    }
  }

  /** A step leaves a pending task its ticket; only Acquire gives out a new one. */
  lemma TicketKept(s: Dev, a: Action, q: int)
    requires Inv(s) && Enabled(s, a) && Pending(Next(s, a), q)
    ensures if Pending(s, q) then PcOf(Next(s, a), q).ticket == PcOf(s, q).ticket && PcOf(s, q).ticket < s.head
            else a.Acquire? && a.pid == q && PcOf(Next(s, a), q).ticket == s.head
  {
    hide SkipInvalid, Counted, Covered, Fifo, Owned, LockedFiles;
  }

  lemma TaskKept(s: Dev, a: Action, q: int)
    requires Inv(s) && Enabled(s, a) && Pending(Next(s, a), q)
    ensures var s' := Next(s, a);
            var pc := PcOf(s', q);
            && s'.tail <= pc.ticket < s'.head && pc.file in s'.files
            && pc.ticket !in s'.invalid && pc.ticket !in s'.refused
            && (pc.Checking? ==> s'.files[pc.file].writable)
            && (pc.Passed? ==> MayPass(s', pc.ticket, s'.files[pc.file].writable))
  {
    hide SkipInvalid, LockedFiles, Fifo, Owned;
    var s' := Next(s, a);
    TicketKept(s, a, q);
    match a
    case Interrupt(p) =>
      assert Pending(s, p) && Pending(s, q) && PcOf(s, q) == PcOf(s', q);
      if s.tail == PcOf(s, p).ticket { SkipStops(s.tail, s.invalid, PcOf(s, q).ticket); }
    case Grant(p) =>
      assert Pending(s, p) && Pending(s, q) && PcOf(s, q) == PcOf(s', q);
      SkipStops(s.tail, s.invalid, PcOf(s, q).ticket);
    case Close(f) =>
      assert Pending(s, q) && q in s.tasks;
      HolderCounts(s, f);
    case Release(f) => HolderCounts(s, f);
    case _ =>
  }

  lemma HolderCounts(s: Dev, f: nat)
    requires Counted(s) && f in s.files
    ensures s.files[f].locked ==> if s.files[f].writable then s.numWrite == 1 else s.numRead >= 1
  {
    if s.files[f].locked { assert f in LockedFiles(s, s.files[f].writable); }
  }

  lemma NextCovered(s: Dev, a: Action)
    requires Inv(s) && Enabled(s, a)
    ensures Covered(Next(s, a))
  {
    if a.Grant? || (a.Interrupt? && s.tail == PcOf(s, a.pid).ticket) {
      hide SkipInvalid, Counted, Fifo, Covered, Owned, LockedFiles;
      assert Pending(s, a.pid);
      TailMoves(s, Next(s, a), a.pid);
    } else {
      hide SkipInvalid, Counted, Fifo, Owned, LockedFiles, Lock, Unlock;
      OwnersStay(s, a);
      TailStays(s, a);
    }
  }

  /** The other steps leave the tail alone, and only live tickets become abandoned or refused. */
  lemma TailStays(s: Dev, a: Action)
    requires Inv(s) && Enabled(s, a)
    requires !(a.Grant? || (a.Interrupt? && s.tail == PcOf(s, a.pid).ticket))
    ensures var s' := Next(s, a);
            && s'.tail == s.tail && s.head <= s'.head && s'.tail !in s'.invalid
            && (forall t | t in s'.invalid :: t < s'.head && t !in s'.refused)
            && (forall t | t in s'.refused :: s'.tail <= t < s'.head)
  {
    hide Owned, LockedFiles;
    if a.Interrupt? || a.Check? { assert Pending(s, a.pid); }
  }

  /** Every step leaves each live ticket owned, abandoned or refused. */
  lemma OwnersStay(s: Dev, a: Action)
    requires Inv(s) && Enabled(s, a)
    ensures var s' := Next(s, a);
            forall t: nat | s.tail < t < s'.head || (t == s.tail && t < s'.head && s'.tail == s.tail) ::
              Owned(s', t) || t in s'.invalid || t in s'.refused
  {
    hide Next, Counted, Ticketed, Fifo;
    var s' := Next(s, a);
    HeadStep(s, a);
    forall t: nat | s.tail <= t < s'.head && (t > s.tail || s'.tail == s.tail)
      ensures Owned(s', t) || t in s'.invalid || t in s'.refused
    {
      if t == s.head {
        if t !in s'.refused { assert Pending(s', a.pid) && PcOf(s', a.pid).ticket == t; }
      } else if Owned(s, t) {
        var q :| Pending(s, q) && PcOf(s, q).ticket == t;
        TaskStep(s, a, q);
        if t !in s'.invalid && t !in s'.refused { assert Pending(s', q) && PcOf(s', q).ticket == t; }
      }
    }
  }

  /** A step hands out at most ticket s.head, to a task that then holds it or is refused. */
  lemma HeadStep(s: Dev, a: Action)
    requires Inv(s) && Enabled(s, a)
    ensures var s' := Next(s, a);
            && (forall t | t in s.invalid :: t in s'.invalid) && s.refused <= s'.refused
            && (s'.head == s.head
                || (s'.head == s.head + 1 && a.Acquire?
                    && (s.head in s'.refused || (Pending(s', a.pid) && PcOf(s', a.pid).ticket == s.head))))
  {
    hide SkipInvalid;
  }

  /** A pending task keeps its ticket, or its ticket is abandoned, refused or served. */
  lemma TaskStep(s: Dev, a: Action, q: int)
    requires Inv(s) && Enabled(s, a) && Pending(s, q)
    ensures var s' := Next(s, a);
            var t := PcOf(s, q).ticket;
            || (Pending(s', q) && PcOf(s', q).ticket == t)
            || t in s'.invalid || t in s'.refused || (t == s.tail && s'.tail > s.tail)
  {
  }

  /** When the holder of the tail ticket leaves, the tail stops at the next ticket that
      is owned or refused. */
  lemma TailMoves(s: Dev, s': Dev, p: nat)
    requires Inv(s) && Pending(s, p) && PcOf(s, p).ticket == s.tail
    requires s'.tail == SkipInvalid(s.tail + 1, s.invalid)
    requires s'.head == s.head && s'.invalid == s.invalid && s'.refused == s.refused
    requires s'.tasks == s.tasks[p as int := Idle]
    ensures Covered(s')
  {
    forall t: nat | s'.tail <= t < s'.head
      ensures Owned(s', t) || t in s'.invalid || t in s'.refused
    {
      if Owned(s, t) {
        var q :| Pending(s, q) && PcOf(s, q).ticket == t;
        assert Pending(s', q) && PcOf(s', q).ticket == t;
      }
    }
    forall t | t in s'.refused ensures s'.tail <= t { SkipStops(s.tail, s.invalid, t); }
    if s'.tail > s.head {
      SkipHead(s, s.tail + 1);
      assert false;
    }
  }

  lemma SkipHead(s: Dev, t: nat)
    requires Inv(s) && t <= s.head
    ensures SkipInvalid(t, s.invalid) <= s.head
  {
    assert s.head !in s.invalid;
  }

  lemma NextFifo(s: Dev, a: Action)
    requires Inv(s) && Enabled(s, a)
    ensures Fifo(Next(s, a))
  {
    hide Counted, Covered, LockedFiles;
    if a.Grant? {
      assert Pending(s, a.pid);
    }
  }

  lemma NextInv(s: Dev, a: Action)
    requires Inv(s) && Enabled(s, a)
    ensures Inv(Next(s, a))
  {
    hide Counted, Ticketed, Covered, Fifo, Next;
    NextCounted(s, a);
    NextTicketed(s, a);
    NextCovered(s, a);
    NextFifo(s, a);
  }

  lemma InitInv()
    ensures Inv(Init())
  {
    assert LockedFiles(Init(), true) == {} && LockedFiles(Init(), false) == {};
  }

  // -------------------------------------------------------------------------
  // Runs
  // -------------------------------------------------------------------------

  predicate IsRun(s: Dev, run: seq<Action>)
    decreases |run|
  {
    run == [] || (Enabled(s, run[0]) && IsRun(Next(s, run[0]), run[1..]))
  }

  function After(s: Dev, run: seq<Action>): Dev
    requires IsRun(s, run)
    decreases |run|
  {
    if run == [] then s else After(Next(s, run[0]), run[1..])
  }

  lemma {:induction false} RunKeepsInv(s: Dev, run: seq<Action>)
    requires Inv(s) && IsRun(s, run)
    ensures Inv(After(s, run))
    decreases |run|
  {
    hide Inv, Enabled, Next;
    if run != [] {
      NextInv(s, run[0]);
      RunKeepsInv(Next(s, run[0]), run[1..]);
    }
  }

  /** Reader/writer exclusion in every interleaving, as counters and as open files: at
      most one file is flagged for writing, and then none is flagged for reading.  The
      write counter equals the files flagged; the read counter does exactly when no
      read lock was granted on a file that was flagged already. */
  lemma Exclusion(run: seq<Action>)
    requires IsRun(Init(), run)
    ensures var s := After(Init(), run);
            && s.numWrite <= 1 && (s.numWrite == 1 ==> s.numRead == 0)
            && s.numWrite == |LockedFiles(s, true)|
            && (s.numRead == |LockedFiles(s, false)| <==> s.regrants == 0)
            && (forall f, g | f in s.files && g in s.files && s.files[f].locked && s.files[g].locked
                 && s.files[f].writable ::
                  f == g)
  {
    InitInv();
    RunKeepsInv(Init(), run);
    var s := After(Init(), run);
    forall f, g | f in s.files && g in s.files && s.files[f].locked && s.files[g].locked && s.files[f].writable
      ensures f == g
    {
      HolderCounts(s, f);
      HolderCounts(s, g);
      if f != g { LaterSmaller({f, g}, LockedFiles(s, true)); }
    }
  }

  /** Every live ticket is in exactly one of three places: with one pending task, in the
      abandoned list, or lost to a refused call. */
  lemma TicketPartition(run: seq<Action>, t: nat)
    requires IsRun(Init(), run)
    requires After(Init(), run).tail <= t < After(Init(), run).head
    ensures var s := After(Init(), run);
            && (Owned(s, t) || t in s.invalid || t in s.refused)
            && !(Owned(s, t) && t in s.invalid) && !(Owned(s, t) && t in s.refused)
            && !(t in s.invalid && t in s.refused)
            && (forall p, q | Pending(s, p) && Pending(s, q) && PcOf(s, p).ticket == t && PcOf(s, q).ticket == t ::
                 p == q)
  {
    InitInv();
    RunKeepsInv(Init(), run);
  }

  /** The ticket now served belongs to a waiting task exactly when it was not lost to a
      refused call: abandoned tickets leave no bubbles. */
  lemma NoBubble(run: seq<Action>)
    requires IsRun(Init(), run) && After(Init(), run).tail < After(Init(), run).head
    ensures var s := After(Init(), run);
            Owned(s, s.tail) <==> s.tail !in s.refused
  {
    InitInv();
    RunKeepsInv(Init(), run);
    TicketPartition(run, After(Init(), run).tail);
  }

  /** Unless the ticket now served is lost, somebody can move: its owner can take its
      next step, or the lock is held. */
  lemma NoStall(run: seq<Action>)
    requires IsRun(Init(), run) && After(Init(), run).tail < After(Init(), run).head
    requires After(Init(), run).tail !in After(Init(), run).refused
    ensures var s := After(Init(), run);
            || s.numWrite == 1 || s.numRead > 0
            || exists p: nat :: Enabled(s, Check(p)) || Enabled(s, Pass(p)) || Enabled(s, Grant(p))
    ensures forall p | p in After(Init(), run).tasks :: p >= 0
  {
    InitInv();
    RunKeepsInv(Init(), run);
    PidsNatural(Init(), run);
    NoBubble(run);
    var s := After(Init(), run);
    var p :| Pending(s, p) && PcOf(s, p).ticket == s.tail;
    if s.numWrite == 0 && s.numRead == 0 {
      var n: nat := p;
      match PcOf(s, p)
      case Checking(t, f) => assert Enabled(s, Check(n));
      case Waiting(t, f) => assert Enabled(s, Pass(n));
      case Passed(t, f) => assert Enabled(s, Grant(n));
    }
  }

  lemma {:induction false} PidsNatural(s: Dev, run: seq<Action>)
    requires IsRun(s, run) && forall p | p in s.tasks :: p >= 0
    ensures forall p | p in After(s, run).tasks :: p >= 0
    decreases |run|
  {
    hide SkipInvalid;
    if run != [] { PidsNatural(Next(s, run[0]), run[1..]); }
  }

  /** Locks are granted in strictly increasing ticket order, whatever the schedule. */
  lemma GrantsInOrder(run: seq<Action>)
    requires IsRun(Init(), run)
    ensures var g := After(Init(), run).granted;
            forall i, j | 0 <= i < j < |g| :: g[i] < g[j]
  {
    InitInv();
    RunKeepsInv(Init(), run);
  }

  /** Who gets past the wait: the owner of the ticket being served, when no file is locked for
      writing and, if it asks for a write lock itself, no read lock is counted.  Readers share. */
  lemma PassesExactly(run: seq<Action>, p: nat)
    requires IsRun(Init(), run) && PcOf(After(Init(), run), p).Waiting?
    ensures var s, Waiting(t, f) := After(Init(), run), PcOf(After(Init(), run), p);
            && f in s.files
            && (Enabled(s, Pass(p)) <==>
                  && t == s.tail && (forall g | g in s.files && s.files[g].writable :: !s.files[g].locked)
                  && (s.files[f].writable ==> s.numRead == 0))
  {
    InitInv();
    RunKeepsInv(Init(), run);
    var s := After(Init(), run);
    assert Pending(s, p);
    NoWriter(s);
  }

  lemma NoWriter(s: Dev)
    requires Counted(s)
    ensures s.numWrite == 0 <==> forall g | g in s.files && s.files[g].writable :: !s.files[g].locked
  {
    if s.numWrite == 0 {
      forall g | g in s.files && s.files[g].writable ensures !s.files[g].locked {
        if s.files[g].locked { HolderCounts(s, g); }
      }
    } else {
      assert LockedFiles(s, true) != {};
    }
  }

  /** When a non-blocking acquire gets the lock, and what it then changes: the caller does not
      hold the write lock, nobody has a ticket, no file is locked for writing and, for a write
      lock, no read lock is counted. */
  lemma TryExactly(run: seq<Action>, p: nat, f: nat)
    requires IsRun(Init(), run) && Enabled(After(Init(), run), TryAcquire(p, f))
    ensures var s := After(Init(), run);
            var s', w := Next(s, TryAcquire(p, f)), s.files[f].writable;
            if p != s.writerPid && s.head == s.tail && (w ==> s.numRead == 0)
               && (forall g | g in s.files && s.files[g].writable :: !s.files[g].locked)
            then
              && s'.files == s.files[f := File(w, true)] && s'.tasks == s.tasks
              && s'.numWrite == s.numWrite + (if w then 1 else 0) && s'.numRead == s.numRead + (if w then 0 else 1)
              && s'.writerPid == (if w then p else s.writerPid)
              && s'.readerPids == (if w then s.readerPids else s.readerPids + [p])
              && (s'.head, s'.tail, s'.invalid) == (s.head, s.tail, s.invalid)
            else s' == s
  {
    InitInv();
    RunKeepsInv(Init(), run);
    NoWriter(After(Init(), run));
  }

  /** The first ticket from t on that nobody abandoned. */
  ghost predicate FirstKept(s: Dev, t: nat, u: nat) {
    t <= u && u !in s.invalid && forall v: nat | t <= v < u :: v in s.invalid
  }

  /** What a grant changes: the caller's file is locked, its ticket granted, and the first later
      ticket that nobody abandoned is served. */
  lemma GrantExactly(s: Dev, p: nat)
    requires Inv(s) && Enabled(s, Grant(p))
    ensures var s', Passed(t, f) := Next(s, Grant(p)), PcOf(s, p);
            var w := s.files[f].writable;
            && s'.files == s.files[f := File(w, true)] && !Pending(s', p)
            && (forall q | q != p :: PcOf(s', q) == PcOf(s, q))
            && s'.numWrite == s.numWrite + (if w then 1 else 0) && s'.numRead == s.numRead + (if w then 0 else 1)
            && s'.writerPid == (if w then p else s.writerPid)
            && s'.readerPids == (if w then s.readerPids else s.readerPids + [p])
            && s'.head == s.head && s'.invalid == s.invalid && s'.refused == s.refused
            && t == s.tail && FirstKept(s, t + 1, s'.tail) && s'.granted == s.granted + [t]
  {
    assert Pending(s, p);
  }

  /** What a signal changes: the ticket is passed over, now if it is being served and later
      otherwise; no lock changes hands. */
  lemma InterruptExactly(s: Dev, p: nat)
    requires Enabled(s, Interrupt(p))
    ensures var s', t := Next(s, Interrupt(p)), PcOf(s, p).ticket;
            && !Pending(s', p) && (forall q | q != p :: PcOf(s', q) == PcOf(s, q))
            && s'.(tasks := s.tasks, tail := s.tail, invalid := s.invalid) == s
            && if t == s.tail then FirstKept(s, t + 1, s'.tail) && s'.invalid == s.invalid
               else s'.tail == s.tail && s'.invalid == s.invalid + [t]
  {
  }

  /** What a release or a last close changes. */
  lemma ReleaseExactly(s: Dev, f: nat)
    requires f in s.files
    ensures var s', w := Next(s, Release(f)), s.files[f].writable;
            && Enabled(s, Release(f)) && s'.files == s.files[f := File(w, false)]
            && (!s.files[f].locked ==> s' == s)
            && (s.files[f].locked && w ==> s'.numWrite == 0 && s'.writerPid == NOBODY && s'.numRead == s.numRead)
            && (s.files[f].locked && !w ==> s'.numRead == s.numRead - 1 && s'.numWrite == s.numWrite)
            && s'.(files := s.files, numWrite := s.numWrite, numRead := s.numRead, writerPid := s.writerPid) == s
    ensures Enabled(s, Close(f)) ==> Next(s, Close(f)) == Next(s, Release(f)).(files := s.files - {f})
  {
    var s' := Next(s, Release(f));
    if s.files[f].locked {
      assert s'.files - {f} == s.files - {f};
    } else {
      assert s.files[f := s.files[f]] == s.files;
    }
  }

  /** What the first part of a blocking acquire changes: each call takes the next ticket.  The
      process that holds the write lock is refused, and so is a writer that is on the reader list. */
  lemma AcquireExactly(s: Dev, p: nat, f: nat)
    requires Enabled(s, Acquire(p, f))
    ensures var s1, t := Next(s, Acquire(p, f)), s.head;
            && s1.(head := s.head, tasks := s.tasks, refused := s.refused) == s && s1.head == t + 1
            && (forall q | q != p :: PcOf(s1, q) == PcOf(s, q))
            && if p == s.writerPid then !Pending(s1, p) && s1.refused == s.refused + {t}
               else if !s.files[f].writable then PcOf(s1, p) == Waiting(t, f) && s1.refused == s.refused
               else
                 && Enabled(s1, Check(p)) && s1.refused == s.refused
                 && var s2 := Next(s1, Check(p));
                    && s2.(tasks := s1.tasks, refused := s1.refused) == s1
                    && (forall q | q != p :: PcOf(s2, q) == PcOf(s, q))
                    && if p as int in s.readerPids then !Pending(s2, p) && s2.refused == s.refused + {t}
                       else PcOf(s2, p) == Waiting(t, f) && s2.refused == s.refused
  {
  }

  /** A non-blocking acquire that gets the lock overtakes nobody. */
  lemma TryOvertakesNobody(run: seq<Action>, p: nat, f: nat)
    requires IsRun(Init(), run) && Enabled(After(Init(), run), TryAcquire(p, f))
    ensures var s := After(Init(), run);
            Next(s, TryAcquire(p, f)) != s ==> forall q :: !Pending(s, q)
  {
    InitInv();
    RunKeepsInv(Init(), run);
  }

  /** A ticket lost to -EDEADLK stops the device for good: in every continuation the
      tail stays at or below it, and no later ticket is ever granted. */
  lemma {:induction false} RefusalStopsDevice(s: Dev, run: seq<Action>, t: nat)
    requires Inv(s) && IsRun(s, run) && t in s.refused
    ensures var s' := After(s, run);
            t in s'.refused && s'.tail <= t && forall i | 0 <= i < |s'.granted| :: s'.granted[i] < t
    decreases |run|
  {
    hide SkipInvalid, Counted, Ticketed, Owned;
    if run != [] {
      NextInv(s, run[0]);
      HeadStep(s, run[0]);
      RefusalStopsDevice(Next(s, run[0]), run[1..], t);
    }
  }

  lemma RunCons(s: Dev, a: Action, run: seq<Action>)
    requires Enabled(s, a) && IsRun(Next(s, a), run)
    ensures IsRun(s, [a] + run) && After(s, [a] + run) == After(Next(s, a), run)
  {
    hide Enabled, Next;
    assert ([a] + run)[0] == a && ([a] + run)[1..] == run;
  }

  /** Device states of the two examples: two open files, the first one flagged or not. */
  function Example(writable: bool, head: nat, tail: nat, locked: bool, pc: Pc): Dev {
    Dev(head, tail, [], if locked && writable then 1 else 0, 0, if locked && writable then 7 else NOBODY, [],
        map[0 := File(writable, locked), 1 := File(writable, false)], map[7 := pc],
        if tail == 0 then [] else [0], {}, 0)
  }

  lemma OpenTwo(writable: bool)
    ensures var s1 := Next(Init(), Open(0, writable));
            && Enabled(s1, Open(1, writable))
            && Next(s1, Open(1, writable)) == Example(writable, 0, 0, false, Idle).(tasks := map[])
  {
    hide SkipInvalid;
  }

  lemma FirstGrant()
    ensures var s := Example(true, 0, 0, false, Idle).(tasks := map[]);
            && Enabled(s, Acquire(7, 0)) && Next(s, Acquire(7, 0)) == Example(true, 1, 0, false, Checking(0, 0))
    ensures var s := Example(true, 1, 0, false, Checking(0, 0));
            && Enabled(s, Check(7)) && Next(s, Check(7)) == Example(true, 1, 0, false, Waiting(0, 0))
    ensures var s := Example(true, 1, 0, false, Waiting(0, 0));
            && Enabled(s, Pass(7)) && Next(s, Pass(7)) == Example(true, 1, 0, false, Passed(0, 0))
  {
    hide SkipInvalid;
  }

  lemma GrantFirst()
    ensures var s := Example(true, 1, 0, false, Passed(0, 0));
            && Enabled(s, Grant(7)) && Next(s, Grant(7)) == Example(true, 1, 1, true, Idle)
  {
    var s := Example(true, 1, 0, false, Passed(0, 0));
    var s' := Next(s, Grant(7));
    assert SkipInvalid(1, []) == 1;
    assert s'.files == map[0 := File(true, true), 1 := File(true, false)] && s'.tasks == map[7 := Idle];
    assert s'.granted == [0];
  }

  lemma SecondRefused()
    ensures var s := Example(true, 1, 1, true, Idle);
            && Enabled(s, Acquire(7, 1))
            && Next(s, Acquire(7, 1)) == Example(true, 2, 1, true, Idle).(refused := {1})
    ensures var s := Example(true, 2, 1, true, Idle).(refused := {1});
            && Enabled(s, Release(0))
            && Next(s, Release(0)) == Example(true, 2, 1, false, Idle).(refused := {1})
  {
    hide SkipInvalid;
  }

  /** Concrete case: a writer that asks again is refused; after it releases the lock,
      ticket 1 is being served and belongs to nobody. */
  lemma RefusalExample() returns (run: seq<Action>)
    ensures IsRun(Init(), run)
    ensures var s := After(Init(), run); s.numWrite == 0 && s.tail == 1 && s.head == 2 && 1 in s.refused && !Owned(s, 1)
  {
    var s9 := Example(true, 2, 1, false, Idle).(refused := {1});
    assert !Owned(s9, 1);
    OpenTwo(true);
    FirstGrant();
    GrantFirst();
    SecondRefused();
    var s1 := Next(Init(), Open(0, true));
    assert Enabled(Init(), Open(0, true)) && IsRun(s9, []) && After(s9, []) == s9;
    hide Example, Enabled, Next, IsRun, After, Init, Owned;
    RunCons(Example(true, 2, 1, true, Idle).(refused := {1}), Release(0), []);
    run := [Release(0)] + [];
    RunCons(Example(true, 1, 1, true, Idle), Acquire(7, 1), run);
    run := [Acquire(7, 1)] + run;
    RunCons(Example(true, 1, 0, false, Passed(0, 0)), Grant(7), run);
    run := [Grant(7)] + run;
    RunCons(Example(true, 1, 0, false, Waiting(0, 0)), Pass(7), run);
    run := [Pass(7)] + run;
    RunCons(Example(true, 1, 0, false, Checking(0, 0)), Check(7), run);
    run := [Check(7)] + run;
    RunCons(Example(true, 0, 0, false, Idle).(tasks := map[]), Acquire(7, 0), run);
    run := [Acquire(7, 0)] + run;
    RunCons(s1, Open(1, true), run);
    run := [Open(1, true)] + run;
    RunCons(Init(), Open(0, true), run);
    run := [Open(0, true)] + run;
  }

  /** A read grant on a file that was flagged already is never undone: in every
      continuation the read counter stays above zero and no writer holds the lock. */
  lemma {:induction false} RegrantBlocksWriters(s: Dev, run: seq<Action>)
    requires Inv(s) && IsRun(s, run) && s.regrants > 0
    ensures After(s, run).numRead >= s.regrants && After(s, run).numWrite == 0
    decreases |run|
  {
    hide SkipInvalid, Ticketed, Covered, Fifo, LockedFiles;
    if run != [] {
      NextInv(s, run[0]);
      RegrantBlocksWriters(Next(s, run[0]), run[1..]);
    }
  }

  /** Concrete case: two tasks share one read-only file and lock it twice; one release
      leaves the read counter at 1 with no file flagged. */
  lemma RegrantExample() returns (run: seq<Action>)
    ensures IsRun(Init(), run)
    ensures var s := After(Init(), run);
            s.numRead == 1 && LockedFiles(s, false) == {} && (forall f | f in s.files :: !s.files[f].locked)
  {
    var s1 := Next(Init(), Open(0, false));
    var s2 := Next(s1, TryAcquire(7, 0));
    var s3 := Next(s2, TryAcquire(8, 0));
    var s4 := Next(s3, Release(0));
    assert s4.numRead == 1 && s4.files == map[0 := File(false, false)] && IsRun(s4, []) && After(s4, []) == s4;
    hide Enabled, Next, IsRun, After, Init;
    RunCons(s3, Release(0), []);
    run := [Release(0)] + [];
    RunCons(s2, TryAcquire(8, 0), run);
    run := [TryAcquire(8, 0)] + run;
    RunCons(s1, TryAcquire(7, 0), run);
    run := [TryAcquire(7, 0)] + run;
    RunCons(Init(), Open(0, false), run);
    run := [Open(0, false)] + run;
  }

  // -------------------------------------------------------------------------
  // Readers stay on the list
  // -------------------------------------------------------------------------

  /** No process on the reader list waits for a write lock. */
  ghost predicate ReadersApart(s: Dev) {
    forall p | Pending(s, p) && p in s.readerPids && !PcOf(s, p).Checking? ::
      PcOf(s, p).file in s.files && !s.files[PcOf(s, p).file].writable
  }

  lemma NextApart(s: Dev, a: Action)
    requires Inv(s) && ReadersApart(s) && Enabled(s, a)
    ensures ReadersApart(Next(s, a))
    ensures forall p | p in s.readerPids :: p in Next(s, a).readerPids
  {
    hide SkipInvalid, Counted, Covered, Fifo;
  }

  lemma {:induction false} RunApart(s: Dev, run: seq<Action>)
    requires Inv(s) && ReadersApart(s) && IsRun(s, run)
    ensures var s' := After(s, run);
            Inv(s') && ReadersApart(s') && forall p | p in s.readerPids :: p in s'.readerPids
    decreases |run|
  {
    hide Inv, ReadersApart, Enabled, Next;
    if run != [] {
      NextInv(s, run[0]);
      NextApart(s, run[0]);
      RunApart(Next(s, run[0]), run[1..]);
    }
  }

  /** A process once granted a read lock stays on the list in every continuation, whatever is
      released.  It never again waits for a write lock: each later blocking acquire for writing
      is refused, which loses its ticket, so that by RefusalStopsDevice no later ticket is served. */
  lemma OnceReader(run: seq<Action>, more: seq<Action>, p: nat)
    requires IsRun(Init(), run) && p as int in After(Init(), run).readerPids && IsRun(After(Init(), run), more)
    ensures var s := After(After(Init(), run), more);
            && p as int in s.readerPids
            && (Pending(s, p) && PcOf(s, p).file in s.files && s.files[PcOf(s, p).file].writable ==>
                  && PcOf(s, p).Checking? && Enabled(s, Check(p))
                  && var s' := Next(s, Check(p)); !Pending(s', p) && PcOf(s, p).ticket in s'.refused)
  {
    InitInv();
    RunApart(Init(), run);
    RunApart(After(Init(), run), more);
  }

  /** Concrete case: a process takes a read lock and releases it, so that nobody holds the lock or
      waits; then it asks for a write lock, is refused, and its ticket is the one being served. */
  lemma OnceReaderExample() returns (run: seq<Action>)
    ensures IsRun(Init(), run)
    ensures var s := After(Init(), run);
            && s.numRead == 0 && s.numWrite == 0 && (forall f | f in s.files :: !s.files[f].locked)
            && (forall q :: !Pending(s, q)) && s.tail == 0 && 0 in s.refused
  {
    var s1 := Next(Init(), Open(0, false));
    var s2 := Next(s1, TryAcquire(7, 0));
    var s3 := Next(s2, Release(0));
    var s4 := Next(s3, Open(1, true));
    var s5 := Next(s4, Acquire(7, 1));
    var s6 := Next(s5, Check(7));
    assert s3.files == map[0 := File(false, false)] && s3.readerPids == [7];
    assert s6.files == map[0 := File(false, false), 1 := File(true, false)] && s6.refused == {0};
    assert IsRun(s6, []) && After(s6, []) == s6;
    assert Enabled(s5, Check(7)) && Enabled(s4, Acquire(7, 1)) && Enabled(s3, Open(1, true));
    hide Enabled, Next, IsRun, After, Init;
    RunCons(s5, Check(7), []);
    run := [Check(7)] + [];
    RunCons(s4, Acquire(7, 1), run);
    run := [Acquire(7, 1)] + run;
    RunCons(s3, Open(1, true), run);
    run := [Open(1, true)] + run;
    RunCons(s2, Release(0), run);
    run := [Release(0)] + run;
    RunCons(s1, TryAcquire(7, 0), run);
    run := [TryAcquire(7, 0)] + run;
    RunCons(Init(), Open(0, false), run);
    run := [Open(0, false)] + run;
  }

  // -------------------------------------------------------------------------
  // Readers together
  // -------------------------------------------------------------------------

  /** Two open files for reading, n of which are locked, by tasks 7 and 8 in this order. */
  function Sharing(head: nat, tail: nat, n: nat, tasks: map<int, Pc>): Dev
    requires n <= 2 && tail == n
  {
    Dev(head, tail, [], 0, n, NOBODY, [7, 8][..n], map[0 := File(false, n > 0), 1 := File(false, n > 1)],
        tasks, [0, 1][..n], {}, 0)
  }

  lemma FirstShares()
    ensures var s := Sharing(0, 0, 0, map[]);
            Enabled(s, Acquire(7, 0)) && Next(s, Acquire(7, 0)) == Sharing(1, 0, 0, map[7 := Waiting(0, 0)])
    ensures var s := Sharing(1, 0, 0, map[7 := Waiting(0, 0)]);
            Enabled(s, Pass(7)) && Next(s, Pass(7)) == Sharing(1, 0, 0, map[7 := Passed(0, 0)])
  {
    hide SkipInvalid;
  }

  lemma FirstHolds()
    ensures var s := Sharing(1, 0, 0, map[7 := Passed(0, 0)]);
            Enabled(s, Grant(7)) && Next(s, Grant(7)) == Sharing(1, 1, 1, map[7 := Idle])
  {
    assert SkipInvalid(1, []) == 1;
    assert [7, 8][..1] == [7] && [0, 1][..1] == [0];
    var s := Next(Sharing(1, 0, 0, map[7 := Passed(0, 0)]), Grant(7));
    assert s.files == map[0 := File(false, true), 1 := File(false, false)] && s.tasks == map[7 := Idle];
    assert s.granted == [0] && s.readerPids == [7];
  }

  lemma SecondShares()
    ensures var s := Sharing(1, 1, 1, map[7 := Idle]);
            Enabled(s, Acquire(8, 1)) && Next(s, Acquire(8, 1)) == Sharing(2, 1, 1, map[7 := Idle, 8 := Waiting(1, 1)])
    ensures var s := Sharing(2, 1, 1, map[7 := Idle, 8 := Waiting(1, 1)]);
            Enabled(s, Pass(8)) && Next(s, Pass(8)) == Sharing(2, 1, 1, map[7 := Idle, 8 := Passed(1, 1)])
    ensures var s := Sharing(2, 1, 1, map[7 := Idle, 8 := Passed(1, 1)]);
            Enabled(s, Grant(8)) && Next(s, Grant(8)) == Sharing(2, 2, 2, map[7 := Idle, 8 := Idle])
  {
    assert SkipInvalid(2, []) == 2;
    assert [7, 8][..1] == [7] && [0, 1][..1] == [0] && [7, 8][..2] == [7, 8] && [0, 1][..2] == [0, 1];
    var s := Next(Sharing(2, 1, 1, map[7 := Idle, 8 := Passed(1, 1)]), Grant(8));
    assert s.files == map[0 := File(false, true), 1 := File(false, true)];
    assert s.granted == [0, 1] && s.readerPids == [7, 8];
  }

  /** Two tasks get read locks through blocking acquires and hold them together. */
  lemma TwoReadersExample() returns (run: seq<Action>)
    ensures IsRun(Init(), run)
    ensures var s := After(Init(), run);
            && s.numRead == 2 && s.readerPids == [7, 8] && s.granted == [0, 1] && s.head == s.tail == 2
            && s.files == map[0 := File(false, true), 1 := File(false, true)]
  {
    var s1 := Next(Init(), Open(0, false));
    var s2 := Sharing(0, 0, 0, map[]);
    var s8 := Sharing(2, 2, 2, map[7 := Idle, 8 := Idle]);
    assert [7, 8][..0] == [] && [0, 1][..0] == [] && [7, 8][..2] == [7, 8] && [0, 1][..2] == [0, 1];
    assert Enabled(s1, Open(1, false)) && Next(s1, Open(1, false)) == s2;
    assert IsRun(s8, []) && After(s8, []) == s8;
    FirstShares();
    FirstHolds();
    SecondShares();
    hide Enabled, Next, IsRun, After, Init, Sharing;
    RunCons(Sharing(2, 1, 1, map[7 := Idle, 8 := Passed(1, 1)]), Grant(8), []);
    run := [Grant(8)] + [];
    RunCons(Sharing(2, 1, 1, map[7 := Idle, 8 := Waiting(1, 1)]), Pass(8), run);
    run := [Pass(8)] + run;
    RunCons(Sharing(1, 1, 1, map[7 := Idle]), Acquire(8, 1), run);
    run := [Acquire(8, 1)] + run;
    RunCons(Sharing(1, 0, 0, map[7 := Passed(0, 0)]), Grant(7), run);
    run := [Grant(7)] + run;
    RunCons(Sharing(1, 0, 0, map[7 := Waiting(0, 0)]), Pass(7), run);
    run := [Pass(7)] + run;
    RunCons(s2, Acquire(7, 0), run);
    run := [Acquire(7, 0)] + run;
    RunCons(s1, Open(1, false), run);
    run := [Open(1, false)] + run;
    RunCons(Init(), Open(0, false), run);
    run := [Open(0, false)] + run;
  }
}
