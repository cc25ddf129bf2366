/** The process table of weensyos1/mpos-kern.c: every system call as a step of a state
    machine over the table and the stacks. */
module Mpos {
  import opened Options

  const NPROCS: nat := 16
  const STACK_ADDR: nat := 0x280000 // PROC1_STACK_ADDR
  const STACK_SIZE: nat := 0x040000 // PROC_STACK_SIZE

  type Byte = bv8

  datatype State = EMPTY | RUNNABLE | BLOCKED | ZOMBIE

  /** The registers that matter, and all others as one value. */
  datatype Regs = Regs(eax: int, esp: nat, eip: int, others: int)

  datatype Proc = Proc(state: State, regs: Regs, exitStatus: int, waitQueue: nat)

  /** The process table, the stack memory from STACK_ADDR on, and the current process. */
  datatype Machine = Machine(procs: seq<Proc>, mem: seq<Byte>, current: nat)

  datatype Call = GetPid | Fork | NewThread | Yield | Exit | Kill | Wait

  // -------------------------------------------------------------------------
  // Stacks
  // -------------------------------------------------------------------------

  /** The top of a process's stack region. */
  function Top(pid: nat): nat { STACK_ADDR + pid * 0x040000 }

  /** An address of a process's own region; its stack pointer may also be the top. */
  predicate Owns(pid: nat, a: nat) { Top(pid) - STACK_SIZE <= a < Top(pid) }

  predicate PointsInto(pid: nat, esp: nat) { Top(pid) - STACK_SIZE <= esp <= Top(pid) }

  lemma RegionsDisjoint(p: nat, q: nat, a: nat)
    requires Owns(p, a) && Owns(q, a)
    ensures p == q
  {
  }

  /** The byte at an address. */
  function At(mem: seq<Byte>, a: nat): Byte
    requires STACK_ADDR <= a < STACK_ADDR + |mem|
  {
    mem[a - STACK_ADDR]
  }

  /** memcpy between two ranges of the stack memory that do not overlap. */
  function CopyRange(mem: seq<Byte>, dest: nat, src: nat, n: nat): (r: seq<Byte>)
    requires dest + n <= |mem| && src + n <= |mem|
    ensures |r| == |mem|
  {
    mem[..dest] + mem[src..src + n] + mem[dest + n..]
  }

  lemma CopyRangeAt(mem: seq<Byte>, dest: nat, src: nat, n: nat, j: nat)
    requires dest + n <= |mem| && src + n <= |mem| && j < |mem|
    ensures CopyRange(mem, dest, src, n)[j] == if dest <= j < dest + n then mem[src + (j - dest)] else mem[j]
  {
  }

  // -------------------------------------------------------------------------
  // The system calls
  // -------------------------------------------------------------------------

  /** The first empty slot from i on, or NPROCS. */
  function FirstEmpty(ps: seq<Proc>, i: nat): (k: nat)
    requires |ps| == NPROCS && i <= NPROCS
    ensures i <= k <= NPROCS && (k < NPROCS ==> ps[k].state == EMPTY) && forall j | i <= j < k :: ps[j].state != EMPTY
    decreases NPROCS - i
  {
    if i == NPROCS || ps[i].state == EMPTY then i else FirstEmpty(ps, i + 1)
  }

  /** The address in the child's region that corresponds to one in the parent's. */
  function Shifted(parent: nat, child: nat, a: nat): nat
    requires PointsInto(parent, a) && child >= 1
  {
    Top(child) + a - Top(parent)
  }

  /** The next runnable slot after pid, tried n times. */
  function NextRunnable(ps: seq<Proc>, pid: nat, n: nat): (r: Option<nat>)
    requires |ps| == NPROCS
    ensures r.Some? ==> r.value < NPROCS && ps[r.value].state == RUNNABLE
    decreases n
  {
    if n == 0 then None
    else if ps[(pid + 1) % NPROCS].state == RUNNABLE then Some((pid + 1) % NPROCS)
    else NextRunnable(ps, (pid + 1) % NPROCS, n - 1)
  }

  predicate Shape(m: Machine) {
    |m.procs| == NPROCS && 0 < m.current < NPROCS && |m.mem| == (NPROCS - 1) * STACK_SIZE
  }

  /** schedule(); None when it spins forever. */
  function Schedule(m: Machine): Option<Machine>
    requires Shape(m)
  {
    var r := NextRunnable(m.procs, m.current, NPROCS);
    if r.None? then None else Some(m.(current := r.value))
  }

  function SetEax(m: Machine, pid: nat, x: int): Machine
    requires pid < |m.procs|
  {
    m.(procs := m.procs[pid := m.procs[pid].(regs := m.procs[pid].regs.(eax := x))])
  }

  /** The memory after copying the stack from esp up into another region. */
  function StackCopy(mem: seq<Byte>, src: nat, dest: nat, esp: nat): (mem': seq<Byte>)
    requires |mem| == (NPROCS - 1) * STACK_SIZE && 0 < src < NPROCS && 0 < dest < NPROCS && PointsInto(src, esp)
    ensures |mem'| == |mem|
  {
    CopyRange(mem, Shifted(src, dest, esp) - STACK_ADDR, esp - STACK_ADDR, Top(src) - esp)
  }

  /** copy_stack: the source's stack at the same offset in the destination's region. */
  function CopyStack(m: Machine, dest: nat, src: nat): Machine
    requires Shape(m) && 0 < dest < NPROCS && 0 < src < NPROCS && PointsInto(src, m.procs[src].regs.esp)
  {
    var from := m.procs[src].regs.esp;
    var to := Shifted(src, dest, from);
    m.(mem := StackCopy(m.mem, src, dest, from),
       procs := m.procs[dest := m.procs[dest].(regs := m.procs[dest].regs.(esp := to))])
  }

  /** do_fork and the store of its result; the stack pointer is in the parent's region. */
  function DoFork(m: Machine): Machine
    requires Shape(m) && PointsInto(m.current, m.procs[m.current].regs.esp) && m.procs[m.current].state == RUNNABLE
  {
    var i := FirstEmpty(m.procs, 1);
    if i == NPROCS then SetEax(m, m.current, -1)
    else
      var m1 := m.(procs := m.procs[i := m.procs[i].(state := RUNNABLE, regs := m.procs[m.current].regs)]);
      var m2 := SetEax(CopyStack(m1, i, m.current), i, 0);
      SetEax(m2.(procs := m2.procs[i := m2.procs[i].(waitQueue := 0)]), m.current, i)
  }

  function DoExit(m: Machine): Machine
    requires Shape(m) && m.procs[m.current].waitQueue < NPROCS
  {
    var c := m.procs[m.current];
    var m1 := m.(procs := m.procs[m.current := c.(state := ZOMBIE, exitStatus := c.regs.eax)]);
    if c.waitQueue == 0 then m1
    else
      var w := m1.procs[c.waitQueue];
      m1.(procs := m1.procs[c.waitQueue := w.(state := RUNNABLE, regs := w.regs.(eax := c.regs.eax))])
  }

  function DoWait(m: Machine): Machine
    requires Shape(m)
  {
    var p := m.procs[m.current].regs.eax;
    if p <= 0 || p >= NPROCS || p == m.current || m.procs[p].state == EMPTY then SetEax(m, m.current, -1)
    else if m.procs[p].state == ZOMBIE then
      var m1 := SetEax(m, m.current, m.procs[p].exitStatus);
      m1.(procs := m1.procs[p := m1.procs[p].(state := EMPTY)])
    else
      var ps := m.procs[m.current := m.procs[m.current].(state := BLOCKED)];
      m.(procs := ps[p := ps[p].(waitQueue := m.current)])
  }

  /** A thread in slot i, with its stack pointer at the base of its region. */
  function ThreadProc(m: Machine, i: nat): Proc
    requires Shape(m) && 0 < i < NPROCS
  {
    var c := m.procs[m.current];
    var regs := c.regs.(eip := c.regs.eax, eax := 0, esp := STACK_ADDR + (i - 1) * 0x040000);
    m.procs[i].(state := RUNNABLE, regs := regs, waitQueue := 0)
  }

  /** do_newthread and the store of its result; the start address is the argument. */
  function DoNewThread(m: Machine): Machine
    requires Shape(m)
  {
    var i := FirstEmpty(m.procs, 1);
    if i == NPROCS then SetEax(m, m.current, -1)
    else SetEax(m.(procs := m.procs[i := ThreadProc(m, i)]), m.current, i)
  }

  /** sys_kill; a killed process's waiter, or whoever its wait queue still names, wakes. */
  function DoKill(m: Machine): Machine
    requires Shape(m) && Queues(m.procs)
  {
    var p := m.procs[m.current].regs.eax;
    if p <= 0 || p >= NPROCS || p == m.current || m.procs[p].state == EMPTY then SetEax(m, m.current, -1)
    else
      var m1 := SetEax(m, m.current, 0);
      var w := m.procs[p].waitQueue;
      var victim := if m.procs[p].state == ZOMBIE then m1.procs[p].(exitStatus := 0)
        else m1.procs[p].(state := EMPTY, exitStatus := -1);
      var m2 := m1.(procs := m1.procs[p := victim]);
      if w == 0 then m2
      else
        var m3 := SetEax(m2.(procs := m2.procs[w := m2.procs[w].(state := RUNNABLE)]), w, 0);
        m3.(procs := m3.procs[p := m3.procs[p].(state := EMPTY)])
  }

  /** The registers the current process trapped with. */
  function Save(m: Machine, regs: Regs, mem: seq<Byte>): Machine
    requires m.current < |m.procs|
  {
    m.(procs := m.procs[m.current := m.procs[m.current].(regs := regs)], mem := mem)
  }

  /** interrupt(): the current process has run, perhaps written memory, and makes a call. */
  function Step(m: Machine, call: Call, regs: Regs, mem: seq<Byte>): Option<Machine>
    requires Inv(m) && Legal(m, call, regs, mem)
  {
    var m1 := Save(m, regs, mem);
    match call
    case GetPid => Some(SetEax(m1, m.current, m.current))
    case Fork => Some(DoFork(m1))
    case NewThread => Some(DoNewThread(m1))
    case Yield => Schedule(m1)
    case Exit => Schedule(DoExit(m1))
    case Kill => Some(DoKill(m1))
    case Wait => Schedule(DoWait(m1))
  }

  predicate Legal(m: Machine, call: Call, regs: Regs, mem: seq<Byte>) {
    |mem| == |m.mem| && (call == Fork ==> PointsInto(m.current, regs.esp))
  }

  // -------------------------------------------------------------------------
  // The invariant
  // -------------------------------------------------------------------------

  predicate Live(p: Proc) { p.state == RUNNABLE || p.state == BLOCKED }

  /** Slot 0 is empty, the current process is runnable, and a process is blocked exactly when
      a live process names it in its wait queue: the one whose number it passed to sys_wait,
      which its %eax still holds. */
  predicate Inv(m: Machine) {
    && Shape(m) && m.procs[0].state == EMPTY && m.procs[m.current].state == RUNNABLE
    && Queues(m.procs) && Waits(m.procs)
  }

  /** Wait queues name slots, and no process names itself. */
  predicate Queues(ps: seq<Proc>) {
    forall i | 0 <= i < |ps| :: ps[i].waitQueue < |ps| && (ps[i].waitQueue == i ==> i == 0)
  }

  predicate Names(ps: seq<Proc>, q: nat, w: nat) {
    q < |ps| && Live(ps[q]) && ps[q].waitQueue == w && w != 0
  }

  /** Whoever a live process names is blocked, and waits for that process. */
  predicate Backed(ps: seq<Proc>) {
    forall q | 0 <= q < |ps| && Live(ps[q]) && ps[q].waitQueue != 0 :: WaitsFor(ps, ps[q].waitQueue, q)
  }

  predicate WaitsFor(ps: seq<Proc>, w: nat, q: nat) {
    w < |ps| && ps[w].state == BLOCKED && ps[w].regs.eax == q
  }

  /** Every blocked process is named. */
  predicate Named(ps: seq<Proc>) {
    forall w | 0 <= w < |ps| && ps[w].state == BLOCKED :: exists q | 0 <= q < |ps| :: Names(ps, q, w)
  }

  predicate Waits(ps: seq<Proc>) { Backed(ps) && Named(ps) }

  /** Exit statuses play no part in the invariant, nor the registers of processes that are not
      blocked. */
  lemma SameWaits(ps: seq<Proc>, ps': seq<Proc>)
    requires |ps'| == |ps| && forall i | 0 <= i < |ps| ::
      ps'[i].state == ps[i].state && ps'[i].waitQueue == ps[i].waitQueue
    requires forall i | 0 <= i < |ps| && ps[i].state == BLOCKED :: ps'[i].regs == ps[i].regs
    ensures Waits(ps') <==> Waits(ps)
  {
    forall q, w ensures Names(ps', q, w) <==> Names(ps, q, w) { }
    forall q, w ensures WaitsFor(ps', w, q) <==> WaitsFor(ps, w, q) { }
  }

  /** A new process that nobody waits for. */
  lemma BornWaits(ps: seq<Proc>, i: nat, child: Proc)
    requires Waits(ps) && i < |ps| && ps[i].state == EMPTY && child.state == RUNNABLE && child.waitQueue == 0
    ensures Waits(ps[i := child])
  {
    var ps' := ps[i := child];
    forall w | 0 <= w < |ps'| && ps'[w].state == BLOCKED ensures exists q | 0 <= q < |ps'| :: Names(ps', q, w) {
      var q :| 0 <= q < |ps| && Names(ps, q, w);
      assert Names(ps', q, w);
    }
  }

  /** A runnable process exits and its waiter, if any, wakes. */
  lemma ExitWaits(ps: seq<Proc>, c: nat, ps': seq<Proc>)
    requires Waits(ps) && c < |ps| == |ps'| && ps[c].state == RUNNABLE
    requires ps'[c].state == ZOMBIE
    requires forall i | 0 <= i < |ps| && i != c :: ps'[i].waitQueue == ps[i].waitQueue
    requires forall i | 0 <= i < |ps| && i != c ::
      ps'[i].state == if i == ps[c].waitQueue && i != 0 then RUNNABLE else ps[i].state
    requires forall i | 0 <= i < |ps| && ps'[i].state == BLOCKED :: ps'[i].regs == ps[i].regs
    ensures Waits(ps')
  {
    forall q | 0 <= q < |ps'| && Live(ps'[q]) && ps'[q].waitQueue != 0 ensures WaitsFor(ps', ps'[q].waitQueue, q) {
      assert Live(ps[q]) && WaitsFor(ps, ps[q].waitQueue, q);
      if ps[c].waitQueue != 0 { assert WaitsFor(ps, ps[c].waitQueue, c); }
    }
    forall w | 0 <= w < |ps'| && ps'[w].state == BLOCKED ensures exists q | 0 <= q < |ps'| :: Names(ps', q, w) {
      var q :| 0 <= q < |ps| && Names(ps, q, w);
      assert q != c && Names(ps', q, w);
    }
  }

  /** c, runnable so far, has become the waiter of p, and all else is as before. */
  predicate Blocks(ps: seq<Proc>, c: nat, p: nat, ps': seq<Proc>) {
    && 0 < c < |ps| == |ps'| && p < |ps| && p != c && ps[c].state == RUNNABLE && Live(ps[p])
    && ps'[c].state == BLOCKED && ps'[c].waitQueue == ps[c].waitQueue && ps'[c].regs.eax == p
    && ps'[p].state == ps[p].state && ps'[p].waitQueue == c && ps'[p].regs == ps[p].regs
    && forall i | 0 <= i < |ps| && i != c && i != p :: ps'[i] == ps[i]
  }

  lemma FirstNamed(ps: seq<Proc>, c: nat, p: nat, ps': seq<Proc>)
    requires Named(ps) && Blocks(ps, c, p, ps') && ps[p].waitQueue == 0
    ensures Named(ps')
  {
    forall w | 0 <= w < |ps'| && ps'[w].state == BLOCKED ensures exists q | 0 <= q < |ps'| :: Names(ps', q, w) {
      if w == c {
        assert Names(ps', p, w);
      } else {
        var q :| 0 <= q < |ps| && Names(ps, q, w);
        assert Names(ps', q, w);
      }
    }
  }

  lemma FirstBacked(ps: seq<Proc>, c: nat, p: nat, ps': seq<Proc>)
    requires Backed(ps) && Blocks(ps, c, p, ps') && ps[p].waitQueue == 0
    ensures Backed(ps')
  {
    forall q | 0 <= q < |ps'| && Live(ps'[q]) && ps'[q].waitQueue != 0 ensures WaitsFor(ps', ps'[q].waitQueue, q) {
      if q != p { assert Live(ps[q]) && WaitsFor(ps, ps[q].waitQueue, q); }
    }
  }

  /** A runnable process blocks on another: one waiter more, in the place of any earlier one. */
  lemma WaitWaits(ps: seq<Proc>, c: nat, p: nat, ps': seq<Proc>)
    requires Waits(ps) && Blocks(ps, c, p, ps')
    ensures Waits(ps') <==> ps[p].waitQueue == 0
  {
    if ps[p].waitQueue == 0 {
      hide Backed, Named, Blocks;
      FirstNamed(ps, c, p, ps');
      FirstBacked(ps, c, p, ps');
    } else {
      hide Backed, Named;
      Forgotten(ps, c, p, ps');
    }
  }

  /** The earlier waiter stays blocked and nobody names it any more. */
  lemma Forgotten(ps: seq<Proc>, c: nat, p: nat, ps': seq<Proc>)
    requires Waits(ps) && Blocks(ps, c, p, ps') && ps[p].waitQueue != 0
    ensures ps[p].waitQueue < |ps'| && ps'[ps[p].waitQueue].state == BLOCKED
    ensures forall q: nat :: !Names(ps', q, ps[p].waitQueue)
    ensures !Waits(ps')
  {
    var w := ps[p].waitQueue;
    assert WaitsFor(ps, w, p);
    forall q: nat | q < |ps| && Live(ps[q]) && ps[q].waitQueue == w ensures q == p {
      assert WaitsFor(ps, w, q);
    }
    forall q: nat ensures !Names(ps', q, w) { }
  }

  lemma {:induction false} NextNotZero(ps: seq<Proc>, pid: nat, n: nat)
    requires |ps| == NPROCS && ps[0].state == EMPTY
    ensures NextRunnable(ps, pid, n).Some? ==> NextRunnable(ps, pid, n).value > 0
    decreases n
  {
    if n > 0 { NextNotZero(ps, (pid + 1) % NPROCS, n - 1); }
  }

  lemma ScheduleInv(m: Machine)
    requires Shape(m) && m.procs[0].state == EMPTY && Waits(m.procs) && Queues(m.procs)
    ensures Schedule(m).Some? ==> Inv(Schedule(m).value)
  {
    hide Waits;
    NextNotZero(m.procs, m.current, NPROCS);
  }

  /** A wait for a live process that already has a waiter. */
  predicate Overwrites(m: Machine, call: Call, regs: Regs) {
    call == Wait && |m.procs| == NPROCS && 0 < regs.eax < NPROCS && regs.eax != m.current
    && Live(m.procs[regs.eax]) && m.procs[regs.eax].waitQueue != 0
  }

  /** A kill of a blocked process; or of a zombie whose wait queue still names a process that
      now waits for somebody else, or a dead slot with a wait queue of its own. */
  predicate Misfires(m: Machine, call: Call, regs: Regs) {
    && call == Kill && |m.procs| == NPROCS && 0 < regs.eax < NPROCS && regs.eax != m.current
    && var p := m.procs[regs.eax];
       || p.state == BLOCKED
       || (p.state == ZOMBIE && 0 < p.waitQueue < NPROCS
           && var w := m.procs[p.waitQueue]; w.state == BLOCKED || (!Live(w) && w.waitQueue != 0))
  }

  predicate Disrupts(m: Machine, call: Call, regs: Regs) { Overwrites(m, call, regs) || Misfires(m, call, regs) }

  /** The table after a call, before the scheduler picks a process. */
  function Called(m: Machine, call: Call, regs: Regs, mem: seq<Byte>): Machine
    requires Inv(m) && Legal(m, call, regs, mem)
  {
    var m1 := Save(m, regs, mem);
    match call
    case GetPid => SetEax(m1, m.current, m.current)
    case Fork => DoFork(m1)
    case NewThread => DoNewThread(m1)
    case Yield => m1
    case Exit => DoExit(m1)
    case Kill => DoKill(m1)
    case Wait => DoWait(m1)
  }

  /** Every call keeps blocked processes and wait queues in step, except a wait that overwrites
      an earlier waiter and a kill that misfires. */
  lemma CallWaits(m: Machine, call: Call, regs: Regs, mem: seq<Byte>)
    requires Inv(m) && Legal(m, call, regs, mem)
    ensures var m1 := Called(m, call, regs, mem);
            Steady(m, m1) && (Waits(m1.procs) <==> !Disrupts(m, call, regs))
  {
    hide Waits, DoFork, DoExit, DoWait, DoKill, DoNewThread;
    var m0 := Save(m, regs, mem);
    SameWaits(m.procs, m0.procs);
    Waiter(m0.procs, m.current);
    match call
    case GetPid => SameWaits(m0.procs, Called(m, call, regs, mem).procs);
    case Yield =>
    case Fork => ForkWaits(m0);
    case NewThread => ThreadWaits(m0);
    case Exit => ExitCall(m0);
    case Kill => KillCall(m0);
    case Wait => WaitCall(m0);
  }

  /** The table is of the right shape, slot 0 is empty, wait queues name slots, and `current`
      has not moved. */
  predicate Steady(m: Machine, m1: Machine) {
    Shape(m1) && m1.current == m.current && m1.procs[0].state == EMPTY && Queues(m1.procs)
  }

  lemma ExitCall(m: Machine)
    requires Shape(m) && m.procs[0].state == EMPTY && m.procs[m.current].state == RUNNABLE && Waits(m.procs)
      && Queues(m.procs)
    requires m.procs[m.current].waitQueue != 0 ==> WaitsFor(m.procs, m.procs[m.current].waitQueue, m.current)
    ensures Steady(m, DoExit(m)) && Waits(DoExit(m).procs)
  {
    hide Waits;
    ExitWaits(m.procs, m.current, DoExit(m).procs);
  }

  lemma WaitCall(m: Machine)
    requires Shape(m) && m.procs[0].state == EMPTY && m.procs[m.current].state == RUNNABLE && Waits(m.procs)
      && Queues(m.procs)
    ensures Steady(m, DoWait(m))
    ensures Waits(DoWait(m).procs) <==> !Overwrites(m, Wait, m.procs[m.current].regs)
  {
    hide Waits;
    var p := m.procs[m.current].regs.eax;
    if p <= 0 || p >= NPROCS || p == m.current || m.procs[p].state == EMPTY {
      SameWaits(m.procs, DoWait(m).procs);
    } else if m.procs[p].state == ZOMBIE {
      var ps := SetEax(m, m.current, m.procs[p].exitStatus).procs;
      SameWaits(m.procs, ps);
      ReapWaits(ps, p, DoWait(m).procs);
    } else {
      WaitWaits(m.procs, m.current, p, DoWait(m).procs);
    }
  }

  /** Slot i has become a process that nobody waits for. */
  predicate Taken(m: Machine, i: nat, m1: Machine) {
    && |m.procs| == |m1.procs| && i < |m.procs| && m.procs[i].state == EMPTY
    && m1.procs[i].state == RUNNABLE && m1.procs[i].waitQueue == 0
    && (forall j | 0 <= j < |m.procs| && j != i ::
          m1.procs[j].state == m.procs[j].state && m1.procs[j].waitQueue == m.procs[j].waitQueue)
    && (forall j | 0 <= j < |m.procs| && m.procs[j].state == BLOCKED :: m1.procs[j].regs == m.procs[j].regs)
  }

  lemma TakenWaits(m: Machine, i: nat, m1: Machine)
    requires Taken(m, i, m1) && Waits(m.procs) && Queues(m.procs)
    ensures Waits(m1.procs) && Queues(m1.procs)
  {
    hide Waits;
    var child := m1.procs[i];
    BornWaits(m.procs, i, child);
    SameWaits(m.procs[i := child], m1.procs);
  }

  lemma ThreadTakes(m: Machine, i: nat)
    requires Shape(m) && m.procs[m.current].state == RUNNABLE && i == FirstEmpty(m.procs, 1) < NPROCS
    ensures Taken(m, i, DoNewThread(m))
  {
    hide FirstEmpty;
  }

  lemma ThreadWaits(m: Machine)
    requires Shape(m) && m.procs[m.current].state == RUNNABLE && Waits(m.procs)
    requires m.procs[0].state == EMPTY && Queues(m.procs)
    ensures Steady(m, DoNewThread(m)) && Waits(DoNewThread(m).procs)
  {
    var i := FirstEmpty(m.procs, 1);
    hide Waits, FirstEmpty, ThreadProc;
    if i < NPROCS {
      ThreadTakes(m, i);
      hide Taken;
      TakenWaits(m, i, DoNewThread(m));
      hide Queues;
    } else {
      SameWaits(m.procs, DoNewThread(m).procs);
    }
  }

  /** A process that nobody waits for goes, and its waiter, if any, wakes. */
  lemma KilledWaits(ps: seq<Proc>, p: nat, ps': seq<Proc>)
    requires Waits(ps) && Queues(ps) && p < |ps| == |ps'| && ps[p].state == RUNNABLE && ps'[p].state == EMPTY
    requires forall i | 0 <= i < |ps| && i != p :: ps'[i].waitQueue == ps[i].waitQueue
    requires forall i | 0 <= i < |ps| && i != p ::
      ps'[i].state == if i == ps[p].waitQueue && i != 0 then RUNNABLE else ps[i].state
    requires forall i | 0 <= i < |ps| && ps'[i].state == BLOCKED :: ps'[i].regs == ps[i].regs
    ensures Waits(ps')
  {
    var ps1 := ps'[p := ps'[p].(state := ZOMBIE)];
    ExitWaits(ps, p, ps1);
    ReapWaits(ps1, p, ps');
  }

  /** Killing a blocked process leaves somebody who names it. */
  lemma KilledNamed(ps: seq<Proc>, p: nat, ps': seq<Proc>)
    requires Waits(ps) && Queues(ps) && p < |ps| == |ps'| && ps[p].state == BLOCKED && ps'[p].state == EMPTY
    requires forall i | 0 <= i < |ps| && i != p :: ps'[i].waitQueue == ps[i].waitQueue && (Live(ps[i]) ==> Live(ps'[i]))
    ensures !Waits(ps')
  {
    var q :| 0 <= q < |ps| && Names(ps, q, p);
    assert q != p && Live(ps'[q]) && !WaitsFor(ps', p, q);
  }

  /** Killing a zombie makes whoever its wait queue names runnable. */
  lemma StaleWakes(ps: seq<Proc>, p: nat, w: nat, ps': seq<Proc>)
    requires Waits(ps) && Queues(ps) && p < |ps| == |ps'| && ps[p].state == ZOMBIE && w == ps[p].waitQueue != 0
    requires ps'[p].state == EMPTY && ps'[w].state == RUNNABLE && ps'[w].waitQueue == ps[w].waitQueue
    requires forall i | 0 <= i < |ps| && i != p && i != w ::
      ps'[i].state == ps[i].state && ps'[i].waitQueue == ps[i].waitQueue
    requires forall i | 0 <= i < |ps| && ps'[i].state == BLOCKED :: ps'[i].regs == ps[i].regs
    ensures Waits(ps') <==> ps[w].state == RUNNABLE || (!Live(ps[w]) && ps[w].waitQueue == 0)
  {
    if ps[w].state == BLOCKED {
      var q :| 0 <= q < |ps| && Names(ps, q, w);
      assert q != w && q != p && Live(ps'[q]) && !WaitsFor(ps', w, q);
    } else if !Live(ps[w]) && ps[w].waitQueue != 0 {
      var x := ps[w].waitQueue;
      if ps[x].state == BLOCKED {
        var q :| 0 <= q < |ps| && Names(ps, q, x);
        assert WaitsFor(ps, x, q) && q != w;
      }
      assert !WaitsFor(ps', x, w);
    } else {
      forall q | 0 <= q < |ps'| && Live(ps'[q]) && ps'[q].waitQueue != 0 ensures WaitsFor(ps', ps'[q].waitQueue, q) {
        assert Live(ps[q]) && WaitsFor(ps, ps[q].waitQueue, q);
      }
      forall v | 0 <= v < |ps'| && ps'[v].state == BLOCKED ensures exists q | 0 <= q < |ps'| :: Names(ps', q, v) {
        var q :| 0 <= q < |ps| && Names(ps, q, v);
        assert Names(ps', q, v);
      }
    }
  }

  lemma KillCall(m: Machine)
    requires Shape(m) && m.procs[0].state == EMPTY && m.procs[m.current].state == RUNNABLE && Waits(m.procs)
      && Queues(m.procs)
    ensures Steady(m, DoKill(m))
    ensures Waits(DoKill(m).procs) <==> !Misfires(m, Kill, m.procs[m.current].regs)
  {
    hide Waits;
    var p := m.procs[m.current].regs.eax;
    var ps, ps' := m.procs, DoKill(m).procs;
    if p <= 0 || p >= NPROCS || p == m.current || ps[p].state == EMPTY {
      SameWaits(ps, ps');
    } else if ps[p].state == RUNNABLE {
      Waiter(ps, p);
      KilledWaits(ps, p, ps');
    } else if ps[p].state == BLOCKED {
      KilledNamed(ps, p, ps');
    } else if ps[p].waitQueue == 0 {
      SameWaits(ps, ps');
    } else {
      StaleWakes(ps, p, ps[p].waitQueue, ps');
    }
  }

  lemma ForkTakes(m: Machine, i: nat)
    requires Shape(m) && PointsInto(m.current, m.procs[m.current].regs.esp) && m.procs[m.current].state == RUNNABLE
    requires i == FirstEmpty(m.procs, 1) < NPROCS
    ensures Taken(m, i, DoFork(m)) && DoFork(m).current == m.current && |DoFork(m).mem| == |m.mem|
  {
    hide DoFork, StackCopy, FirstEmpty, CopyRange;
    ForkTable(m, i);
  }

  lemma ForkWaits(m: Machine)
    requires Shape(m) && PointsInto(m.current, m.procs[m.current].regs.esp) && m.procs[m.current].state == RUNNABLE
    requires m.procs[0].state == EMPTY && Queues(m.procs) && Waits(m.procs)
    ensures Steady(m, DoFork(m)) && Waits(DoFork(m).procs)
  {
    var i := FirstEmpty(m.procs, 1);
    hide Waits, FirstEmpty;
    if i < NPROCS {
      hide DoFork;
      ForkTakes(m, i);
      TakenWaits(m, i, DoFork(m));
    } else {
      SameWaits(m.procs, DoFork(m).procs);
    }
  }

  lemma Waiter(ps: seq<Proc>, c: nat)
    requires Waits(ps) && c < |ps| && ps[c].state == RUNNABLE
    ensures ps[c].waitQueue != 0 ==> WaitsFor(ps, ps[c].waitQueue, c)
  {
  }

  lemma ReapWaits(ps: seq<Proc>, p: nat, ps': seq<Proc>)
    requires Waits(ps) && p < |ps| == |ps'| && ps[p].state == ZOMBIE && ps'[p].state == EMPTY
    requires forall i | 0 <= i < |ps| && i != p :: ps'[i] == ps[i]
    ensures Waits(ps')
  {
    forall q | 0 <= q < |ps'| && Live(ps'[q]) && ps'[q].waitQueue != 0 ensures WaitsFor(ps', ps'[q].waitQueue, q) {
      assert WaitsFor(ps, ps[q].waitQueue, q);
    }
    forall w | 0 <= w < |ps'| && ps'[w].state == BLOCKED ensures exists q | 0 <= q < |ps'| :: Names(ps', q, w) {
      var q :| 0 <= q < |ps| && Names(ps, q, w);
      assert Names(ps', q, w);
    }
  }

  /** One trap: the invariant holds afterwards exactly when the call neither overwrites a
      waiter nor is a kill that misfires. */
  lemma StepKeeps(m: Machine, call: Call, regs: Regs, mem: seq<Byte>)
    requires Inv(m) && Legal(m, call, regs, mem) && Step(m, call, regs, mem).Some?
    ensures Inv(Step(m, call, regs, mem).value) <==> !Disrupts(m, call, regs)
  {
    hide Waits, Disrupts, Queues, DoFork, DoExit, DoWait, DoKill, DoNewThread;
    CallWaits(m, call, regs, mem);
    var m1 := Called(m, call, regs, mem);
    if Waits(m1.procs) { ScheduleInv(m1); }
    if StaysOn(call) { StillRunning(m, call, regs, mem); }
  }

  /** Calls after which the same process runs on. */
  predicate StaysOn(call: Call) { call == Fork || call == GetPid || call == NewThread || call == Kill }

  lemma StillRunning(m: Machine, call: Call, regs: Regs, mem: seq<Byte>)
    requires Inv(m) && Legal(m, call, regs, mem) && StaysOn(call)
    ensures var m1 := Called(m, call, regs, mem);
            m1.current == m.current && |m1.procs| == NPROCS && m1.procs[m.current].state == RUNNABLE
  {
    hide Waits, DoFork, DoNewThread, DoKill;
    var m0 := Save(m, regs, mem);
    match call
    case Fork => ForkRuns(m0);
    case NewThread => ThreadRuns(m0);
    case Kill => KillRuns(m0);
    case _ =>
  }

  lemma ThreadRuns(m: Machine)
    requires Shape(m) && m.procs[m.current].state == RUNNABLE
    ensures var m1 := DoNewThread(m);
            m1.current == m.current && |m1.procs| == NPROCS
            && m1.procs[m.current].state == RUNNABLE
  {
  }

  lemma KillRuns(m: Machine)
    requires Shape(m) && Queues(m.procs) && m.procs[m.current].state == RUNNABLE
    ensures var m1 := DoKill(m);
            m1.current == m.current && |m1.procs| == NPROCS
            && m1.procs[m.current].state == RUNNABLE
  {
  }

  lemma ForkRuns(m: Machine)
    requires Shape(m) && PointsInto(m.current, m.procs[m.current].regs.esp) && m.procs[m.current].state == RUNNABLE
    ensures var m1 := DoFork(m);
            m1.current == m.current && |m1.procs| == NPROCS
            && m1.procs[m.current].state == RUNNABLE
  {
    hide StackCopy;
  }

  /** A trap of the running process. */
  datatype Trap = Trap(call: Call, regs: Regs, mem: seq<Byte>)

  /** Each trap waits for nobody who has a waiter, kills only where that does not misfire, and
      forks with a stack pointer in its own region, as long as the table is in order.  That it
      always is is what RunsKeepInv proves. */
  predicate Polite(m: Machine, traps: seq<Trap>)
    decreases |traps|
  {
    traps == []
    || (Inv(m) ==>
          && Legal(m, traps[0].call, traps[0].regs, traps[0].mem) && !Disrupts(m, traps[0].call, traps[0].regs)
          && var r := Step(m, traps[0].call, traps[0].regs, traps[0].mem); (r.Some? ==> Polite(r.value, traps[1..])))
  }

  /** The machine after the traps, or None once the kernel spins. */
  function Run(m: Machine, traps: seq<Trap>): Option<Machine>
    requires Polite(m, traps)
    decreases |traps|
  {
    if traps == [] || !Inv(m) then Some(m)
    else
      var r := Step(m, traps[0].call, traps[0].regs, traps[0].mem);
      if r.None? then None else Run(r.value, traps[1..])
  }

  /** Over all runs of such traps: slot 0 never runs, and a process is
      blocked exactly when one live process names it, the one it waits for. */
  lemma {:induction false} RunsKeepInv(m: Machine, traps: seq<Trap>)
    requires Inv(m) && Polite(m, traps) && Run(m, traps).Some?
    ensures Inv(Run(m, traps).value)
    decreases |traps|
  {
    hide Inv, Step, Legal, Disrupts;
    if traps != [] {
      StepKeeps(m, traps[0].call, traps[0].regs, traps[0].mem);
      RunsKeepInv(Step(m, traps[0].call, traps[0].regs, traps[0].mem).value, traps[1..]);
    }
  }

  /** What the invariant says of one blocked process. */
  lemma BlockedHasOneOwner(m: Machine, w: nat)
    requires Inv(m) && 0 < w < NPROCS
    ensures m.procs[w].state == BLOCKED <==> exists q: nat :: Names(m.procs, q, w)
    ensures forall q: nat | Names(m.procs, q, w) :: m.procs[w].regs.eax == q
  {
    forall q: nat | Names(m.procs, q, w) ensures WaitsFor(m.procs, w, q) { }
    if m.procs[w].state == BLOCKED {
      var q: nat :| q < |m.procs| && Names(m.procs, q, w);
    }
  }

  /** sys_exit wakes the waiter, which waited for this process, with the exit status as the
      result of its wait. */
  lemma ExitWakes(m: Machine, regs: Regs, mem: seq<Byte>)
    requires Inv(m) && |mem| == |m.mem| && m.procs[m.current].waitQueue != 0
    ensures var w := m.procs[m.current].waitQueue;
            var m1 := Called(m, Exit, regs, mem);
            && 0 < w < NPROCS && m.procs[w].state == BLOCKED && w != m.current && m.procs[w].regs.eax == m.current
            && m1.procs[w].state == RUNNABLE && m1.procs[w].regs == m.procs[w].regs.(eax := regs.eax)
            && m1.procs[m.current].state == ZOMBIE && m1.procs[m.current].exitStatus == regs.eax
            && Step(m, Exit, regs, mem).Some?
  {
    var w := m.procs[m.current].waitQueue;
    var m1 := Called(m, Exit, regs, mem);
    hide Waits;
    SomeoneRuns(m1.procs, m.current, w);
  }

  /** If some process is runnable the search finds one. */
  lemma SomeoneRuns(ps: seq<Proc>, pid: nat, w: nat)
    requires |ps| == NPROCS && pid < NPROCS && w < NPROCS && ps[w].state == RUNNABLE
    ensures NextRunnable(ps, pid, NPROCS).Some?
  {
    var k := (w + NPROCS - pid - 1) % NPROCS;
    assert (pid + 1 + k) % NPROCS == w;
    Reaches(ps, pid, NPROCS, k);
  }

  lemma {:induction false} Reaches(ps: seq<Proc>, pid: nat, n: nat, k: nat)
    requires |ps| == NPROCS && k < n && ps[(pid + 1 + k) % NPROCS].state == RUNNABLE
    ensures NextRunnable(ps, pid, n).Some?
    decreases n
  {
    if ps[(pid + 1) % NPROCS].state != RUNNABLE {
      WrapAdd(pid + 1, k);
      Reaches(ps, (pid + 1) % NPROCS, n - 1, k - 1);
    }
  }

  lemma WrapAdd(a: nat, k: nat)
    ensures (a % NPROCS + k) % NPROCS == (a + k) % NPROCS
  {
    assert a == NPROCS * (a / NPROCS) + a % NPROCS;
  }

  /** What copying a parent's stack from esp up does to memory. */
  ghost predicate Copied(mem: seq<Byte>, parent: nat, i: nat, esp: nat, mem': seq<Byte>)
    requires |mem| == (NPROCS - 1) * STACK_SIZE && 0 < parent < NPROCS && 0 < i < NPROCS && PointsInto(parent, esp)
  {
    && |mem'| == |mem|
    && (forall a | esp <= a < Top(parent) :: At(mem', Shifted(parent, i, a)) == At(mem, a))
    && (forall a | STACK_ADDR <= a < STACK_ADDR + |mem| && !Owns(i, a) :: At(mem', a) == At(mem, a))
  }

  lemma CopyMemory(mem: seq<Byte>, parent: nat, i: nat, esp: nat)
    requires |mem| == (NPROCS - 1) * STACK_SIZE && 0 < parent < NPROCS && 0 < i < NPROCS && i != parent
      && PointsInto(parent, esp)
    ensures Copied(mem, parent, i, esp, StackCopy(mem, parent, i, esp))
  {
    hide CopyRange;
    var to, from, n := Shifted(parent, i, esp) - STACK_ADDR, esp - STACK_ADDR, Top(parent) - esp;
    forall a | esp <= a < Top(parent) ensures At(CopyRange(mem, to, from, n), Shifted(parent, i, a)) == At(mem, a) {
      CopyRangeAt(mem, to, from, n, Shifted(parent, i, a) - STACK_ADDR);
    }
    forall a | STACK_ADDR <= a < STACK_ADDR + |mem| && !Owns(i, a)
      ensures At(CopyRange(mem, to, from, n), a) == At(mem, a)
    {
      CopyRangeAt(mem, to, from, n, a - STACK_ADDR);
    }
  }

  /** copy_stack into another slot. */
  lemma CopyAt(m: Machine, i: nat, esp: nat)
    requires Shape(m) && 0 < i < NPROCS && i != m.current && PointsInto(m.current, esp)
      && esp == m.procs[m.current].regs.esp
    ensures Copied(m.mem, m.current, i, esp, CopyStack(m, i, m.current).mem)
  {
    hide Copied, StackCopy;
    CopyMemory(m.mem, m.current, i, esp);
  }

  /** What sys_fork does: the child gets an empty slot, the parent's registers but for %eax and
      %esp, and the parent's stack bytes at the same offset in its own region; no byte of any
      other region changes, and no other process. */
  ghost predicate Forked(m: Machine, i: nat, m': Machine)
    requires Shape(m) && PointsInto(m.current, m.procs[m.current].regs.esp)
  {
    var parent := m.procs[m.current];
    && 0 < i < NPROCS && i != m.current && m.procs[i].state == EMPTY && |m'.procs| == NPROCS && m'.current == m.current
    && m'.procs[m.current] == parent.(regs := parent.regs.(eax := i))
    && m'.procs[i].state == RUNNABLE && m'.procs[i].waitQueue == 0
    && m'.procs[i].regs.eax == 0 && m'.procs[i].regs.eip == parent.regs.eip
    && m'.procs[i].regs.others == parent.regs.others
    && PointsInto(i, m'.procs[i].regs.esp) && Top(i) - m'.procs[i].regs.esp == Top(m.current) - parent.regs.esp
    && Copied(m.mem, m.current, i, parent.regs.esp, m'.mem)
    && (forall j | 0 <= j < NPROCS && j != i && j != m.current :: m'.procs[j] == m.procs[j])
  }

  /** The process table after a fork. */
  lemma ForkTable(m: Machine, i: nat)
    requires Shape(m) && PointsInto(m.current, m.procs[m.current].regs.esp) && m.procs[m.current].state == RUNNABLE
    requires i == FirstEmpty(m.procs, 1) < NPROCS
    ensures DoFork(m).procs == ForkedTable(m, i)
    ensures DoFork(m).current == m.current && |DoFork(m).mem| == |m.mem|
  {
    hide StackCopy;
    assert DoFork(m).procs[i] == ForkedTable(m, i)[i];
    assert DoFork(m).procs[m.current] == ForkedTable(m, i)[m.current];
  }

  function ForkedTable(m: Machine, i: nat): seq<Proc>
    requires Shape(m) && PointsInto(m.current, m.procs[m.current].regs.esp) && 0 < i < NPROCS
  {
    var parent := m.procs[m.current];
    var regs := parent.regs.(eax := 0, esp := Shifted(m.current, i, parent.regs.esp));
    var child := Proc(RUNNABLE, regs, m.procs[i].exitStatus, 0);
    m.procs[i := child][m.current := parent.(regs := parent.regs.(eax := i))]
  }

  lemma ForkMemory(m: Machine, i: nat)
    requires Shape(m) && PointsInto(m.current, m.procs[m.current].regs.esp) && m.procs[m.current].state == RUNNABLE
    requires i == FirstEmpty(m.procs, 1) < NPROCS
    ensures DoFork(m).current == m.current && Copied(m.mem, m.current, i, m.procs[m.current].regs.esp, DoFork(m).mem)
  {
    hide Copied, StackCopy;
    var m1 := m.(procs := m.procs[i := m.procs[i].(state := RUNNABLE, regs := m.procs[m.current].regs)]);
    CopyAt(m1, i, m.procs[m.current].regs.esp);
  }

  /** sys_fork with an empty slot. */
  lemma ForkCopies(m: Machine)
    requires Shape(m) && PointsInto(m.current, m.procs[m.current].regs.esp) && m.procs[m.current].state == RUNNABLE
    requires FirstEmpty(m.procs, 1) < NPROCS
    ensures Forked(m, FirstEmpty(m.procs, 1), DoFork(m))
  {
    var i := FirstEmpty(m.procs, 1);
    ForkTable(m, i);
    ForkMemory(m, i);
    hide StackCopy, Copied, DoFork;
  }

  /** So every other process keeps its stack. */
  lemma ForkSparesStacks(m: Machine, q: nat, a: nat)
    requires Shape(m) && PointsInto(m.current, m.procs[m.current].regs.esp) && m.procs[m.current].state == RUNNABLE
    requires FirstEmpty(m.procs, 1) < NPROCS && 0 < q < NPROCS && q != FirstEmpty(m.procs, 1) && Owns(q, a)
    ensures |DoFork(m).mem| == |m.mem| && At(DoFork(m).mem, a) == At(m.mem, a)
  {
    hide DoFork, FirstEmpty, At;
    var i := FirstEmpty(m.procs, 1);
    ForkCopies(m);
    if Owns(i, a) { RegionsDisjoint(q, i, a); }
  }

  // -------------------------------------------------------------------------
  // The failing cases, from start() on
  // -------------------------------------------------------------------------

  /** start(): process 1 runs, with its stack pointer at the top of its region. */
  function Start(entry: int): Machine {
    var none := Proc(EMPTY, Regs(0, 0, 0, 0), 0, 0);
    Machine(seq(NPROCS, i => if i == 1 then Proc(RUNNABLE, Regs(0, Top(1), entry, 0), 0, 0) else none),
            seq((NPROCS - 1) * STACK_SIZE, _ => 0), 1)
  }

  /** Traps that keep the table in order lead from start() to m. */
  ghost predicate Reached(entry: int, m: Machine) {
    exists traps :: Polite(Start(entry), traps) && Run(Start(entry), traps) == Some(m)
  }

  lemma {:induction false} RunSnoc(m: Machine, traps: seq<Trap>, s: Machine, t: Trap, s': Machine)
    requires Inv(m) && Polite(m, traps) && Run(m, traps) == Some(s)
    requires Inv(s) && Legal(s, t.call, t.regs, t.mem) && !Disrupts(s, t.call, t.regs)
      && Step(s, t.call, t.regs, t.mem) == Some(s')
    ensures Polite(m, traps + [t]) && Run(m, traps + [t]) == Some(s')
    decreases |traps|
  {
    hide Inv, Step, Legal, Disrupts;
    if traps == [] {
      assert [] + [t] == [t] && [t][1..] == [];
      assert Polite(s', []) && Run(s', []) == Some(s');
    } else {
      var t0 := traps[0];
      StepKeeps(m, t0.call, t0.regs, t0.mem);
      RunSnoc(Step(m, t0.call, t0.regs, t0.mem).value, traps[1..], s, t, s');
      assert (traps + [t])[1..] == traps[1..] + [t];
    }
  }

  lemma ReachedStep(entry: int, s: Machine, t: Trap, s': Machine)
    requires Inv(Start(entry)) && Reached(entry, s)
    requires Inv(s) && Legal(s, t.call, t.regs, t.mem) && !Disrupts(s, t.call, t.regs)
      && Step(s, t.call, t.regs, t.mem) == Some(s')
    ensures Reached(entry, s')
  {
    hide Inv, Step, Legal, Disrupts, Start, Run, Polite;
    var traps :| Polite(Start(entry), traps) && Run(Start(entry), traps) == Some(s);
    RunSnoc(Start(entry), traps, s, t, s');
  }

  /** Processes 1..n are runnable, 1 is current, and nobody waits. */
  ghost predicate Ready(entry: int, m: Machine, n: nat) {
    && Inv(m) && Reached(entry, m) && n < NPROCS && m.current == 1
    && forall j | 0 <= j < NPROCS ::
         m.procs[j].state == (if 1 <= j <= n then RUNNABLE else EMPTY) && m.procs[j].waitQueue == 0
  }

  lemma StartReady(entry: int)
    ensures Ready(entry, Start(entry), 1)
  {
    assert Polite(Start(entry), []) && Run(Start(entry), []) == Some(Start(entry));
  }

  /** The registers with which a process traps. */
  function Call1(eax: int): Regs { Regs(eax, Top(1), 0, 0) }

  lemma FirstEmptyIs(ps: seq<Proc>, i: nat, k: nat)
    requires |ps| == NPROCS && i <= k < NPROCS && ps[k].state == EMPTY && forall j | i <= j < k :: ps[j].state != EMPTY
    ensures FirstEmpty(ps, i) == k
  {
    hide FirstEmpty;
  }

  lemma ForkReady(entry: int, m: Machine, n: nat) returns (m': Machine)
    requires Ready(entry, m, n) && n < NPROCS - 1 && Inv(Start(entry))
    ensures Ready(entry, m', n + 1)
  {
    hide Waits, Queues, DoFork, Reached, Start;
    var m0 := Save(m, Call1(0), m.mem);
    hide FirstEmpty;
    FirstEmptyIs(m0.procs, 1, n + 1);
    ForkTakes(m0, n + 1);
    StepKeeps(m, Fork, Call1(0), m.mem);
    m' := Step(m, Fork, Call1(0), m.mem).value;
    ReachedStep(entry, m, Trap(Fork, Call1(0), m.mem), m');
  }

  /** Process 1 is blocked on process p, and process 2 runs. */
  ghost predicate WaitingOn(entry: int, m: Machine, p: nat) {
    && Inv(m) && Reached(entry, m) && 0 < p < NPROCS && m.current == 2
    && m.procs[1].state == BLOCKED && m.procs[1].waitQueue == 0
    && m.procs[p].state == RUNNABLE && m.procs[p].waitQueue == 1
  }

  lemma FirstWait(entry: int, m: Machine, n: nat, p: nat) returns (m': Machine)
    requires Ready(entry, m, n) && 2 <= p <= n && Inv(Start(entry))
    ensures WaitingOn(entry, m', p)
  {
    hide Waits, Queues, Reached, Start;
    var m1 := DoWait(Save(m, Call1(p), m.mem));
    assert m1.procs[2].state == RUNNABLE;
    assert NextRunnable(m1.procs, 1, NPROCS) == Some(2);
    StepKeeps(m, Wait, Call1(p), m.mem);
    m' := Step(m, Wait, Call1(p), m.mem).value;
    ReachedStep(entry, m, Trap(Wait, Call1(p), m.mem), m');
  }

  /** Three processes from start() on: 1 waits for 3, then 2 waits for 3.  That breaks the
      invariant: 1 stays blocked and no process names it. */
  lemma OverwriteExample(entry: int) returns (m: Machine)
    ensures WaitingOn(entry, m, 3) && Legal(m, Wait, Call1(3), m.mem)
    ensures var r := Step(m, Wait, Call1(3), m.mem);
            r.Some? && !Inv(r.value) && r.value.procs[1].state == BLOCKED && forall q: nat ::
              !Names(r.value.procs, q, 1)
  {
    hide Inv, Start, Step, Reached, Run, Polite;
    StartReady(entry);
    var m2 := ForkReady(entry, Start(entry), 1);
    var m3 := ForkReady(entry, m2, 2);
    m := FirstWait(entry, m3, 3, 3);
    SecondWait(entry, m);
  }

  lemma SecondWait(entry: int, m: Machine)
    requires WaitingOn(entry, m, 3)
    ensures Legal(m, Wait, Call1(3), m.mem)
    ensures var r := Step(m, Wait, Call1(3), m.mem);
            r.Some? && !Inv(r.value) && r.value.procs[1].state == BLOCKED && forall q: nat ::
              !Names(r.value.procs, q, 1)
  {
    hide Waits, Queues, Reached;
    var m0 := Save(m, Call1(3), m.mem);
    SameWaits(m.procs, m0.procs);
    var m1 := DoWait(m0);
    Forgotten(m0.procs, 2, 3, m1.procs);
    assert NextRunnable(m1.procs, 2, NPROCS) == Some(3);
    StepKeeps(m, Wait, Call1(3), m.mem);
  }

  /** Two processes from start() on: 1 waits for 2, and 2 kills 1.  Slot 1 is empty then, but
      when 2 exits slot 1 runs again. */
  lemma KillExample(entry: int) returns (m: Machine)
    ensures WaitingOn(entry, m, 2) && Legal(m, Kill, Call1(1), m.mem)
    ensures var m1 := Called(m, Kill, Call1(1), m.mem);
            && !Inv(m1) && Shape(m1) && m1.current == 2 && m1.procs[1].state == EMPTY
            && m1.procs[2].waitQueue == 1 && DoExit(m1).procs[1].state == RUNNABLE
  {
    hide Inv, Start, Step, Reached, Run, Polite;
    StartReady(entry);
    var m2 := ForkReady(entry, Start(entry), 1);
    m := FirstWait(entry, m2, 2, 2);
    KillRevives(entry, m);
  }

  lemma KillRevives(entry: int, m: Machine)
    requires WaitingOn(entry, m, 2)
    ensures Legal(m, Kill, Call1(1), m.mem)
    ensures var m1 := Called(m, Kill, Call1(1), m.mem);
            && !Inv(m1) && Shape(m1) && m1.current == 2 && m1.procs[1].state == EMPTY
            && m1.procs[2].waitQueue == 1 && DoExit(m1).procs[1].state == RUNNABLE
  {
    hide Waits, Queues, Reached;
    CallWaits(m, Kill, Call1(1), m.mem);
  }

  /** State and wait queue of slots 1 to 3; the other slots are empty. */
  ghost predicate Rows(entry: int, m: Machine, current: nat, rows: seq<(State, nat)>) {
    && Inv(m) && Reached(entry, m) && m.current == current && |rows| == 3
    && (forall j | 1 <= j <= 3 :: m.procs[j].state == rows[j - 1].0 && m.procs[j].waitQueue == rows[j - 1].1)
    && (forall j | 3 < j < NPROCS :: m.procs[j].state == EMPTY && m.procs[j].waitQueue == 0)
    && m.procs[0].waitQueue == 0
  }

  /** The search comes round to slot 1. */
  lemma {:induction false} ComesRound(ps: seq<Proc>, pid: nat, n: nat)
    requires |ps| == NPROCS && 3 <= pid < NPROCS && n >= NPROCS + 1 - pid
    requires ps[0].state != RUNNABLE && ps[1].state == RUNNABLE
    requires forall j | 3 < j < NPROCS :: ps[j].state == EMPTY
    ensures NextRunnable(ps, pid, n) == Some(1)
    decreases NPROCS - pid
  {
    if pid + 1 < NPROCS {
      assert (pid + 1) % NPROCS == pid + 1;
      ComesRound(ps, pid + 1, n - 1);
    } else {
      assert (pid + 1) % NPROCS == 0;
      assert NextRunnable(ps, 0, n - 1) == Some(1);
    }
  }

  lemma RowsWait(entry: int, m: Machine) returns (m': Machine)
    requires Ready(entry, m, 3) && Inv(Start(entry))
    ensures Rows(entry, m', 2, [(BLOCKED, 0), (RUNNABLE, 1), (RUNNABLE, 0)])
  {
    hide Waits, Queues, Reached, Start;
    var m1 := DoWait(Save(m, Call1(2), m.mem));
    assert m1.procs[2].state == RUNNABLE;
    assert NextRunnable(m1.procs, 1, NPROCS) == Some(2);
    StepKeeps(m, Wait, Call1(2), m.mem);
    m' := Step(m, Wait, Call1(2), m.mem).value;
    ReachedStep(entry, m, Trap(Wait, Call1(2), m.mem), m');
  }

  lemma RowsExit(entry: int, m: Machine) returns (m': Machine)
    requires Rows(entry, m, 2, [(BLOCKED, 0), (RUNNABLE, 1), (RUNNABLE, 0)]) && Inv(Start(entry))
    ensures Rows(entry, m', 3, [(RUNNABLE, 0), (ZOMBIE, 1), (RUNNABLE, 0)])
  {
    hide Waits, Queues, Reached, Start;
    var m1 := DoExit(Save(m, Call1(0), m.mem));
    assert m1.procs[3].state == RUNNABLE;
    assert NextRunnable(m1.procs, 2, NPROCS) == Some(3);
    StepKeeps(m, Exit, Call1(0), m.mem);
    m' := Step(m, Exit, Call1(0), m.mem).value;
    ReachedStep(entry, m, Trap(Exit, Call1(0), m.mem), m');
  }

  lemma RowsYield(entry: int, m: Machine) returns (m': Machine)
    requires Rows(entry, m, 3, [(RUNNABLE, 0), (ZOMBIE, 1), (RUNNABLE, 0)]) && Inv(Start(entry))
    ensures Rows(entry, m', 1, [(RUNNABLE, 0), (ZOMBIE, 1), (RUNNABLE, 0)])
  {
    hide Waits, Queues, Reached, Start;
    var m1 := Save(m, Call1(0), m.mem);
    hide NextRunnable;
    ComesRound(m1.procs, 3, NPROCS);
    StepKeeps(m, Yield, Call1(0), m.mem);
    m' := Step(m, Yield, Call1(0), m.mem).value;
    ReachedStep(entry, m, Trap(Yield, Call1(0), m.mem), m');
  }

  lemma RowsWaitAgain(entry: int, m: Machine) returns (m': Machine)
    requires Rows(entry, m, 1, [(RUNNABLE, 0), (ZOMBIE, 1), (RUNNABLE, 0)]) && Inv(Start(entry))
    ensures Rows(entry, m', 3, [(BLOCKED, 0), (ZOMBIE, 1), (RUNNABLE, 1)])
  {
    hide Waits, Queues, Reached, Start;
    var m1 := DoWait(Save(m, Call1(3), m.mem));
    assert m1.procs[3].state == RUNNABLE && m1.procs[2].state == ZOMBIE;
    assert NextRunnable(m1.procs, 1, NPROCS) == Some(3);
    StepKeeps(m, Wait, Call1(3), m.mem);
    m' := Step(m, Wait, Call1(3), m.mem).value;
    ReachedStep(entry, m, Trap(Wait, Call1(3), m.mem), m');
  }

  /** Three processes from start() on: 1 waits for 2, which exits and stays a zombie; 1 waits for
      3, and 3 kills the zombie.  Its stale wait queue wakes 1, which 3 still names. */
  lemma ZombieExample(entry: int) returns (m: Machine)
    ensures Rows(entry, m, 3, [(BLOCKED, 0), (ZOMBIE, 1), (RUNNABLE, 1)]) && Legal(m, Kill, Call1(2), m.mem)
    ensures var m1 := Called(m, Kill, Call1(2), m.mem);
            !Inv(m1) && m1.current == 3 && m1.procs[1].state == RUNNABLE && Names(m1.procs, 3, 1)
  {
    hide Inv, Start, Step, Reached, Run, Polite;
    StartReady(entry);
    var m2 := ForkReady(entry, Start(entry), 1);
    m := ForkReady(entry, m2, 2);
    m := RowsWait(entry, m);
    m := RowsExit(entry, m);
    m := RowsYield(entry, m);
    m := RowsWaitAgain(entry, m);
    ZombieWakes(entry, m);
  }

  lemma ZombieWakes(entry: int, m: Machine)
    requires Rows(entry, m, 3, [(BLOCKED, 0), (ZOMBIE, 1), (RUNNABLE, 1)])
    ensures Legal(m, Kill, Call1(2), m.mem)
    ensures var m1 := Called(m, Kill, Call1(2), m.mem);
            !Inv(m1) && m1.current == 3 && m1.procs[1].state == RUNNABLE && Names(m1.procs, 3, 1)
  {
    hide Waits, Queues, Reached;
    CallWaits(m, Kill, Call1(2), m.mem);
  }
}
