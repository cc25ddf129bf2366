/** What each system call of weensyos1/mpos-kern.c returns and changes, slot by slot. */
module MposCalls {
  import opened Options
  import opened Mpos

  // -------------------------------------------------------------------------
  // The scheduler
  // -------------------------------------------------------------------------

  /** j slots after slot c, round the table. */
  function After(c: nat, j: nat): (q: nat)
    ensures q < NPROCS
  {
    (c + j) % NPROCS
  }

  /** q is the first runnable process met from c on, k slots after it. */
  ghost predicate FirstMet(ps: seq<Proc>, c: nat, q: nat, k: nat)
    requires |ps| == NPROCS
  {
    && 1 <= k <= NPROCS && q == After(c, k) && ps[q].state == RUNNABLE
    && forall j | 1 <= j < k :: ps[After(c, j)].state != RUNNABLE
  }

  /** The search goes round the table once and stops at the first runnable process. */
  lemma {:induction false} SearchOrder(ps: seq<Proc>, c: nat, pid: nat, d: nat, n: nat)
    requires |ps| == NPROCS && d + n == NPROCS && After(pid, 0) == After(c, d)
    requires forall j | 1 <= j <= d :: ps[After(c, j)].state != RUNNABLE
    ensures var r := NextRunnable(ps, pid, n);
            if r.Some? then exists k :: FirstMet(ps, c, r.value, k)
            else forall j | 1 <= j <= NPROCS :: ps[After(c, j)].state != RUNNABLE
    decreases n
  {
    if n > 0 {
      WrapAdd(c + d, 1);
      WrapAdd(pid, 1);
      var q := (pid + 1) % NPROCS;
      assert q == After(c, d + 1) == After(q, 0);
      hide After;
      if ps[q].state == RUNNABLE {
        assert FirstMet(ps, c, q, d + 1);
      } else {
        SearchOrder(ps, c, q, d + 1, n - 1);
      }
    }
  }

  /** schedule() runs the next runnable process in slot order, and spins only when none is. */
  lemma RunsNext(m: Machine)
    requires Shape(m)
    ensures var r := Schedule(m);
            if r.Some? then
              && r.value.procs == m.procs && r.value.mem == m.mem
              && exists k :: FirstMet(m.procs, m.current, r.value.current, k)
            else forall q | 0 <= q < NPROCS :: m.procs[q].state != RUNNABLE
  {
    hide NextRunnable, FirstMet;
    SearchOrder(m.procs, m.current, m.current, 0, NPROCS);
    if Schedule(m).None? {
      forall q | 0 <= q < NPROCS ensures m.procs[q].state != RUNNABLE {
        var j := if q > m.current then q - m.current else q + NPROCS - m.current;
        assert After(m.current, j) == q;
      }
    }
  }

  // -------------------------------------------------------------------------
  // Calls that return to the caller
  // -------------------------------------------------------------------------

  /** sys_getpid */
  lemma GetPidReturns(m: Machine, regs: Regs, mem: seq<Byte>)
    requires Inv(m) && |mem| == |m.mem|
    ensures var c := m.current;
            Step(m, GetPid, regs, mem) ==
              Some(Machine(m.procs[c := m.procs[c].(regs := regs.(eax := c))], mem, c))
  {
    var c := m.current;
    assert Step(m, GetPid, regs, mem).value.procs == m.procs[c := m.procs[c].(regs := regs.(eax := c))];
  }

  /** i is the empty slot that the search from 1 on finds. */
  ghost predicate LowestEmpty(ps: seq<Proc>, i: nat) {
    |ps| == NPROCS && 0 < i < NPROCS && ps[i].state == EMPTY && forall j | 0 < j < i :: ps[j].state != EMPTY
  }

  ghost predicate NoEmpty(ps: seq<Proc>) { |ps| == NPROCS && forall j | 0 < j < NPROCS :: ps[j].state != EMPTY }

  /** sys_newthread: the lowest empty slot runs from the address given, with the caller's other
      registers and its stack pointer at the base of its region.  The caller gets its number, or -1. */
  lemma NewThreadReturns(m: Machine, regs: Regs, mem: seq<Byte>, i: nat)
    requires Inv(m) && |mem| == |m.mem|
    ensures Step(m, NewThread, regs, mem).Some?
    ensures var r, c := Step(m, NewThread, regs, mem).value, m.current;
            && r.mem == mem && r.current == c && |r.procs| == NPROCS
            && (NoEmpty(m.procs) ==> r.procs == m.procs[c := m.procs[c].(regs := regs.(eax := -1))])
            && (LowestEmpty(m.procs, i) ==>
                  && i != c && r.procs[c] == m.procs[c].(regs := regs.(eax := i))
                  && r.procs[i] == Proc(RUNNABLE, Regs(0, STACK_ADDR + (i - 1) * STACK_SIZE, regs.eax, regs.others),
                                        m.procs[i].exitStatus, 0)
                  && forall j | 0 <= j < NPROCS && j != i && j != c :: r.procs[j] == m.procs[j])
  {
    hide FirstEmpty;
    SlotFound(m, regs, mem, i);
  }

  lemma SlotFound(m: Machine, regs: Regs, mem: seq<Byte>, i: nat)
    requires Inv(m)
    ensures var k := FirstEmpty(Save(m, regs, mem).procs, 1);
            (NoEmpty(m.procs) ==> k == NPROCS) && (LowestEmpty(m.procs, i) ==> k == i)
  {
    var ps := Save(m, regs, mem).procs;
    assert forall j | 0 <= j < NPROCS :: ps[j].state == m.procs[j].state;
    hide FirstEmpty;
  }

  lemma ForkStays(m: Machine)
    requires Shape(m) && PointsInto(m.current, m.procs[m.current].regs.esp) && m.procs[m.current].state == RUNNABLE
    ensures DoFork(m).current == m.current
  {
    hide FirstEmpty, StackCopy;
  }

  lemma NoFork(m: Machine)
    requires Shape(m) && PointsInto(m.current, m.procs[m.current].regs.esp) && m.procs[m.current].state == RUNNABLE
    requires FirstEmpty(m.procs, 1) == NPROCS
    ensures var c := m.current;
            DoFork(m) == m.(procs := m.procs[c := m.procs[c].(regs := m.procs[c].regs.(eax := -1))])
  {
    hide FirstEmpty, StackCopy;
  }

  lemma StepFork(m: Machine, regs: Regs, mem: seq<Byte>)
    requires Inv(m) && Legal(m, Fork, regs, mem)
    ensures var m0, c := Save(m, regs, mem), m.current;
            && Step(m, Fork, regs, mem) == Some(DoFork(m0)) && |m0.procs| == NPROCS && m0.mem == mem && m0.current == c
            && Shape(m0) && PointsInto(c, m0.procs[c].regs.esp) && m0.procs[c].state == RUNNABLE
            && m0.procs[c].regs == regs && c < NPROCS == |m.procs|
            && m0.procs[c := m0.procs[c].(regs := regs.(eax := -1))] ==
               m.procs[c := m.procs[c].(regs := regs.(eax := -1))]
  {
    hide DoFork, Waits;
  }

  /** sys_fork: the caller gets the number of the lowest empty slot, or -1; the child is a copy of it. */
  lemma ForkReturns(m: Machine, regs: Regs, mem: seq<Byte>, i: nat)
    requires Inv(m) && Legal(m, Fork, regs, mem)
    ensures Step(m, Fork, regs, mem).Some?
    ensures var r, c := Step(m, Fork, regs, mem).value, m.current;
            && (NoEmpty(m.procs) ==> r == Machine(m.procs[c := m.procs[c].(regs := regs.(eax := -1))], mem, c))
            && (LowestEmpty(m.procs, i) ==> r.current == c && Forked(Save(m, regs, mem), i, r))
  {
    var m0 := Save(m, regs, mem);
    SlotFound(m, regs, mem, i);
    StepFork(m, regs, mem);
    hide *;
    if FirstEmpty(m0.procs, 1) < NPROCS {
      ForkCopies(m0);
      ForkStays(m0);
    } else {
      NoFork(m0);
    }
  }

  /** A process number that sys_kill and sys_wait refuse. */
  predicate BadPid(m: Machine, p: int)
    requires |m.procs| == NPROCS
  {
    p <= 0 || p >= NPROCS || p == m.current || m.procs[p].state == EMPTY
  }

  /** What sys_kill makes of the table: -1 for a bad number, and 0 else.  A live process is gone, with
      exit status -1, and so is a zombie with a wait queue; another zombie's status becomes 0.  The
      process in the wait queue runs, with 0 from its wait. */
  ghost predicate Killed(m: Machine, regs: Regs, ps: seq<Proc>)
    requires Shape(m) && Queues(m.procs)
  {
    var c, p := m.current, regs.eax;
    if BadPid(m, p) then ps == m.procs[c := m.procs[c].(regs := regs.(eax := -1))]
    else
      var w, zombie := m.procs[p].waitQueue, m.procs[p].state == ZOMBIE;
      && |ps| == NPROCS && w != p && ps[c] == m.procs[c].(regs := regs.(eax := 0))
      && ps[p] == Proc(if zombie && w == 0 then ZOMBIE else EMPTY, m.procs[p].regs, if zombie then 0 else -1, w)
      && (w != 0 && w != c ==> ps[w] == m.procs[w].(state := RUNNABLE, regs := m.procs[w].regs.(eax := 0)))
      && forall j | 0 <= j < NPROCS && j != c && j != p && (j != w || w == 0) :: ps[j] == m.procs[j]
  }

  lemma KillTable(m: Machine, regs: Regs, mem: seq<Byte>)
    requires Shape(m) && Queues(m.procs) && m.procs[m.current].state == RUNNABLE && |mem| == |m.mem|
    ensures var m1 := DoKill(Save(m, regs, mem));
            m1.mem == mem && m1.current == m.current && |m1.procs| == NPROCS && Killed(m, regs, m1.procs)
  {
    var c := m.current;
    if BadPid(m, regs.eax) {
      assert DoKill(Save(m, regs, mem)).procs == m.procs[c := m.procs[c].(regs := regs.(eax := -1))];
    }
  }

  /** sys_kill returns at once. */
  lemma KillReturns(m: Machine, regs: Regs, mem: seq<Byte>)
    requires Inv(m) && |mem| == |m.mem|
    ensures var r := Step(m, Kill, regs, mem);
            && r.Some? && r.value.mem == mem && r.value.current == m.current
            && |r.value.procs| == NPROCS && Killed(m, regs, r.value.procs)
  {
    StepKill(m, regs, mem);
    hide Waits, DoKill, Killed, Step;
    KillTable(m, regs, mem);
  }

  lemma StepKill(m: Machine, regs: Regs, mem: seq<Byte>)
    requires Inv(m) && |mem| == |m.mem|
    ensures Queues(Save(m, regs, mem).procs) && Step(m, Kill, regs, mem) == Some(DoKill(Save(m, regs, mem)))
  {
    hide DoKill, Waits;
  }

  // -------------------------------------------------------------------------
  // Calls after which the scheduler runs
  // -------------------------------------------------------------------------

  /** sys_yield changes nothing but who runs. */
  lemma YieldReturns(m: Machine, regs: Regs, mem: seq<Byte>)
    requires Inv(m) && |mem| == |m.mem|
    ensures var r, c := Step(m, Yield, regs, mem), m.current;
            && r.Some? && r.value.mem == mem && r.value.procs == m.procs[c := m.procs[c].(regs := regs)]
            && exists k :: FirstMet(r.value.procs, c, r.value.current, k)
  {
    var m1 := Save(m, regs, mem);
    assert Shape(m1) && m1.procs[m.current].state == RUNNABLE;
    assert m1.procs == m.procs[m.current := m.procs[m.current].(regs := regs)];
    hide FirstMet, NextRunnable, Waits, Save;
    RunsNext(m1);
    hide Inv;
  }

  /** sys_exit: the caller is a zombie with the status it gave, the process in its wait queue runs
      and gets that status, and nothing else changes. */
  lemma ExitReturns(m: Machine, regs: Regs, mem: seq<Byte>)
    requires Inv(m) && |mem| == |m.mem| && Step(m, Exit, regs, mem).Some?
    ensures var r, c, w := Step(m, Exit, regs, mem).value, m.current, m.procs[m.current].waitQueue;
            && r.mem == mem && |r.procs| == NPROCS && w != c
            && r.procs[c] == Proc(ZOMBIE, regs, regs.eax, w)
            && (w != 0 ==> r.procs[w] == m.procs[w].(state := RUNNABLE, regs := m.procs[w].regs.(eax := regs.eax)))
            && (forall j | 0 <= j < NPROCS && j != c && (j != w || w == 0) :: r.procs[j] == m.procs[j])
            && exists k :: FirstMet(r.procs, c, r.current, k)
  {
    hide FirstMet;
    RunsNext(DoExit(Save(m, regs, mem)));
  }

  /** What sys_wait makes of the table: a bad number gives -1; a zombie gives its exit status, and
      its slot is empty then; a live process makes the caller wait in its wait queue. */
  ghost predicate Waited(m: Machine, regs: Regs, ps: seq<Proc>)
    requires Shape(m)
  {
    var c, p := m.current, regs.eax;
    if BadPid(m, p) then ps == m.procs[c := m.procs[c].(regs := regs.(eax := -1))]
    else
      && |ps| == NPROCS && (forall j | 0 <= j < NPROCS && j != c && j != p :: ps[j] == m.procs[j])
      && if m.procs[p].state == ZOMBIE then
           && ps[c] == m.procs[c].(regs := regs.(eax := m.procs[p].exitStatus))
           && ps[p] == m.procs[p].(state := EMPTY)
         else
           && ps[c] == m.procs[c].(state := BLOCKED, regs := regs)
           && ps[p] == m.procs[p].(waitQueue := c)
  }

  lemma WaitTable(m: Machine, regs: Regs, mem: seq<Byte>)
    requires Shape(m) && m.procs[m.current].state == RUNNABLE && |mem| == |m.mem|
    ensures var m1 := DoWait(Save(m, regs, mem));
            && Shape(m1) && m1.mem == mem && m1.current == m.current && Waited(m, regs, m1.procs)
            && |m1.procs| == NPROCS
            && (BadPid(m, regs.eax) || m.procs[regs.eax].state == ZOMBIE ==> m1.procs[m.current].state == RUNNABLE)
  {
    var m1 := DoWait(Save(m, regs, mem));
    if BadPid(m, regs.eax) {
      assert m1.procs == m.procs[m.current := m.procs[m.current].(regs := regs.(eax := -1))];
    }
  }

  lemma StepWait(m: Machine, regs: Regs, mem: seq<Byte>)
    requires Inv(m) && |mem| == |m.mem|
    ensures Step(m, Wait, regs, mem) == Schedule(DoWait(Save(m, regs, mem)))
  {
    hide DoWait, Schedule, Waits;
  }

  /** sys_wait, and after it the scheduler; for a bad number or a zombie it always returns. */
  lemma WaitReturns(m: Machine, regs: Regs, mem: seq<Byte>)
    requires Inv(m) && |mem| == |m.mem|
    ensures BadPid(m, regs.eax) || m.procs[regs.eax].state == ZOMBIE ==> Step(m, Wait, regs, mem).Some?
    ensures Step(m, Wait, regs, mem).Some? ==>
              var r := Step(m, Wait, regs, mem).value;
              && r.mem == mem && Waited(m, regs, r.procs) && |r.procs| == NPROCS
              && exists k :: FirstMet(r.procs, m.current, r.current, k)
  {
    var m0 := Save(m, regs, mem);
    StepWait(m, regs, mem);
    assert Shape(m0) && |m.procs| == NPROCS && m.current < NPROCS;
    hide *;
    WaitTable(m, regs, mem);
    RunsNext(DoWait(m0));
  }

  // -------------------------------------------------------------------------
  // A status given at exit is the status a later wait gets
  // -------------------------------------------------------------------------

  /** p has exited with this status, and nobody has asked for it. */
  predicate Exited(m: Machine, p: nat, status: int) {
    p < |m.procs| && m.procs[p].state == ZOMBIE && m.procs[p].exitStatus == status
  }

  /** A call that asks for process p or kills it, or kills a zombie whose old wait queue names it. */
  predicate Touches(m: Machine, call: Call, regs: Regs, p: nat)
    requires |m.procs| == NPROCS
  {
    || ((call == Wait || call == Kill) && regs.eax == p)
    || (call == Kill && !BadPid(m, regs.eax) && m.procs[regs.eax].state == ZOMBIE
        && p != 0 && m.procs[regs.eax].waitQueue == p)
  }

  lemma ExitLeaves(m: Machine, regs: Regs, mem: seq<Byte>)
    requires Inv(m) && |mem| == |m.mem| && Step(m, Exit, regs, mem).Some?
    ensures Exited(Step(m, Exit, regs, mem).value, m.current, regs.eax)
  {
    hide FirstMet;
    ExitReturns(m, regs, mem);
  }

  lemma EmptyOrNot(ps: seq<Proc>) returns (i: nat)
    requires |ps| == NPROCS
    ensures NoEmpty(ps) || LowestEmpty(ps, i)
  {
    i := FirstEmpty(ps, 1);
    hide FirstEmpty;
  }

  lemma ExitSpares(m: Machine, regs: Regs, mem: seq<Byte>, p: nat)
    requires Inv(m) && |mem| == |m.mem| && p < NPROCS && m.procs[p].state == ZOMBIE
    ensures p == 0 || m.procs[m.current].waitQueue != p
  {
    if m.procs[m.current].waitQueue != 0 { ExitWakes(m, regs, mem); }
    hide Waits;
  }

  lemma KillSpares(m: Machine, regs: Regs, p: nat)
    requires Inv(m) && !BadPid(m, regs.eax) && p < NPROCS && m.procs[p].state == ZOMBIE && !Touches(m, Kill, regs, p)
    ensures p == 0 || m.procs[regs.eax].waitQueue != p
  {
    hide Named;
    var q := regs.eax;
    var w := m.procs[q].waitQueue;
    assert m.procs[q].state != ZOMBIE && w != 0 ==> Names(m.procs, q, w);
  }

  /** No other call touches it while the table is in order. */
  lemma ExitedStays(m: Machine, t: Trap, p: nat, status: int)
    requires Inv(m) && Legal(m, t.call, t.regs, t.mem)
    requires Exited(m, p, status) && !Touches(m, t.call, t.regs, p) && Step(m, t.call, t.regs, t.mem).Some?
    ensures Exited(Step(m, t.call, t.regs, t.mem).value, p, status)
  {
    assert p != m.current;
    match t.call
    case GetPid =>
      GetPidReturns(m, t.regs, t.mem);
      hide *;
    case Fork =>
      var i := EmptyOrNot(m.procs);
      ForkReturns(m, t.regs, t.mem, i);
      hide Step, Copied, Waits, LowestEmpty;
      assert m.procs[p].state != EMPTY;
    case NewThread =>
      var i := EmptyOrNot(m.procs);
      NewThreadReturns(m, t.regs, t.mem, i);
      hide Step, Waits;
    case Yield =>
      YieldReturns(m, t.regs, t.mem);
      hide Step, FirstMet, Waits;
    case Exit =>
      ExitSpares(m, t.regs, t.mem, p);
      ExitReturns(m, t.regs, t.mem);
      hide Step, FirstMet, Waits;
    case Kill =>
      if !BadPid(m, t.regs.eax) { KillSpares(m, t.regs, p); }
      KillReturns(m, t.regs, t.mem);
      hide Step, Waits;
    case Wait =>
      WaitReturns(m, t.regs, t.mem);
      hide Step, FirstMet, Waits;
  }

  /** None of the traps touches p. */
  predicate Spared(m: Machine, traps: seq<Trap>, p: nat)
    decreases |traps|
  {
    traps == []
    || (Inv(m) && Legal(m, traps[0].call, traps[0].regs, traps[0].mem) ==>
          && !Touches(m, traps[0].call, traps[0].regs, p)
          && var r := Step(m, traps[0].call, traps[0].regs, traps[0].mem); (r.Some? ==> Spared(r.value, traps[1..], p)))
  }

  /** Whatever happens between the exit of p and the first call that asks for it, a wait on p then
      returns the status p exited with, and frees its slot. */
  lemma {:induction false} StatusArrives(m: Machine, traps: seq<Trap>, p: nat, status: int, regs: Regs, mem: seq<Byte>)
    requires Inv(m) && Exited(m, p, status) && Polite(m, traps) && Spared(m, traps, p) && Run(m, traps).Some?
    requires regs.eax == p && p > 0 && |mem| == |m.mem|
    ensures var m1 := Run(m, traps).value;
            && Inv(m1) && |m1.mem| == |m.mem| && m1.current != p && Step(m1, Wait, regs, mem).Some?
            && var r := Step(m1, Wait, regs, mem).value;
               r.procs[m1.current].regs == regs.(eax := status) && r.procs[p].state == EMPTY
    decreases |traps|
  {
    if traps == [] {
      WaitReturns(m, regs, mem);
      hide FirstMet, Waits, Step;
    } else {
      var t := traps[0];
      ExitedStays(m, t, p, status);
      StepKeeps(m, t.call, t.regs, t.mem);
      hide Step, Waits, Disrupts, Legal, Exited, Touches;
      MemoryStays(m, t);
      StatusArrives(Step(m, t.call, t.regs, t.mem).value, traps[1..], p, status, regs, mem);
    }
  }

  lemma MemoryStays(m: Machine, t: Trap)
    requires Inv(m) && Legal(m, t.call, t.regs, t.mem) && Step(m, t.call, t.regs, t.mem).Some?
    ensures |Step(m, t.call, t.regs, t.mem).value.mem| == |m.mem|
  {
    hide Waits;
    assert |t.mem| == |m.mem|;
  }
}
