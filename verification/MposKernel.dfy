/** The kernel of weensyos1 in place: proc_array, the stacks and `current`. */
module MposKernel {
  import opened Options
  import opened Mpos

  class Kernel {
    const procArray: array<Proc>
    const mem: array<Byte> // from STACK_ADDR on
    var current: nat

    ghost function M(): Machine
      reads this, procArray, mem
    {
      Machine(procArray[..], mem[..], current)
    }

    /** start(): process 1 is runnable, with its stack pointer at the top of its region. */
    constructor (entry: int)
      ensures M() == Start(entry) && Inv(M()) && fresh(procArray) && fresh(mem)
    {
      procArray := new Proc[NPROCS](_ => Proc(EMPTY, Regs(0, 0, 0, 0), 0, 0));
      mem := new Byte[(NPROCS - 1) * STACK_SIZE](_ => 0);
      current := 1;
      new;
      procArray[1] := Proc(RUNNABLE, Regs(0, STACK_ADDR + STACK_SIZE, entry, 0), 0, 0);
      assert procArray[..] == Start(entry).procs && mem[..] == Start(entry).mem;
      StartReady(entry);
    }

    method MemCpy(d: nat, s: nat, n: nat)
      requires d + n <= mem.Length && s + n <= mem.Length
      modifies mem
      ensures mem[..] == CopyRange(old(mem[..]), d, s, n)
    {
      ghost var was := mem[..];
      forall k | 0 <= k < n { mem[d + k] := mem[s + k]; }
      forall j | 0 <= j < mem.Length ensures mem[..][j] == CopyRange(was, d, s, n)[j] { CopyRangeAt(was, d, s, n, j); }
    }

    /** copy_stack */
    method CopyStack(dest: nat, src: nat)
      requires Shape(M()) && 0 < dest < NPROCS && 0 < src < NPROCS && PointsInto(src, procArray[src].regs.esp)
      modifies procArray, mem
      ensures M() == Mpos.CopyStack(old(M()), dest, src)
    {
      hide CopyRange;
      ghost var m := M();
      var srcStackTop := Top(src);
      var srcStackBottom := procArray[src].regs.esp;
      var destStackTop := Top(dest);
      var destStackBottom := destStackTop + srcStackBottom - srcStackTop;
      MemCpy(destStackBottom - STACK_ADDR, srcStackBottom - STACK_ADDR, srcStackTop - srcStackBottom);
      procArray[dest] := procArray[dest].(regs := procArray[dest].regs.(esp := destStackBottom));
      assert procArray[..] == Mpos.CopyStack(m, dest, src).procs;
    }

    method SetResult(pid: nat, x: int)
      requires Shape(M()) && pid < NPROCS
      modifies procArray
      ensures M() == SetEax(old(M()), pid, x)
    {
      ghost var m := M();
      procArray[pid] := procArray[pid].(regs := procArray[pid].regs.(eax := x));
      assert procArray[..] == SetEax(m, pid, x).procs;
    }

    /** do_fork's search for a slot */
    method FindEmpty() returns (i: nat)
      requires procArray.Length == NPROCS
      ensures i == FirstEmpty(procArray[..], 1)
    {
      i := 1;
      while i < NPROCS && procArray[i].state != EMPTY
        invariant 1 <= i <= NPROCS && FirstEmpty(procArray[..], 1) == FirstEmpty(procArray[..], i)
        decreases NPROCS - i
      {
        i := i + 1;
      }
    }

    /** do_fork, and its result in the parent's %eax */
    method ForkProcess()
      requires Shape(M()) && PointsInto(current, procArray[current].regs.esp) && procArray[current].state == RUNNABLE
      modifies procArray, mem
      ensures M() == DoFork(old(M()))
    {
      hide CopyRange;
      ghost var m := M();
      var i := FindEmpty();
      if i == NPROCS {
        SetResult(current, -1);
        return;
      }
      procArray[i] := procArray[i].(state := RUNNABLE, regs := procArray[current].regs);
      assert procArray[..] == m.procs[i := procArray[i]];
      CopyStack(i, current);
      hide Mpos.CopyStack;
      SetResult(i, 0);
      SetQueue(i);
      SetResult(current, i);
    }

    method SetQueue(pid: nat)
      requires Shape(M()) && pid < NPROCS
      modifies procArray
      ensures M() == old(M()).(procs := old(M()).procs[pid := old(M()).procs[pid].(waitQueue := 0)])
    {
      ghost var m := M();
      procArray[pid] := procArray[pid].(waitQueue := 0);
      assert procArray[..] == m.procs[pid := m.procs[pid].(waitQueue := 0)];
    }

    /** do_newthread, and its result in the parent's %eax */
    method NewThread()
      requires Shape(M())
      modifies procArray
      ensures M() == DoNewThread(old(M()))
    {
      hide FirstEmpty, ThreadProc;
      var i := FindEmpty();
      if i == NPROCS {
        SetResult(current, -1);
        return;
      }
      StartThread(i);
      SetResult(current, i);
    }

    method StartThread(i: nat)
      requires Shape(M()) && 0 < i < NPROCS
      modifies procArray
      ensures M() == old(M()).(procs := old(M()).procs[i := ThreadProc(old(M()), i)])
    {
      ghost var m := M();
      var regs := procArray[current].regs;
      regs := regs.(eip := regs.eax, eax := 0, esp := STACK_ADDR + (i - 1) * 0x040000);
      procArray[i] := procArray[i].(state := RUNNABLE, regs := regs, waitQueue := 0);
      assert procArray[..] == m.procs[i := procArray[i]];
    }

    method SetState(pid: nat, state: State)
      requires Shape(M()) && pid < NPROCS
      modifies procArray
      ensures M() == old(M()).(procs := old(M()).procs[pid := old(M()).procs[pid].(state := state)])
    {
      ghost var m := M();
      procArray[pid] := procArray[pid].(state := state);
      assert procArray[..] == m.procs[pid := m.procs[pid].(state := state)];
    }

    method SetStatus(pid: nat, status: int)
      requires Shape(M()) && pid < NPROCS
      modifies procArray
      ensures M() == old(M()).(procs := old(M()).procs[pid := old(M()).procs[pid].(exitStatus := status)])
    {
      ghost var m := M();
      procArray[pid] := procArray[pid].(exitStatus := status);
      assert procArray[..] == m.procs[pid := m.procs[pid].(exitStatus := status)];
    }

    /** sys_kill */
    method KillProcess()
      requires Shape(M()) && Queues(procArray[..])
      modifies procArray
      ensures M() == DoKill(old(M()))
    {
      var p := procArray[current].regs.eax;
      if p <= 0 || p >= NPROCS || p == current || procArray[p].state == EMPTY {
        SetResult(current, -1);
        return;
      }
      ghost var m := M();
      var w := procArray[p].waitQueue;
      assert w == m.procs[p].waitQueue < NPROCS;
      if procArray[p].state == ZOMBIE {
        SetResult(current, 0);
        SetStatus(p, 0);
      } else {
        SetState(p, EMPTY);
        SetStatus(p, -1);
        SetResult(current, 0);
        Reorder(m, p);
      }
      if w != 0 {
        SetState(w, RUNNABLE);
        SetResult(w, 0);
        SetState(p, EMPTY);
      }
    }

    /** sys_exit, before the scheduler */
    method ExitProcess()
      requires Shape(M()) && procArray[current].waitQueue < NPROCS
      modifies procArray
      ensures M() == DoExit(old(M()))
    {
      ghost var m := M();
      procArray[current] := procArray[current].(state := ZOMBIE, exitStatus := procArray[current].regs.eax);
      assert procArray[..] == m.procs[current := procArray[current]];
      var w := procArray[current].waitQueue;
      if w != 0 {
        ghost var ps := procArray[..];
        var status := procArray[current].exitStatus;
        procArray[w] := procArray[w].(state := RUNNABLE, regs := procArray[w].regs.(eax := status));
        assert procArray[..] == ps[w := procArray[w]];
      }
    }

    /** sys_wait, before the scheduler */
    method WaitProcess()
      requires Shape(M())
      modifies procArray
      ensures M() == DoWait(old(M()))
    {
      ghost var m := M();
      var p := procArray[current].regs.eax;
      if p <= 0 || p >= NPROCS || p == current || procArray[p].state == EMPTY {
        SetResult(current, -1);
      } else if procArray[p].state == ZOMBIE {
        SetResult(current, procArray[p].exitStatus);
        ghost var ps := procArray[..];
        procArray[p] := procArray[p].(state := EMPTY);
        assert procArray[..] == ps[p := procArray[p]];
      } else {
        procArray[current] := procArray[current].(state := BLOCKED);
        ghost var ps := procArray[..];
        assert ps == m.procs[current := procArray[current]];
        procArray[p] := procArray[p].(waitQueue := current);
        assert procArray[..] == ps[p := procArray[p]];
      }
    }

    /** schedule(); false when a whole turn finds nobody, after which it spins forever */
    method PickNext() returns (found: bool)
      requires Shape(M())
      modifies this`current
      ensures found <==> Schedule(old(M())).Some?
      ensures found ==> M() == Schedule(old(M())).value
    {
      var pid: nat, tries: nat := current, NPROCS;
      while tries > 0
        invariant NextRunnable(procArray[..], pid, tries) == NextRunnable(procArray[..], current, NPROCS)
        decreases tries
      {
        pid := (pid + 1) % NPROCS;
        if procArray[pid].state == RUNNABLE {
          current := pid;
          return true;
        }
        tries := tries - 1;
      }
      return false;
    }

    /** interrupt(): the running process traps with these registers. */
    method Interrupt(call: Call, regs: Regs) returns (running: bool)
      requires Inv(M()) && Legal(M(), call, regs, mem[..])
      modifies this`current, procArray, mem
      ensures running <==> Step(old(M()), call, regs, old(mem[..])).Some?
      ensures running ==> M() == Step(old(M()), call, regs, old(mem[..])).value
    {
      hide DoFork, DoExit, DoWait, DoKill, DoNewThread, Schedule;
      ghost var m := M();
      procArray[current] := procArray[current].(regs := regs);
      assert procArray[..] == m.procs[current := procArray[current]];
      assert M() == Save(m, regs, m.mem);
      running := true;
      match call
      case GetPid => SetResult(current, current);
      case Fork => ForkProcess();
      case NewThread => NewThread();
      case Kill => KillProcess();
      case Yield => running := PickNext();
      case Exit =>
        CallWaits(m, call, regs, m.mem);
        ExitProcess();
        running := PickNext();
      case Wait =>
        CallWaits(m, call, regs, m.mem);
        WaitProcess();
        running := PickNext();
    }
  }

  /** The order in which a live process's fields and the killer's result are stored. */
  lemma Reorder(m: Machine, p: nat)
    requires Shape(m) && p < NPROCS && p != m.current
    ensures var ps1 := m.procs[p := m.procs[p].(state := EMPTY)];
            var ps2 := ps1[p := ps1[p].(exitStatus := -1)];
            var m1 := SetEax(m, m.current, 0);
            SetEax(m.(procs := ps2), m.current, 0) ==
              m1.(procs := m1.procs[p := m1.procs[p].(state := EMPTY, exitStatus := -1)])
  {
  }
}
