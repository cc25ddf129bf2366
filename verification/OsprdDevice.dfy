/** osprd_info_t and the critical sections of osprd_ioctl, each proved to be one step of
    the state machine. */
module OsprdDevice {
  import opened OsprdLock

  datatype Code = Success | EDEADLK | EBUSY | EINVAL | ERESTARTSYS

  lemma LaterShrinks(invalid: seq<nat>, tail: nat)
    requires tail in invalid
    ensures |Later(invalid, tail + 1)| < |Later(invalid, tail)|
  {
    assert tail in Later(invalid, tail);
    LaterSmaller(Later(invalid, tail + 1), Later(invalid, tail) - {tail});
  }

  /** struct locking_pid */
  class Reader {
    const pid: int
    var next: Reader?

    constructor (pid: int)
      ensures this.pid == pid && next == null
    {
      this.pid, next := pid, null;
    }
  }

  /** The list read_locking_pids; its nodes in order are a ghost field. */
  class ReaderList {
    var head: Reader?
    ghost var nodes: seq<Reader>

    ghost predicate Valid()
      reads this, nodes
    {
      && head == (if nodes == [] then null else nodes[0])
      && (forall i, j | 0 <= i < j < |nodes| :: nodes[i] != nodes[j])
      && forall i | 0 <= i < |nodes| :: nodes[i].next == if i + 1 < |nodes| then nodes[i + 1] else null
    }

    ghost function Pids(): seq<int>
      reads this
    {
      seq(|nodes|, i requires 0 <= i < |nodes| reads this => nodes[i].pid)
    }

    constructor ()
      ensures Valid() && nodes == []
    {
      head, nodes := null, [];
    }

    /** The search for a process. */
    method Contains(pid: nat) returns (found: bool)
      requires Valid()
      ensures found <==> pid as int in Pids()
    {
      ghost var k := 0;
      var temp := head;
      while temp != null
        invariant k <= |nodes| && temp == if k < |nodes| then nodes[k] else null
        invariant forall j | 0 <= j < k :: nodes[j].pid != pid
        decreases |nodes| - k
      {
        if temp.pid == pid {
          assert Pids()[k] == pid;
          return true;
        }
        temp, k := temp.next, k + 1;
      }
      return false;
    }

    /** A new node at the end. */
    method Append(pid: int)
      requires Valid()
      modifies this, nodes
      ensures Valid() && Pids() == old(Pids()) + [pid] && fresh(set x | x in nodes && x !in old(nodes))
    {
      var node := new Reader(pid);
      if head == null {
        head := node;
      } else {
        ghost var k := 0;
        var temp := head;
        while temp.next != null
          invariant Valid() && nodes == old(nodes) && k < |nodes| && temp == nodes[k]
          invariant temp.next == if k + 1 < |nodes| then nodes[k + 1] else null
          decreases |nodes| - k
        {
          temp, k := temp.next, k + 1;
        }
        assert k + 1 == |nodes|;
        temp.next := node;
      }
      nodes := nodes + [node];
    }

    /** The loop that is to unlink a process.  Both cursors start at the head and move
        together, so the store puts back what was there. */
    method Unlink(pid: int)
      requires Valid()
      modifies this, nodes
      ensures Valid() && nodes == old(nodes)
    {
      ghost var k := 0;
      var temp, next := head, head;
      while next != null
        invariant Valid() && nodes == old(nodes)
        invariant k <= |nodes| && temp == next == if k < |nodes| then nodes[k] else null
        decreases |nodes| - k
      {
        if next.pid == pid {
          temp.next := next.next; // the case of no node before it cannot come: temp is next
          break;
        }
        temp, next, k := temp.next, next.next, k + 1;
      }
    }
  }

  /** The local variables of a call in progress (pid, ticket, open file) are parameters;
      where each task is, and the three histories, are ghost. */
  class Osprd {
    var ticketHead: nat
    var ticketTail: nat
    var invalidTicketList: seq<nat>
    var numWrite: int
    var numRead: int
    var writeLockingPid: int
    const readLockingPids: ReaderList
    var files: map<nat, File>
    ghost var tasks: map<int, Pc>
    ghost var granted: seq<nat>
    ghost var refused: set<nat>
    ghost var regrants: nat

    ghost predicate Valid()
      reads readLockingPids, readLockingPids.nodes
    {
      readLockingPids.Valid()
    }

    ghost function S(): Dev
      reads this, readLockingPids
    {
      Dev(ticketHead, ticketTail, invalidTicketList, numWrite, numRead, writeLockingPid, readLockingPids.Pids(),
          files, tasks, granted, refused, regrants)
    }

    constructor Setup()
      ensures Valid() && S() == Init() && fresh(readLockingPids)
    {
      readLockingPids := new ReaderList();
      ticketHead, ticketTail, invalidTicketList := 0, 0, [];
      numWrite, numRead, writeLockingPid := 0, 0, NOBODY;
      files, tasks, granted, refused, regrants := map[], map[], [], {}, 0;
    }

    /** The loop that skips abandoned tickets, starting again at the first entry after a hit. */
    method SkipTickets()
      modifies this`ticketTail
      ensures ticketTail == SkipInvalid(old(ticketTail), invalidTicketList)
    {
      var i := 0;
      while i < |invalidTicketList|
        invariant 0 <= i <= |invalidTicketList|
        invariant old(ticketTail) <= ticketTail
        invariant SkipInvalid(ticketTail, invalidTicketList) == SkipInvalid(old(ticketTail), invalidTicketList)
        invariant forall j | 0 <= j < i :: invalidTicketList[j] != ticketTail
        decreases |Later(invalidTicketList, ticketTail)|, |invalidTicketList| - i
      {
        if ticketTail == invalidTicketList[i] {
          i := -1;
          LaterShrinks(invalidTicketList, ticketTail);
          ticketTail := ticketTail + 1;
        }
        i := i + 1;
      }
    }

    /** ACQUIRE, first critical section. */
    method TakeTicket(pid: nat, f: nat) returns (myTicket: nat, r: Code)
      requires Enabled(S(), Acquire(pid, f))
      modifies this
      ensures S() == Next(old(S()), Acquire(pid, f))
      ensures myTicket == old(ticketHead) && r == if pid == old(writeLockingPid) then EDEADLK else Success
    {
      myTicket := ticketHead;
      ticketHead := ticketHead + 1;
      if pid == writeLockingPid {
        refused := refused + {myTicket};
        return myTicket, EDEADLK;
      }
      tasks := tasks[pid := if files[f].writable then Checking(myTicket, f) else Waiting(myTicket, f)];
      r := Success;
    }

    /** ACQUIRE for writing, second critical section. */
    method CheckReaders(pid: nat, myTicket: nat, f: nat) returns (r: Code)
      requires Valid() && Enabled(S(), Check(pid)) && PcOf(S(), pid) == Checking(myTicket, f)
      modifies this
      ensures S() == Next(old(S()), Check(pid))
      ensures r == if pid as int in S().readerPids then EDEADLK else Success
    {
      var reading := readLockingPids.Contains(pid);
      if reading {
        tasks, refused := tasks[pid := Idle], refused + {myTicket};
        return EDEADLK;
      }
      tasks := tasks[pid := Waiting(myTicket, f)];
      r := Success;
    }

    /** One evaluation of the wait condition. */
    method TestWait(pid: nat, myTicket: nat, f: nat) returns (ready: bool)
      requires PcOf(S(), pid) == Waiting(myTicket, f) && f in files
      modifies this`tasks
      ensures ready <==> Enabled(old(S()), Pass(pid))
      ensures S() == if ready then Next(old(S()), Pass(pid)) else old(S())
    {
      if files[f].writable {
        ready := ticketTail == myTicket && numWrite == 0 && numRead == 0;
      } else {
        ready := ticketTail == myTicket && numWrite == 0;
      }
      if ready { tasks := tasks[pid := Passed(myTicket, f)]; }
    }

    /** A signal ends the wait: serve the next ticket, or leave this one to be skipped. */
    method Abandon(pid: nat, myTicket: nat, f: nat) returns (r: Code)
      requires PcOf(S(), pid) == Waiting(myTicket, f)
      modifies this
      ensures S() == Next(old(S()), Interrupt(pid)) && r == ERESTARTSYS
    {
      tasks := tasks[pid := Idle];
      if ticketTail == myTicket {
        ticketTail := ticketTail + 1;
        SkipTickets();
      } else {
        invalidTicketList := invalidTicketList + [myTicket];
      }
      r := ERESTARTSYS;
    }

    /** Flag the file and record the lock, as ACQUIRE and TRYACQUIRE both do. */
    method RecordLock(pid: nat, f: nat)
      requires Valid() && f in files
      modifies this, readLockingPids, readLockingPids.nodes
      ensures Valid() && S() == Lock(old(S()), pid, f)
    {
      var again := files[f].locked;
      files := files[f := files[f].(locked := true)];
      if files[f].writable {
        numWrite := numWrite + 1;
        writeLockingPid := pid;
      } else {
        numRead := numRead + 1;
        readLockingPids.Append(pid);
        if again { regrants := regrants + 1; }
      }
    }

    /** ACQUIRE, last critical section: the lock is granted without a second test. */
    method GrantLock(pid: nat, myTicket: nat, f: nat) returns (r: Code)
      requires Valid() && Enabled(S(), Grant(pid)) && PcOf(S(), pid) == Passed(myTicket, f)
      modifies this, readLockingPids, readLockingPids.nodes
      ensures Valid() && S() == Next(old(S()), Grant(pid)) && r == Success
    {
      hide SkipInvalid;
      tasks := tasks[pid := Idle];
      RecordLock(pid, f);
      ticketTail := ticketTail + 1;
      SkipTickets();
      granted := granted + [myTicket];
      r := Success;
    }

    method TryLock(pid: nat, f: nat) returns (r: Code)
      requires Valid() && Enabled(S(), TryAcquire(pid, f))
      modifies this, readLockingPids, readLockingPids.nodes
      ensures Valid() && S() == Next(old(S()), TryAcquire(pid, f))
      ensures r == EDEADLK <==> pid == old(writeLockingPid)
      ensures r == Success <==>
                pid != old(writeLockingPid)
                && old(ticketHead == ticketTail
                       && if files[f].writable then numWrite <= 0 && numRead <= 0 else numWrite == 0)
      ensures if r == Success then files[f].locked else S() == old(S())
      ensures r in {Success, EDEADLK, EBUSY}
    {
      var myTicket := ticketHead;
      if writeLockingPid == pid { return EDEADLK; }
      if files[f].writable {
        if numWrite > 0 || numRead > 0 || myTicket != ticketTail { return EBUSY; }
      } else {
        if numWrite != 0 || myTicket != ticketTail { return EBUSY; }
      }
      RecordLock(pid, f);
      r := Success;
    }

    /** Shared by RELEASE and the last close, called by process pid. */
    method DropLock(pid: nat, f: nat)
      requires Valid() && f in files && files[f].locked
      modifies this, readLockingPids, readLockingPids.nodes
      ensures Valid() && S() == Unlock(old(S()), f)
    {
      if files[f].writable {
        numWrite := 0;
        writeLockingPid := NOBODY;
      } else {
        numRead := numRead - 1;
        readLockingPids.Unlink(pid);
      }
      files := files[f := files[f].(locked := false)];
    }

    method ReleaseLock(pid: nat, f: nat) returns (r: Code)
      requires Valid() && Enabled(S(), Release(f))
      modifies this, readLockingPids, readLockingPids.nodes
      ensures Valid() && S() == Next(old(S()), Release(f))
      ensures r == if old(files)[f].locked then Success else EINVAL
    {
      if !files[f].locked { return EINVAL; }
      DropLock(pid, f);
      r := Success;
    }

    method CloseLast(pid: nat, f: nat)
      requires Valid() && Enabled(S(), Close(f))
      modifies this, readLockingPids, readLockingPids.nodes
      ensures Valid() && S() == Next(old(S()), Close(f))
    {
      if files[f].locked { DropLock(pid, f); }
      files := files - {f};
    }

    method OpenFile(f: nat, writable: bool)
      requires Enabled(S(), Open(f, writable))
      modifies this`files
      ensures S() == Next(old(S()), Open(f, writable))
    {
      files := files[f := File(writable, false)];
    }
  }
}
