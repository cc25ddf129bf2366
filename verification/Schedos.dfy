/** The schedulers of weensyos2/schedos-kern.c: round robin (algorithm 0), strict
    priority (2), proportional share (3), and proportional share within the best
    priority level (4).  A share of -1, the initial one, has no end. */
module Schedos {

  const NPROCS: nat := 5

  const NO_LIMIT: int := -1

  datatype Proc = Proc(runnable: bool, priority: nat, share: int, runCount: nat)

  function Share(p: Proc): nat { if p.share < 0 then 0 else p.share }

  function Next(pid: nat): (r: nat)
    ensures r < NPROCS
  {
    (pid + 1) % NPROCS
  }

  /** A process table: slot 0 is never runnable. */
  ghost predicate Table(ps: seq<Proc>) { |ps| == NPROCS && !ps[0].runnable }

  /** Who may be dispatched; algorithm 3 takes all runnable processes, algorithm 4 those of
      the best priority level and those without a limit. */
  function Runnable(ps: seq<Proc>): (e: seq<bool>)
    ensures |e| == |ps| && forall i | 0 <= i < |e| :: e[i] <==> ps[i].runnable
  {
    seq(|ps|, i requires 0 <= i < |ps| => ps[i].runnable)
  }

  predicate Some(e: seq<bool>) { exists i :: 0 <= i < |e| && e[i] }

  /** Eligible processes that the loops can dispatch: not those with a share of 0 that have not
      run. */
  function Active(ps: seq<Proc>, e: seq<bool>): (a: seq<bool>)
    requires |ps| == |e|
    ensures |a| == |e|
  {
    seq(|e|, i requires 0 <= i < |e| => e[i] && (ps[i].share != 0 || ps[i].runCount != 0))
  }

  /** Without one of these the loops never end. */
  ghost predicate Able(ps: seq<Proc>, e: seq<bool>) { |ps| == |e| == NPROCS && Some(Active(ps, e)) }

  function WithCount(ps: seq<Proc>, p: nat, k: nat): seq<Proc>
    requires p < |ps|
  {
    ps[p := ps[p].(runCount := k)]
  }

  /** A count that is used up starts again: nobody stops being dispatched. */
  lemma ActiveKept(ps: seq<Proc>, e: seq<bool>, p: nat, k: nat)
    requires |ps| == |e| == NPROCS && p < NPROCS && (ps[p].share == 0 ==> (k == 0 <==> ps[p].runCount == 0))
    ensures Active(WithCount(ps, p, k), e) == Active(ps, e)
  {
  }

  /** Steps from pid to the next process that may be dispatched. */
  function Distance(e: seq<bool>, pid: nat, fuel: nat): nat
    requires |e| == NPROCS && pid < NPROCS
    decreases fuel
  {
    if fuel == 0 || e[pid] then 0 else 1 + Distance(e, Next(pid), fuel - 1)
  }

  function Full(ps: seq<Proc>, e: seq<bool>, i: nat): nat
    requires |ps| == |e| && i < |e|
  {
    if e[i] && ps[i].runCount == ps[i].share && ps[i].share != 0 then 1 else 0
  }

  /** Eligible processes that have used up their share. */
  function FullCount(ps: seq<Proc>, e: seq<bool>): nat
    requires |ps| == |e| == NPROCS
  {
    Full(ps, e, 0) + Full(ps, e, 1) + Full(ps, e, 2) + Full(ps, e, 3) + Full(ps, e, 4)
  }

  lemma DistanceDrops(e: seq<bool>, pid: nat)
    requires |e| == NPROCS && pid < NPROCS && Some(e) && !e[pid]
    ensures Distance(e, Next(pid), NPROCS) < Distance(e, pid, NPROCS)
  {
    assert Next(0) == 1 && Next(1) == 2 && Next(2) == 3 && Next(3) == 4 && Next(4) == 0;
  }

  /** The loop of algorithms 3 and 4 from process pid on: the table and the process dispatched. */
  function Choose(ps: seq<Proc>, e: seq<bool>, pid: nat): (r: (seq<Proc>, nat))
    requires Table(ps) && |e| == NPROCS && Able(ps, e) && pid < NPROCS
    ensures Table(r.0) && r.1 < NPROCS && e[r.1] && Able(r.0, e)
    decreases FullCount(ps, e), Distance(Active(ps, e), pid, NPROCS)
  {
    if e[pid] then
      if ps[pid].share == NO_LIMIT then (ps, pid)
      else if ps[pid].runCount != ps[pid].share then
        assert Able(WithCount(ps, pid, ps[pid].runCount + 1), e) by { ActiveKept(ps, e, pid, ps[pid].runCount + 1); }
        (WithCount(ps, pid, ps[pid].runCount + 1), pid)
      else
        ActiveKept(ps, e, pid, 0);
        ZeroDrops(ps, e, pid);
        Choose(WithCount(ps, pid, 0), e, Next(pid))
    else
      DistanceDrops(Active(ps, e), pid);
      Choose(ps, e, Next(pid))
  }

  /** Starting a used-up share again is progress, and so is passing a process without one. */
  lemma ZeroDrops(ps: seq<Proc>, e: seq<bool>, pid: nat)
    requires |ps| == |e| == NPROCS && Able(ps, e) && pid < NPROCS && e[pid] && ps[pid].runCount == ps[pid].share
    ensures var ps1 := WithCount(ps, pid, 0);
            || FullCount(ps1, e) < FullCount(ps, e)
            || (FullCount(ps1, e) == FullCount(ps, e)
                && Distance(Active(ps1, e), Next(pid), NPROCS) < Distance(Active(ps, e), pid, NPROCS))
  {
    ActiveKept(ps, e, pid, 0);
    if ps[pid].share == 0 {
      assert WithCount(ps, pid, 0) == ps;
      DistanceDrops(Active(ps, e), pid);
    }
  }

  // -------------------------------------------------------------------------
  // Runs: schedule() called again and again, each time from the process dispatched last
  // -------------------------------------------------------------------------

  function After(ps: seq<Proc>, e: seq<bool>, pid: nat, n: nat): (r: (seq<Proc>, nat))
    requires Table(ps) && |e| == NPROCS && Able(ps, e) && pid < NPROCS
    ensures Table(r.0) && r.1 < NPROCS && Able(r.0, e)
    decreases n
  {
    if n == 0 then (ps, pid)
    else
      var (ps1, p1) := Choose(ps, e, pid);
      After(ps1, e, p1, n - 1)
  }

  /** The processes dispatched by n calls. */
  function Trace(ps: seq<Proc>, e: seq<bool>, pid: nat, n: nat): (t: seq<nat>)
    requires Table(ps) && |e| == NPROCS && Able(ps, e) && pid < NPROCS
    ensures |t| == n
    decreases n
  {
    if n == 0 then []
    else
      var (ps1, p1) := Choose(ps, e, pid);
      [p1] + Trace(ps1, e, p1, n - 1)
  }

  lemma {:induction false} Splits(ps: seq<Proc>, e: seq<bool>, pid: nat, a: nat, b: nat)
    requires Table(ps) && |e| == NPROCS && Able(ps, e) && pid < NPROCS
    ensures var (ps1, p1) := After(ps, e, pid, a);
            && Trace(ps, e, pid, a + b) == Trace(ps, e, pid, a) + Trace(ps1, e, p1, b)
            && After(ps, e, pid, a + b) == After(ps1, e, p1, b)
    decreases a
  {
    hide *;
    if a == 0 {
      TraceNone(ps, e, pid);
      Joined([], [], Trace(ps, e, pid, b));
    } else {
      var (ps1, p1) := Choose(ps, e, pid);
      Splits(ps1, e, p1, a - 1, b);
      SplitNext(ps, e, pid, a, b);
    }
  }

  lemma SplitNext(ps: seq<Proc>, e: seq<bool>, pid: nat, a: nat, b: nat)
    requires Table(ps) && |e| == NPROCS && Able(ps, e) && pid < NPROCS && a > 0
    requires var (ps0, p0) := Choose(ps, e, pid);
             var (ps1, p1) := After(ps0, e, p0, a - 1);
             && Trace(ps0, e, p0, a - 1 + b) == Trace(ps0, e, p0, a - 1) + Trace(ps1, e, p1, b)
             && After(ps0, e, p0, a - 1 + b) == After(ps1, e, p1, b)
    ensures var (ps1, p1) := After(ps, e, pid, a);
            && Trace(ps, e, pid, a + b) == Trace(ps, e, pid, a) + Trace(ps1, e, p1, b)
            && After(ps, e, pid, a + b) == After(ps1, e, p1, b)
  {
    hide *;
    TraceNext(ps, e, pid, a);
    TraceNext(ps, e, pid, a + b);
    var (ps0, p0) := Choose(ps, e, pid);
    var (ps1, p1) := After(ps0, e, p0, a - 1);
    assert a + b - 1 == a - 1 + b;
    Joined([p0], Trace(ps0, e, p0, a - 1), Trace(ps1, e, p1, b));
  }

  lemma TraceNone(ps: seq<Proc>, e: seq<bool>, pid: nat)
    requires Table(ps) && |e| == NPROCS && Able(ps, e) && pid < NPROCS
    ensures Trace(ps, e, pid, 0) == [] && After(ps, e, pid, 0) == (ps, pid)
  {
  }

  lemma TraceNext(ps: seq<Proc>, e: seq<bool>, pid: nat, n: nat)
    requires Table(ps) && |e| == NPROCS && Able(ps, e) && pid < NPROCS && n > 0
    ensures var (ps1, p1) := Choose(ps, e, pid);
            Trace(ps, e, pid, n) == [p1] + Trace(ps1, e, p1, n - 1) && After(ps, e, pid, n) == After(ps1, e, p1, n - 1)
  {
  }

  lemma Joined(a: seq<nat>, b: seq<nat>, c: seq<nat>)
    ensures a + (b + c) == (a + b) + c && [] + c == c
  {
  }

  /** The eligible processes among n slots from pid on, in order. */
  function Order(e: seq<bool>, pid: nat, n: nat): seq<nat>
    requires |e| == NPROCS && pid < NPROCS
    decreases n
  {
    if n == 0 then [] else (if e[pid] then [pid] else []) + Order(e, Next(pid), n - 1)
  }

  function Repeat(p: nat, k: nat): (s: seq<nat>)
    ensures |s| == k
  {
    seq(k, _ => p)
  }

  predicate InRange(order: seq<nat>) { forall i | 0 <= i < |order| :: order[i] < NPROCS }

  /** Each process of the list as often in a row as its share. */
  function Blocks(ps: seq<Proc>, order: seq<nat>): seq<nat>
    requires |ps| == NPROCS && InRange(order)
  {
    if order == [] then [] else Repeat(order[0], Share(ps[order[0]])) + Blocks(ps, order[1..])
  }

  lemma {:induction false} OrderInRange(e: seq<bool>, pid: nat, n: nat)
    requires |e| == NPROCS && pid < NPROCS
    ensures InRange(Order(e, pid, n)) && forall i | 0 <= i < |Order(e, pid, n)| :: e[Order(e, pid, n)[i]]
    decreases n
  {
    if n > 0 { OrderInRange(e, Next(pid), n - 1); }
  }

  /** Every eligible process has a share and has not started on it. */
  ghost predicate Fresh(ps: seq<Proc>, e: seq<bool>) {
    |ps| == |e| && forall i | 0 <= i < |e| && e[i] :: ps[i].runCount == 0 <= ps[i].share
  }

  /** A process with some of its share left is dispatched for the rest of it. */
  lemma {:induction false} OneBlock(ps: seq<Proc>, e: seq<bool>, pid: nat, k: nat)
    requires Table(ps) && |e| == NPROCS && Able(ps, e) && pid < NPROCS && e[pid]
    requires ps[pid].runCount + k <= ps[pid].share
    ensures Trace(ps, e, pid, k) == Repeat(pid, k)
    ensures After(ps, e, pid, k) == (WithCount(ps, pid, ps[pid].runCount + k), pid)
    decreases k
  {
    if k == 0 {
      assert WithCount(ps, pid, ps[pid].runCount) == ps;
    } else {
      var ps1 := WithCount(ps, pid, ps[pid].runCount + 1);
      assert Choose(ps, e, pid) == (ps1, pid);
      OneBlock(ps1, e, pid, k - 1);
      assert WithCount(ps1, pid, ps1[pid].runCount + (k - 1)) == WithCount(ps, pid, ps[pid].runCount + k);
      assert Repeat(pid, k) == [pid] + Repeat(pid, k - 1);
    }
  }

  /** Two states from which the next call does the same. */
  ghost predicate Alike(ps: seq<Proc>, p: nat, ps': seq<Proc>, p': nat, e: seq<bool>) {
    && Table(ps) && Table(ps') && |e| == NPROCS && Able(ps, e) && Able(ps', e) && p < NPROCS && p' < NPROCS
    && Choose(ps, e, p) == Choose(ps', e, p')
  }

  lemma AlikeRuns(ps: seq<Proc>, p: nat, ps': seq<Proc>, p': nat, e: seq<bool>, n: nat)
    requires Alike(ps, p, ps', p', e)
    ensures Trace(ps, e, p, n) == Trace(ps', e, p', n)
    ensures n > 0 ==> After(ps, e, p, n) == After(ps', e, p', n)
  {
  }

  /** From slot pid of this table the calls dispatch t, and then it is as if the scheduler stood
      at slot p0 of table ps0. */
  ghost predicate Yields(ps: seq<Proc>, e: seq<bool>, pid: nat, t: seq<nat>, ps0: seq<Proc>, p0: nat) {
    && Table(ps) && |e| == NPROCS && Able(ps, e) && pid < NPROCS
    && Trace(ps, e, pid, |t|) == t && Alike(After(ps, e, pid, |t|).0, After(ps, e, pid, |t|).1, ps0, p0, e)
  }

  lemma YieldsThen(ps: seq<Proc>, e: seq<bool>, pid: nat, t: seq<nat>, ps0: seq<Proc>, p0: nat, u: seq<nat>,
        ps1: seq<Proc>, p1: nat)
    requires Yields(ps, e, pid, t, ps0, p0) && Yields(ps0, e, p0, u, ps1, p1)
    ensures Yields(ps, e, pid, t + u, ps1, p1)
  {
    var (psa, pa) := After(ps, e, pid, |t|);
    AlikeRuns(psa, pa, ps0, p0, e, |u|);
    Splits(ps, e, pid, |t|, |u|);
    if |u| == 0 { assert After(psa, e, pa, 0) == (psa, pa) && After(ps0, e, p0, 0) == (ps0, p0); }
    hide Choose, Table, Trace, After;
  }

  lemma SkippedYields(ps: seq<Proc>, e: seq<bool>, pid: nat)
    requires Table(ps) && |e| == NPROCS && Able(ps, e) && pid < NPROCS && !e[pid]
    ensures Yields(ps, e, pid, [], ps, Next(pid))
  {
  }

  function Ahead(pid: nat, n: nat): (r: nat)
    requires pid < NPROCS
    ensures r < NPROCS
    decreases n
  {
    if n == 0 then pid else Ahead(Next(pid), n - 1)
  }

  /** A fresh process runs for its share, and then the scheduler moves on. */
  lemma Rotation(ps: seq<Proc>, e: seq<bool>, pid: nat)
    requires Table(ps) && |e| == NPROCS && Able(ps, e) && pid < NPROCS && Fresh(ps, e) && e[pid]
    ensures Yields(ps, e, pid, Repeat(pid, Share(ps[pid])), ps, Next(pid))
  {
    var full := WithCount(ps, pid, ps[pid].share);
    OneBlock(ps, e, pid, ps[pid].share);
    assert WithCount(full, pid, 0) == ps;
  }

  /** From a fresh table at slot pid, the eligible processes of the next n slots are
      dispatched in order, each for exactly its share, and then it is as if the scheduler
      stood fresh at the slot after them. */
  lemma {:induction false} Sweep(ps: seq<Proc>, e: seq<bool>, pid: nat, n: nat)
    requires Table(ps) && |e| == NPROCS && Able(ps, e) && pid < NPROCS && Fresh(ps, e)
    ensures InRange(Order(e, pid, n))
    ensures Yields(ps, e, pid, Blocks(ps, Order(e, pid, n)), ps, Ahead(pid, n))
    decreases n
  {
    OrderInRange(e, pid, n);
    assert |ps| == NPROCS;
    if n == 0 {
      TraceNone(ps, e, pid);
    } else {
      hide Yields, Table, Fresh, Choose, Some;
      Sweep(ps, e, Next(pid), n - 1);
      OrderInRange(e, Next(pid), n - 1);
      var rest := Order(e, Next(pid), n - 1);
      var b := Blocks(ps, rest);
      if e[pid] {
        Rotation(ps, e, pid);
        assert ([pid] + rest)[1..] == rest;
        assert Blocks(ps, [pid] + rest) == Repeat(pid, Share(ps[pid])) + b;
        YieldsThen(ps, e, pid, Repeat(pid, Share(ps[pid])), ps, Next(pid), b, ps, Ahead(pid, n));
      } else {
        SkippedYields(ps, e, pid);
        assert [] + rest == rest && [] + b == b;
        YieldsThen(ps, e, pid, [], ps, Next(pid), b, ps, Ahead(pid, n));
      }
    }
  }

  /** Slots met in a whole turn. */
  lemma WholeTurn(pid: nat)
    requires pid < NPROCS
    ensures Ahead(pid, NPROCS) == pid
  {
    assert Ahead(pid, 5) == Next(Next(Next(Next(Next(pid)))));
  }

  function Times(b: seq<nat>, n: nat): seq<nat> { if n == 0 then [] else b + Times(b, n - 1) }

  /** One cycle: every eligible process in slot order, each as often as its share. */
  function Cycle(ps: seq<Proc>, e: seq<bool>, pid: nat): seq<nat>
    requires |ps| == NPROCS && |e| == NPROCS && pid < NPROCS
  {
    OrderInRange(e, pid, NPROCS);
    Blocks(ps, Order(e, pid, NPROCS))
  }

  /** Weighted round robin: starting fresh, the calls dispatch one cycle after another, for
      any number of cycles. */
  lemma {:induction false} Cycles(ps: seq<Proc>, e: seq<bool>, pid: nat, n: nat)
    requires Table(ps) && |e| == NPROCS && Able(ps, e) && pid < NPROCS && Fresh(ps, e)
    ensures Yields(ps, e, pid, Times(Cycle(ps, e, pid), n), ps, pid)
    decreases n
  {
    assert |ps| == NPROCS;
    if n == 0 {
      TraceNone(ps, e, pid);
    } else {
      Sweep(ps, e, pid, NPROCS);
      WholeTurn(pid);
      hide Yields, Table, Fresh, Order, Blocks, Some;
      Cycles(ps, e, pid, n - 1);
      YieldsThen(ps, e, pid, Cycle(ps, e, pid), ps, pid, Times(Cycle(ps, e, pid), n - 1), ps, pid);
    }
  }

  function Visits(pid: nat, n: nat, q: nat): nat
    requires pid < NPROCS
    decreases n
  {
    if n == 0 then 0 else (if pid == q then 1 else 0) + Visits(Next(pid), n - 1, q)
  }

  lemma VisitNext(pid: nat, n: nat, q: nat)
    requires pid < NPROCS && n > 0
    ensures Visits(pid, n, q) == (if pid == q then 1 else 0) + Visits(Next(pid), n - 1, q)
    ensures Visits(pid, 0, q) == 0
  {
  }

  lemma VisitsOnce(pid: nat, q: nat)
    requires pid < NPROCS && q < NPROCS
    ensures Visits(pid, NPROCS, q) == 1
  {
    hide Visits;
    var a, b, c, d := Next(pid), Next(Next(pid)), Next(Next(Next(pid))), Next(Next(Next(Next(pid))));
    VisitNext(pid, 5, q);
    VisitNext(a, 4, q);
    VisitNext(b, 3, q);
    VisitNext(c, 2, q);
    VisitNext(d, 1, q);
  }

  lemma {:induction false} OrderCounts(e: seq<bool>, pid: nat, n: nat, q: nat)
    requires |e| == NPROCS && pid < NPROCS && q < NPROCS
    ensures multiset(Order(e, pid, n))[q] == if e[q] then Visits(pid, n, q) else 0
    decreases n
  {
    if n > 0 {
      OrderCounts(e, Next(pid), n - 1, q);
      OneMore(e, pid, Order(e, Next(pid), n - 1), q);
    }
  }

  lemma OneMore(e: seq<bool>, pid: nat, rest: seq<nat>, q: nat)
    requires |e| == NPROCS && pid < NPROCS
    ensures multiset((if e[pid] then [pid] else []) + rest)[q] == multiset(rest)[q] + if e[pid] && pid == q then 1
      else 0
  {
    assert multiset([pid] + rest) == multiset{pid} + multiset(rest);
    assert [] + rest == rest;
  }

  /** Each eligible process comes once in a cycle's order, and no other does. */
  lemma OnceRound(e: seq<bool>, pid: nat, q: nat)
    requires |e| == NPROCS && pid < NPROCS && q < NPROCS
    ensures multiset(Order(e, pid, NPROCS))[q] == if e[q] then 1 else 0
  {
    OrderCounts(e, pid, NPROCS, q);
    VisitsOnce(pid, q);
  }

  // -------------------------------------------------------------------------
  // Algorithm 4: the best priority level
  // -------------------------------------------------------------------------

  const WORST: nat := 0xFFFF_FFFF

  /** The lowest priority number of a runnable process among the first n slots, from the start
      value down. */
  function Lowest(ps: seq<Proc>, n: nat, start: nat): (m: nat)
    requires n <= |ps|
    ensures m <= start && forall i | 0 <= i < n && ps[i].runnable :: m <= ps[i].priority
    ensures m == start || exists i :: 0 <= i < n && ps[i].runnable && ps[i].priority == m
  {
    if n == 0 then start
    else
      var m := Lowest(ps, n - 1, start);
      if ps[n - 1].runnable && ps[n - 1].priority <= m then ps[n - 1].priority else m
  }

  /** The runnable processes of the best level, and those without a limit. */
  function BestLevel(ps: seq<Proc>): (e: seq<bool>)
    ensures |e| == |ps|
    ensures forall i | 0 <= i < |e| && e[i] :: ps[i].runnable
    ensures forall i, j | 0 <= i < |e| && e[i] && 0 <= j < |ps| && ps[j].runnable ::
              ps[i].share == NO_LIMIT || ps[i].priority <= ps[j].priority
  {
    seq(|ps|, i requires 0 <= i < |ps| =>
      ps[i].runnable && (ps[i].share == NO_LIMIT || ps[i].priority <= Lowest(ps, |ps|, WORST)))
  }

  /** Who that is: every runnable process that no other runnable one precedes, and every runnable
      process without a limit. */
  lemma BestLevelIs(ps: seq<Proc>, i: nat)
    requires i < |ps| && forall j | 0 <= j < |ps| :: ps[j].priority <= WORST
    ensures BestLevel(ps)[i] <==>
              && ps[i].runnable
              && (ps[i].share == NO_LIMIT
                  || forall j | 0 <= j < |ps| && ps[j].runnable :: ps[i].priority <= ps[j].priority)
  {
    var m := Lowest(ps, |ps|, WORST);
    if m != WORST {
      var j :| 0 <= j < |ps| && ps[j].runnable && ps[j].priority == m;
    }
    hide Lowest;
  }

  /** Under both algorithms a process without a limit keeps running. */
  lemma NoLimitRuns(ps: seq<Proc>, pid: nat)
    requires Table(ps) && pid < NPROCS && ps[pid].runnable && ps[pid].share == NO_LIMIT
    ensures Able(ps, Runnable(ps)) && Choose(ps, Runnable(ps), pid) == (ps, pid)
    ensures Able(ps, BestLevel(ps)) && Choose(ps, BestLevel(ps), pid) == (ps, pid)
  {
    assert Active(ps, Runnable(ps))[pid] && Active(ps, BestLevel(ps))[pid];
    hide Lowest;
  }

  /** Counting dispatches changes neither who is runnable nor the levels. */
  lemma {:induction false} CountsOnly(ps: seq<Proc>, ps': seq<Proc>, n: nat)
    requires |ps'| == |ps| && n <= |ps|
    requires forall i | 0 <= i < |ps| :: ps'[i].runnable == ps[i].runnable && ps'[i].priority == ps[i].priority
    ensures Lowest(ps', n, WORST) == Lowest(ps, n, WORST)
  {
    if n > 0 { CountsOnly(ps, ps', n - 1); }
  }

  /** A call changes nothing but counts. */
  lemma {:induction false} OnlyCounts(ps: seq<Proc>, e: seq<bool>, pid: nat)
    requires Table(ps) && |e| == NPROCS && Able(ps, e) && pid < NPROCS
    ensures var ps' := Choose(ps, e, pid).0;
            forall i | 0 <= i < NPROCS :: ps'[i] == ps[i].(runCount := ps'[i].runCount)
    decreases FullCount(ps, e), Distance(Active(ps, e), pid, NPROCS)
  {
    if e[pid] {
      if ps[pid].share != NO_LIMIT && ps[pid].runCount == ps[pid].share {
        ActiveKept(ps, e, pid, 0);
        ZeroDrops(ps, e, pid);
        OnlyCounts(WithCount(ps, pid, 0), e, Next(pid));
      }
    } else {
      DistanceDrops(Active(ps, e), pid);
      OnlyCounts(ps, e, Next(pid));
    }
  }

  /** So while no process changes its state, priority or share, the same ones stay eligible,
      under both algorithms: Cycles speaks of all the calls in between. */
  lemma EligibleStays(ps: seq<Proc>, e: seq<bool>, pid: nat)
    requires Table(ps) && |e| == NPROCS && Able(ps, e) && pid < NPROCS
    ensures var ps' := Choose(ps, e, pid).0;
            Runnable(ps') == Runnable(ps) && BestLevel(ps') == BestLevel(ps)
  {
    OnlyCounts(ps, e, pid);
    CountsOnly(ps, Choose(ps, e, pid).0, NPROCS);
    hide Choose, Lowest;
  }

  // -------------------------------------------------------------------------
  // Any table, and the eligible processes found anew at each call
  // -------------------------------------------------------------------------

  /** Who algorithm 3 or 4 may dispatch. */
  function Eligible(ps: seq<Proc>, levels: bool): (e: seq<bool>)
    ensures |e| == |ps|
  {
    if levels then BestLevel(ps) else Runnable(ps)
  }

  /** The processes dispatched by n calls of schedule(), each from the one dispatched last. */
  function Schedules(ps: seq<Proc>, levels: bool, pid: nat, n: nat): seq<nat>
    requires Table(ps) && Able(ps, Eligible(ps, levels)) && pid < NPROCS
    decreases n
  {
    if n == 0 then []
    else
      var e := Eligible(ps, levels);
      var (ps1, p1) := Choose(ps, e, pid);
      assert Eligible(ps1, levels) == e by { EligibleStays(ps, e, pid); }
      [p1] + Schedules(ps1, levels, p1, n - 1)
  }

  lemma {:induction false} SchedulesTrace(ps: seq<Proc>, levels: bool, pid: nat, n: nat)
    requires Table(ps) && Able(ps, Eligible(ps, levels)) && pid < NPROCS
    ensures Schedules(ps, levels, pid, n) == Trace(ps, Eligible(ps, levels), pid, n)
    decreases n
  {
    assert |ps| == NPROCS;
    hide Choose, Table, Some, Runnable, BestLevel;
    if n > 0 {
      var e := Eligible(ps, levels);
      var (ps1, p1) := Choose(ps, e, pid);
      assert Eligible(ps1, levels) == e by { EligibleStays(ps, e, pid); }
      hide Eligible;
      SchedulesTrace(ps1, levels, p1, n - 1);
    }
  }

  /** An eligible process that never comes to the end of its share: a negative one, or one that
      was lowered below the count. */
  predicate Endless(ps: seq<Proc>, e: seq<bool>, i: nat)
    requires |ps| == |e| == NPROCS && i < NPROCS
  {
    e[i] && (ps[i].share < 0 || ps[i].runCount > ps[i].share)
  }

  /** None is met in n slots from pid on. */
  predicate NoneEndless(ps: seq<Proc>, e: seq<bool>, pid: nat, n: nat)
    requires |ps| == |e| == NPROCS && pid < NPROCS
    decreases n
  {
    n > 0 ==> !Endless(ps, e, pid) && NoneEndless(ps, e, Next(pid), n - 1)
  }

  /** The first n slots from pid on have begun afresh. */
  function Begun(ps: seq<Proc>, e: seq<bool>, pid: nat, n: nat): (r: seq<Proc>)
    requires |ps| == |e| == NPROCS && pid < NPROCS
    ensures |r| == |ps|
    decreases n
  {
    if n == 0 then ps else Begun(if e[pid] then WithCount(ps, pid, 0) else ps, e, Next(pid), n - 1)
  }

  /** Starting shares again makes no process endless. */
  lemma {:induction false} CountEndless(ps: seq<Proc>, e: seq<bool>, p: nat, pid: nat, n: nat)
    requires |ps| == |e| == NPROCS && pid < NPROCS && p < NPROCS && NoneEndless(ps, e, pid, n)
    ensures NoneEndless(WithCount(ps, p, 0), e, pid, n)
    decreases n
  {
    if n > 0 { CountEndless(ps, e, p, Next(pid), n - 1); }
  }

  /** How many of n slots come before the first one without a limit; n if all do. */
  function ToEndless(ps: seq<Proc>, e: seq<bool>, pid: nat, n: nat): (k: nat)
    requires |ps| == |e| == NPROCS && pid < NPROCS
    ensures k <= n && NoneEndless(ps, e, pid, k) && (k < n ==> Endless(ps, e, Ahead(pid, k)))
    decreases n
  {
    if n == 0 || Endless(ps, e, pid) then 0 else 1 + ToEndless(ps, e, Next(pid), n - 1)
  }

  lemma AllMet(ps: seq<Proc>, e: seq<bool>, pid: nat, i: nat)
    requires |ps| == |e| == NPROCS && pid < NPROCS && i < NPROCS && NoneEndless(ps, e, pid, NPROCS)
    ensures !Endless(ps, e, i)
  {
    var a, b, c, d := Next(pid), Next(Next(pid)), Next(Next(Next(pid))), Next(Next(Next(Next(pid))));
    assert i == pid || i == a || i == b || i == c || i == d;
    assert NoneEndless(ps, e, a, 4) && NoneEndless(ps, e, b, 3) && NoneEndless(ps, e, c, 2) && NoneEndless(ps, e, d, 1);
  }

  /** The first round over n slots: each eligible process for what is left of its share. */
  function FirstRound(ps: seq<Proc>, e: seq<bool>, pid: nat, n: nat): seq<nat>
    requires |ps| == |e| == NPROCS && pid < NPROCS && NoneEndless(ps, e, pid, n)
    decreases n
  {
    if n == 0 then []
    else if e[pid] then
      var anew := WithCount(ps, pid, 0);
      assert NoneEndless(anew, e, Next(pid), n - 1) by { CountEndless(ps, e, pid, Next(pid), n - 1); }
      Repeat(pid, ps[pid].share - ps[pid].runCount) + FirstRound(anew, e, Next(pid), n - 1)
    else FirstRound(ps, e, Next(pid), n - 1)
  }

  /** With its share used up a process is passed, and starts again. */
  lemma FullMovesOn(ps: seq<Proc>, e: seq<bool>, pid: nat)
    requires Table(ps) && |e| == NPROCS && Able(ps, e) && pid < NPROCS && e[pid] && ps[pid].share >= 0
    requires ps[pid].share == 0 ==> ps[pid].runCount == 0
    ensures var full, anew := WithCount(ps, pid, ps[pid].share), WithCount(ps, pid, 0);
            Alike(full, pid, anew, Next(pid), e) && Table(anew)
  {
    ActiveKept(ps, e, pid, 0);
    ActiveKept(ps, e, pid, ps[pid].share);
    hide Active, FullCount, Distance;
    assert WithCount(WithCount(ps, pid, ps[pid].share), pid, 0) == WithCount(ps, pid, 0);
  }

  lemma RestYields(ps: seq<Proc>, e: seq<bool>, pid: nat)
    requires Table(ps) && |e| == NPROCS && Able(ps, e) && pid < NPROCS && e[pid]
    requires !Endless(ps, e, pid)
    ensures Yields(ps, e, pid, Repeat(pid, ps[pid].share - ps[pid].runCount), WithCount(ps, pid, 0), Next(pid))
    ensures Table(WithCount(ps, pid, 0))
  {
    var k := ps[pid].share - ps[pid].runCount;
    var full, anew := WithCount(ps, pid, ps[pid].share), WithCount(ps, pid, 0);
    OneBlock(ps, e, pid, k);
    FullMovesOn(ps, e, pid);
    hide Choose, Trace, After, Active, Alike;
  }

  lemma {:induction false} FirstSweep(ps: seq<Proc>, e: seq<bool>, pid: nat, n: nat)
    requires Table(ps) && |e| == NPROCS && Able(ps, e) && pid < NPROCS && NoneEndless(ps, e, pid, n)
    ensures Yields(ps, e, pid, FirstRound(ps, e, pid, n), Begun(ps, e, pid, n), Ahead(pid, n))
    decreases n
  {
    assert |ps| == NPROCS && (n > 0 && e[pid] ==> ps[pid].runCount <= ps[pid].share);
    if n == 0 {
      TraceNone(ps, e, pid);
    } else {
      hide Yields, Table, WithCount, Choose, Alike;
      if e[pid] {
        RestYields(ps, e, pid);
        var anew := WithCount(ps, pid, 0);
        assert NoneEndless(anew, e, Next(pid), n - 1) by { CountEndless(ps, e, pid, Next(pid), n - 1); }
        FirstSweep(anew, e, Next(pid), n - 1);
        YieldsThen(ps, e, pid, Repeat(pid, ps[pid].share - ps[pid].runCount), anew, Next(pid),
                   FirstRound(anew, e, Next(pid), n - 1), Begun(ps, e, pid, n), Ahead(pid, n));
      } else {
        SkippedYields(ps, e, pid);
        FirstSweep(ps, e, Next(pid), n - 1);
        var b := FirstRound(ps, e, Next(pid), n - 1);
        YieldsThen(ps, e, pid, [], ps, Next(pid), b, Begun(ps, e, pid, n), Ahead(pid, n));
        assert [] + b == b;
      }
    }
  }

  /** After a round over all slots everybody has begun afresh. */
  lemma BegunFresh(ps: seq<Proc>, e: seq<bool>, pid: nat)
    requires Table(ps) && |e| == NPROCS && pid < NPROCS && NoneEndless(ps, e, pid, NPROCS)
    ensures var r := Begun(ps, e, pid, NPROCS);
            && Table(r) && Fresh(r, e)
            && forall i | 0 <= i < NPROCS :: r[i].share == ps[i].share
  {
    forall i: nat | i < NPROCS ensures Visits(pid, NPROCS, i) > 0 && !Endless(ps, e, i) {
      VisitsOnce(pid, i);
      AllMet(ps, e, pid, i);
    }
    BegunAll(ps, e, pid, NPROCS);
    hide Begun, Visits, NoneEndless;
  }

  lemma {:induction false} BegunAll(ps: seq<Proc>, e: seq<bool>, pid: nat, n: nat)
    requires |ps| == |e| == NPROCS && pid < NPROCS
    ensures var r := Begun(ps, e, pid, n);
            && (forall i | 0 <= i < NPROCS :: r[i] == ps[i].(runCount := r[i].runCount))
            && (forall i | 0 <= i < NPROCS && e[i] ::
                 (ps[i].runCount == 0 || Visits(pid, n, i) > 0) ==> r[i].runCount == 0)
    decreases n
  {
    if n > 0 { BegunAll(if e[pid] then WithCount(ps, pid, 0) else ps, e, Next(pid), n - 1); }
  }

  /** A cycle depends on shares only. */
  lemma {:induction false} SameBlocks(ps: seq<Proc>, ps': seq<Proc>, order: seq<nat>)
    requires |ps| == |ps'| == NPROCS && InRange(order) && forall i | 0 <= i < NPROCS :: ps'[i].share == ps[i].share
    ensures Blocks(ps', order) == Blocks(ps, order)
    decreases |order|
  {
    if order != [] { SameBlocks(ps, ps', order[1..]); }
  }

  /** Every call from any table on.  Until a process without a limit is met, each eligible one
      runs for what is left of its share.  If there is none, cycle after cycle follows, in
      which each eligible process runs for exactly its share; otherwise that one runs for ever. */
  lemma AnyStart(ps: seq<Proc>, levels: bool, pid: nat, n: nat)
    requires Table(ps) && Able(ps, Eligible(ps, levels)) && pid < NPROCS
    ensures var e := Eligible(ps, levels);
            var k := ToEndless(ps, e, pid, NPROCS);
            var t := FirstRound(ps, e, pid, k) + Later(ps, e, pid, k, n);
            Schedules(ps, levels, pid, |t|) == t
  {
    assert |ps| == NPROCS;
    hide *;
    var e := Eligible(ps, levels);
    var k := ToEndless(ps, e, pid, NPROCS);
    var b, r := FirstRound(ps, e, pid, k), Begun(ps, e, pid, k);
    var u := Later(ps, e, pid, k, n);
    FirstSweep(ps, e, pid, k);
    LaterTrace(ps, e, pid, k, n);
    YieldsTrace(ps, e, pid, b, r, Ahead(pid, k), u);
    SchedulesTrace(ps, levels, pid, |b + u|);
  }

  /** What follows the first round over k slots: n cycles, or n calls of the one without a limit. */
  function Later(ps: seq<Proc>, e: seq<bool>, pid: nat, k: nat, n: nat): seq<nat>
    requires |ps| == |e| == NPROCS && pid < NPROCS
  {
    if k == NPROCS then Times(Cycle(ps, e, pid), n) else Repeat(Ahead(pid, k), n)
  }

  lemma LaterTrace(ps: seq<Proc>, e: seq<bool>, pid: nat, k: nat, n: nat)
    requires Table(ps) && |e| == NPROCS && Able(ps, e) && pid < NPROCS && NoneEndless(ps, e, pid, k) && k <= NPROCS
    requires k < NPROCS ==> Endless(ps, e, Ahead(pid, k))
    requires Able(Begun(ps, e, pid, k), e)
    ensures var u := Later(ps, e, pid, k, n);
            Table(Begun(ps, e, pid, k)) && Trace(Begun(ps, e, pid, k), e, Ahead(pid, k), |u|) == u
  {
    var r := Begun(ps, e, pid, k);
    BegunAll(ps, e, pid, k);
    if k == NPROCS {
      WholeTurn(pid);
      BegunFresh(ps, e, pid);
      SameCycle(ps, r, e, pid);
      Cycles(r, e, pid, n);
    } else {
      AheadUnmet(pid, k);
      BegunUnmet(ps, e, pid, k, Ahead(pid, k));
      hide Begun, Ahead, NoneEndless, Visits;
      ForEver(r, e, Ahead(pid, k), n);
    }
  }

  lemma {:induction false} AheadIs(pid: nat, k: nat)
    requires pid < NPROCS && k < NPROCS
    ensures Ahead(pid, k) == if pid + k < NPROCS then pid + k else pid + k - NPROCS
    decreases k
  {
    if k > 0 {
      assert Next(pid) == if pid + 1 < NPROCS then pid + 1 else 0;
      AheadIs(Next(pid), k - 1);
    }
  }

  /** Slot q comes n slots or more after pid. */
  predicate Behind(pid: nat, n: nat, q: nat) { n <= if q >= pid then q - pid else q + NPROCS - pid }

  lemma {:induction false} Unmet(pid: nat, n: nat, q: nat)
    requires pid < NPROCS && q < NPROCS && Behind(pid, n, q)
    ensures Visits(pid, n, q) == 0
    decreases n
  {
    if n > 0 {
      assert Next(pid) == if pid + 1 < NPROCS then pid + 1 else 0;
      Unmet(Next(pid), n - 1, q);
    }
  }

  /** Fewer than five slots do not reach the slot after them. */
  lemma AheadUnmet(pid: nat, k: nat)
    requires pid < NPROCS && k < NPROCS
    ensures Visits(pid, k, Ahead(pid, k)) == 0
  {
    AheadIs(pid, k);
    hide Ahead, Visits;
    Unmet(pid, k, Ahead(pid, k));
  }

  lemma {:induction false} BegunUnmet(ps: seq<Proc>, e: seq<bool>, pid: nat, n: nat, i: nat)
    requires |ps| == |e| == NPROCS && pid < NPROCS && i < NPROCS && Visits(pid, n, i) == 0
    ensures Begun(ps, e, pid, n)[i] == ps[i]
    decreases n
  {
    if n > 0 { BegunUnmet(if e[pid] then WithCount(ps, pid, 0) else ps, e, Next(pid), n - 1, i); }
  }

  /** An endless process, once dispatched, is dispatched at every later call. */
  lemma {:induction false} ForEver(ps: seq<Proc>, e: seq<bool>, pid: nat, n: nat)
    requires Table(ps) && |e| == NPROCS && Able(ps, e) && pid < NPROCS && Endless(ps, e, pid)
    ensures Trace(ps, e, pid, n) == Repeat(pid, n)
    decreases n
  {
    if n > 0 {
      ForEver(Choose(ps, e, pid).0, e, pid, n - 1);
      assert Repeat(pid, n) == [pid] + Repeat(pid, n - 1);
    }
  }

  lemma YieldsTrace(ps: seq<Proc>, e: seq<bool>, pid: nat, t: seq<nat>, ps0: seq<Proc>, p0: nat, u: seq<nat>)
    requires Yields(ps, e, pid, t, ps0, p0) && Trace(ps0, e, p0, |u|) == u
    ensures Trace(ps, e, pid, |t + u|) == t + u
  {
    var (psa, pa) := After(ps, e, pid, |t|);
    hide Table, Able, Choose, Trace, After;
    AlikeRuns(psa, pa, ps0, p0, e, |u|);
    Splits(ps, e, pid, |t|, |u|);
  }

  lemma SameCycle(ps: seq<Proc>, r: seq<Proc>, e: seq<bool>, pid: nat)
    requires |ps| == |r| == |e| == NPROCS && pid < NPROCS && forall i | 0 <= i < NPROCS :: r[i].share == ps[i].share
    ensures Cycle(r, e, pid) == Cycle(ps, e, pid)
  {
    OrderInRange(e, pid, NPROCS);
    SameBlocks(ps, r, Order(e, pid, NPROCS));
  }

  // -------------------------------------------------------------------------
  // schedule(), in place; each method returns the process it runs
  // -------------------------------------------------------------------------

  /** Algorithm 0: the next runnable process in slot order. */
  method RoundRobin(procs: array<Proc>, current: nat) returns (pid: nat)
    requires procs.Length == NPROCS && current < NPROCS && Some(Runnable(procs[..]))
    ensures pid < NPROCS && procs[pid].runnable
    ensures exists k :: 1 <= k <= NPROCS && pid == Ahead(current, k) && forall j | 1 <= j < k ::
      !procs[Ahead(current, j)].runnable
  {
    hide Runnable;
    var k := 1;
    pid := (current + 1) % NPROCS;
    assert pid == Ahead(current, 1);
    hide Ahead;
    while !procs[pid].runnable
      invariant 1 <= k <= NPROCS && pid == Ahead(current, k)
      invariant forall j | 1 <= j < k :: !procs[Ahead(current, j)].runnable
      decreases NPROCS - k
    {
      AheadNext(current, k);
      if k == NPROCS { AllVisited(procs[..], current); }
      k := k + 1;
      pid := (pid + 1) % NPROCS;
    }
  }

  lemma {:induction false} AheadNext(pid: nat, n: nat)
    requires pid < NPROCS
    ensures Ahead(pid, n + 1) == Next(Ahead(pid, n))
    decreases n
  {
    if n > 0 { AheadNext(Next(pid), n - 1); }
  }

  lemma AllVisited(ps: seq<Proc>, pid: nat)
    requires |ps| == NPROCS && pid < NPROCS && forall j | 1 <= j <= NPROCS :: !ps[Ahead(pid, j)].runnable
    ensures !Some(Runnable(ps))
  {
    assert !ps[Ahead(pid, 1)].runnable && !ps[Ahead(pid, 2)].runnable && !ps[Ahead(pid, 3)].runnable;
    assert !ps[Ahead(pid, 4)].runnable && !ps[Ahead(pid, 5)].runnable;
  }

  function Slot(current: nat, i: nat): (r: nat)
    ensures r < NPROCS
  {
    (current + i) % NPROCS
  }

  /** How many slots after the current one process j is met. */
  function Met(current: nat, j: nat): (i: nat)
    requires current < NPROCS && j < NPROCS
    ensures i < NPROCS && Slot(current, i) == j
  {
    (j + NPROCS - current) % NPROCS
  }

  lemma MetSlot(current: nat, i: nat)
    requires current < NPROCS && i < NPROCS
    ensures Met(current, Slot(current, i)) == i
  {
  }

  /** Algorithm 2: of the runnable processes with the lowest priority number, the last one
      met from the current process on. */
  method StrictPriority(procs: array<Proc>, current: nat) returns (pid: nat)
    requires procs.Length == NPROCS && current < NPROCS && Table(procs[..]) && Some(Runnable(procs[..]))
    requires forall i | 0 <= i < NPROCS :: procs[i].priority <= WORST
    ensures pid < NPROCS && procs[pid].runnable
    ensures forall j | 0 <= j < NPROCS && procs[j].runnable :: procs[pid].priority <= procs[j].priority
    ensures forall j | 0 <= j < NPROCS && procs[j].runnable && procs[j].priority == procs[pid].priority ::
              Met(current, j) <= Met(current, pid)
  {
    hide Slot, Met;
    var priority := WORST;
    pid := 0;
    for i := 0 to NPROCS
      invariant pid < NPROCS && priority <= WORST
      invariant pid == 0 ==> priority == WORST && forall j | 0 <= j < i :: !procs[Slot(current, j)].runnable
      invariant pid != 0 ==> procs[pid].runnable && priority == procs[pid].priority && Met(current, pid) < i
      invariant pid != 0 ==> forall j | 0 <= j < i && procs[Slot(current, j)].runnable ::
                  priority <= procs[Slot(current, j)].priority
                  && (procs[Slot(current, j)].priority == priority ==> j <= Met(current, pid))
    {
      var p := Slot(current, i);
      MetSlot(current, i);
      if procs[p].runnable && procs[p].priority <= priority {
        pid, priority := p, procs[p].priority;
      }
    }
    forall j | 0 <= j < NPROCS ensures Slot(current, Met(current, j)) == j { }
    ghost var i :| 0 <= i < NPROCS && Runnable(procs[..])[i];
    assert procs[Slot(current, Met(current, i))].runnable;
    forall j | 0 <= j < NPROCS && procs[j].runnable
      ensures procs[pid].priority <= procs[j].priority
      ensures procs[j].priority == procs[pid].priority ==> Met(current, j) <= Met(current, pid)
    {
      assert procs[Slot(current, Met(current, j))].runnable;
    }
  }

  lemma RunsOn(ps: seq<Proc>, e: seq<bool>, pid: nat)
    requires Table(ps) && |e| == NPROCS && Able(ps, e) && pid < NPROCS && e[pid]
    requires ps[pid].share == NO_LIMIT
    ensures Choose(ps, e, pid) == (ps, pid)
  {
  }

  /** The step that algorithms 3 and 4 share: run an eligible process with some of its share
      left, or go on to the next slot. */
  method Turn(procs: array<Proc>, pid: nat, eligible: bool, ghost e: seq<bool>) returns (run: bool, next: nat)
    requires procs.Length == NPROCS && pid < NPROCS && Table(procs[..]) && |e| == NPROCS && Able(procs[..], e)
    requires eligible == e[pid] && (eligible ==> procs[pid].share != NO_LIMIT)
    modifies procs
    ensures Table(procs[..]) && next < NPROCS && SameButCounts(old(procs[..]), procs[..]) && Able(procs[..], e)
    ensures run ==> (procs[..], next) == Choose(old(procs[..]), e, pid)
    ensures !run ==> Choose(procs[..], e, next) == Choose(old(procs[..]), e, pid)
    ensures !run ==> FullCount(procs[..], e) < old(FullCount(procs[..], e))
                     || (FullCount(procs[..], e) == old(FullCount(procs[..], e))
                          && Distance(Active(procs[..], e), next, NPROCS)
                             < Distance(Active(old(procs[..]), e), pid, NPROCS))
  {
    ghost var ps := procs[..];
    if eligible {
      if procs[pid].runCount != procs[pid].share {
        ActiveKept(ps, e, pid, ps[pid].runCount + 1);
        procs[pid] := procs[pid].(runCount := procs[pid].runCount + 1);
        assert procs[..] == WithCount(ps, pid, ps[pid].runCount + 1);
        return true, pid;
      } else {
        ActiveKept(ps, e, pid, 0);
        ZeroDrops(ps, e, pid);
        procs[pid] := procs[pid].(runCount := 0);
        assert procs[..] == WithCount(ps, pid, 0);
        return false, (pid + 1) % NPROCS;
      }
    } else {
      DistanceDrops(Active(ps, e), pid);
      return false, (pid + 1) % NPROCS;
    }
  }

  ghost predicate SameButCounts(ps: seq<Proc>, ps': seq<Proc>) {
    |ps'| == |ps| && forall i | 0 <= i < |ps| :: ps'[i] == ps[i].(runCount := ps'[i].runCount)
  }

  lemma SameEligible(ps: seq<Proc>, ps': seq<Proc>)
    requires SameButCounts(ps, ps')
    ensures Runnable(ps') == Runnable(ps) && BestLevel(ps') == BestLevel(ps)
    ensures Lowest(ps', |ps'|, WORST) == Lowest(ps, |ps|, WORST)
  {
    CountsOnly(ps, ps', |ps|);
    hide Lowest;
  }

  /** Algorithm 3. */
  method ProportionalShare(procs: array<Proc>, current: nat) returns (pid: nat)
    requires procs.Length == NPROCS && current < NPROCS && Table(procs[..]) && Able(procs[..], Runnable(procs[..]))
    modifies procs
    ensures (procs[..], pid) == Choose(old(procs[..]), Runnable(old(procs[..])), current)
    ensures old(procs[current].runnable && procs[current].share == NO_LIMIT) ==>
              pid == current && procs[..] == old(procs[..])
  {
    ghost var e := Runnable(procs[..]);
    pid := current;
    var run := false;
    while !run
      invariant Table(procs[..]) && pid < NPROCS && Runnable(procs[..]) == e && Able(procs[..], e)
      invariant !run ==> Choose(procs[..], e, pid) == Choose(old(procs[..]), e, current)
      invariant run ==> (procs[..], pid) == Choose(old(procs[..]), e, current)
      decreases !run, FullCount(procs[..], e), Distance(Active(procs[..], e), pid, NPROCS)
    {
      hide Choose, Table, FullCount, Distance, SameButCounts, Able, Active;
      ghost var ps := procs[..];
      assert procs[pid].runnable == e[pid] by { assert Runnable(procs[..])[pid] == procs[pid].runnable; }
      if procs[pid].runnable && procs[pid].share == NO_LIMIT {
        assert Choose(procs[..], e, pid) == (procs[..], pid) by { RunsOn(procs[..], e, pid); }
        return;
      }
      run, pid := Turn(procs, pid, procs[pid].runnable, e);
      SameEligible(ps, procs[..]);
    }
  }

  lemma {:induction false} LowestFrom(ps: seq<Proc>, n: nat, start: nat)
    requires n <= |ps| && forall i | 0 <= i < n && ps[i].runnable :: start <= ps[i].priority
    ensures Lowest(ps, n, start) == start
  {
    if n > 0 { LowestFrom(ps, n - 1, start); }
  }

  /** The loop that lowers `priority` to the best level. */
  method BestPriority(procs: array<Proc>, start: nat) returns (priority: nat)
    requires procs.Length == NPROCS && !procs[0].runnable
    ensures priority == Lowest(procs[..], NPROCS, start)
  {
    priority := start;
    assert Lowest(procs[..], 1, start) == start;
    for i := 1 to NPROCS
      invariant priority == Lowest(procs[..], i, start)
    {
      if procs[i].runnable && procs[i].priority <= priority { priority := procs[i].priority; }
    }
  }

  /** Algorithm 4. */
  method MultiLevel(procs: array<Proc>, current: nat) returns (pid: nat)
    requires procs.Length == NPROCS && current < NPROCS && Table(procs[..]) && Able(procs[..], BestLevel(procs[..]))
    requires forall i | 0 <= i < NPROCS :: procs[i].priority <= WORST
    modifies procs
    ensures (procs[..], pid) == Choose(old(procs[..]), BestLevel(old(procs[..])), current)
    ensures old(procs[current].runnable && procs[current].share == NO_LIMIT) ==>
              pid == current && procs[..] == old(procs[..])
  {
    ghost var e, m := BestLevel(procs[..]), Lowest(procs[..], NPROCS, WORST);
    var priority, run := WORST, false;
    pid := current;
    while !run
      invariant Table(procs[..]) && pid < NPROCS && BestLevel(procs[..]) == e && Able(procs[..], e)
      invariant Lowest(procs[..], NPROCS, WORST) == m
      invariant priority == WORST || priority == m
      invariant !run ==> Choose(procs[..], e, pid) == Choose(old(procs[..]), e, current)
      invariant run ==> (procs[..], pid) == Choose(old(procs[..]), e, current)
      decreases !run, FullCount(procs[..], e), Distance(Active(procs[..], e), pid, NPROCS)
    {
      ghost var ps := procs[..];
      assert !procs[0].runnable;
      if procs[pid].runnable && procs[pid].share == NO_LIMIT {
        assert BestLevel(ps)[pid];
        RunsOn(ps, e, pid);
        return;
      }
      if priority == m { LowestFrom(ps, NPROCS, m); }
      priority := BestPriority(procs, priority);
      assert BestLevel(ps)[pid] == (procs[pid].runnable && procs[pid].priority <= priority);
      hide Choose, Table, FullCount, Distance, SameButCounts, Able, Active, Lowest, BestLevel;
      run, pid := Turn(procs, pid, procs[pid].runnable && procs[pid].priority <= priority, e);
      SameEligible(ps, procs[..]);
    }
  }
}
