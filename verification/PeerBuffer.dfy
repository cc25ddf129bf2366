/** The task buffer of lab4/osppeer.c: a ring buffer of 4096 bytes with free-running
    32-bit counters, and the loops that copy a whole stream through it. */
module PeerBuffer {

  type Byte = bv8

  const TASKBUFSIZ: nat := 4096
  const TWO32: nat := 0x1_0000_0000
  const MAXFILESIZ: nat := 0x8000_0000

  datatype Result = ERROR | END | OK | AGAIN

  /** What a read or write system call does: fail, ask to be tried again, or move some
      bytes.  A call may always move fewer bytes than it was offered. */
  datatype Event = Fails | Retry | Moves(k: nat)

  function Min(a: nat, b: nat): nat { if a < b then a else b }

  /** The bytes a read of at most n returns from a file with these bytes left: some, but
      none only at the end of the file or when none were asked for. */
  function Delivered(left: seq<Byte>, n: nat, k: nat): (r: seq<Byte>)
    ensures |r| <= n && r <= left
    ensures r == [] <==> n == 0 || left == []
  {
    var most := Min(n, |left|);
    left[..if k == 0 then Min(1, most) else Min(k, most)]
  }

  lemma DeliveredSize(left: seq<Byte>, n: nat, k: nat)
    ensures |Delivered(left, n, k)| == Min(if k == 0 then 1 else k, Min(n, |left|))
  {
  }

  /** The buffer, with these counters, holds q. */
  ghost predicate Ring(buf: seq<Byte>, head: nat, tail: nat, q: seq<Byte>) {
    && |buf| == TASKBUFSIZ && head < TWO32 && tail < TWO32 && |q| <= TASKBUFSIZ
    && tail == (head + |q|) % TWO32
    && forall i | 0 <= i < |q| :: buf[Spot(head, i)] == q[i]
  }

  lemma RingSizes(buf: seq<Byte>, head: nat, tail: nat, q: seq<Byte>)
    requires Ring(buf, head, tail, q)
    ensures |buf| == TASKBUFSIZ && |q| <= TASKBUFSIZ && Spot(head, |q|) == tail % TASKBUFSIZ
  {
    WrapSpot(head + |q|);
  }

  function Spot(head: nat, i: nat): (p: nat)
    ensures p < TASKBUFSIZ
  {
    (head + i) % TASKBUFSIZ
  }

  lemma SpotIs(head: nat, i: nat)
    requires i <= TASKBUFSIZ
    ensures Spot(head, i) == if head % TASKBUFSIZ + i < TASKBUFSIZ then head % TASKBUFSIZ + i
      else head % TASKBUFSIZ + i - TASKBUFSIZ
  {
    assert head + i == TASKBUFSIZ * (head / TASKBUFSIZ) + (head % TASKBUFSIZ + i);
  }

  /** Counters wrap at 2^32, which is a multiple of the buffer size. */
  lemma WrapSpot(n: nat)
    ensures n % TWO32 % TASKBUFSIZ == n % TASKBUFSIZ
  {
    assert n == TWO32 * (n / TWO32) + n % TWO32;
    assert n % TASKBUFSIZ == (TASKBUFSIZ * (0x10_0000 * (n / TWO32)) + n % TWO32) % TASKBUFSIZ;
  }

  /** How the two positions tell the number of bytes held. */
  lemma Positions(head: nat, tail: nat, q: nat)
    requires head < TWO32 && q <= TASKBUFSIZ && tail == (head + q) % TWO32
    ensures head == tail <==> q == 0
    ensures var h, t := head % TASKBUFSIZ, tail % TASKBUFSIZ;
            && t == Spot(head, q)
            && (h < t ==> q == t - h) && (h > t ==> q == TASKBUFSIZ - (h - t)) && (h == t ==> q == 0 || q == TASKBUFSIZ)
  {
    WrapSpot(head + q);
    SpotIs(head, q);
  }

  lemma AfterRead(head: nat, tail: nat, buf: seq<Byte>, buf': seq<Byte>, q: seq<Byte>, got: seq<Byte>)
    requires Ring(buf, head, tail, q) && |buf'| == TASKBUFSIZ && |q| + |got| <= TASKBUFSIZ
    requires tail % TASKBUFSIZ + |got| <= TASKBUFSIZ
    requires forall j | 0 <= j < TASKBUFSIZ ::
               buf'[j] == if tail % TASKBUFSIZ <= j < tail % TASKBUFSIZ + |got| then got[j - tail % TASKBUFSIZ]
                 else buf[j]
    ensures Ring(buf', head, (tail + |got|) % TWO32, q + got)
  {
    Positions(head, tail, |q|);
    WrapSum(head, |q|, |got|);
    forall i | 0 <= i < |q + got| ensures buf'[Spot(head, i)] == (q + got)[i] {
      SpotIs(head, i);
      SpotIs(head, |q|);
    }
  }

  lemma Chop(q: seq<Byte>, n: nat)
    requires n <= |q|
    ensures q[..n] + q[n..] == q
  {
  }

  lemma WrapSum(n: nat, a: nat, b: nat)
    ensures ((n + a) % TWO32 + b) % TWO32 == (n + (a + b)) % TWO32
  {
    var k := (n + a) / TWO32;
    assert n + (a + b) == TWO32 * k + ((n + a) % TWO32 + b);
  }

  lemma AfterWrite(head: nat, tail: nat, buf: seq<Byte>, q: seq<Byte>, amt: nat)
    requires Ring(buf, head, tail, q) && amt <= |q| && head % TASKBUFSIZ + amt <= TASKBUFSIZ
    ensures buf[head % TASKBUFSIZ..head % TASKBUFSIZ + amt] == q[..amt]
    ensures Ring(buf, (head + amt) % TWO32, tail, q[amt..])
  {
    forall i | 0 <= i < amt ensures buf[head % TASKBUFSIZ + i] == q[i] { SpotIs(head, i); }
    WrapSum(head, amt, |q| - amt);
    WrapSpot(head + amt);
    forall i | 0 <= i < |q[amt..]| ensures buf[Spot((head + amt) % TWO32, i)] == q[amt..][i] {
      SpotWrap(head + amt, i);
      assert Spot(head + amt, i) == Spot(head, amt + i);
    }
  }

  lemma SpotWrap(n: nat, i: nat)
    ensures Spot(n % TWO32, i) == Spot(n, i)
  {
    assert n == TWO32 * (n / TWO32) + n % TWO32;
    assert (n + i) % TASKBUFSIZ == (TASKBUFSIZ * (0x10_0000 * (n / TWO32)) + (n % TWO32 + i)) % TASKBUFSIZ;
  }

  /** Free bytes after the last one held, before the array ends. */
  function Room(tail: nat, q: nat): nat
    requires q <= TASKBUFSIZ
  {
    Min(TASKBUFSIZ - q, TASKBUFSIZ - tail % TASKBUFSIZ)
  }

  /** Bytes held from the first one on, before the array ends. */
  function Ready(head: nat, q: nat): nat { Min(q, TASKBUFSIZ - head % TASKBUFSIZ) }

  lemma Chunks(head: nat, tail: nat, q: nat)
    requires head < TWO32 && q <= TASKBUFSIZ && tail == (head + q) % TWO32
    ensures var h, t := head % TASKBUFSIZ, tail % TASKBUFSIZ;
            && Room(tail, q) == (if head == tail || h < t then TASKBUFSIZ - t else h - t)
            && Ready(head, q) == (if head == tail then 0 else if h < t then t - h else TASKBUFSIZ - h)
  {
    Positions(head, tail, q);
    SpotIs(head, q);
  }

  class TaskBuf {
    const buf: array<Byte>
    var head: nat
    var tail: nat
    var totalWritten: nat
    ghost var queue: seq<Byte> // the bytes in the buffer, oldest first

    ghost predicate Valid()
      reads this, buf
    {
      Ring(buf[..], head, tail, queue)
    }

    constructor ()
      ensures Valid() && fresh(buf) && queue == [] && totalWritten == 0 && head == tail == 0
    {
      buf := new Byte[TASKBUFSIZ];
      head, tail, totalWritten, queue := 0, 0, 0, [];
    }

    lemma Bounded()
      requires Valid()
      ensures |queue| <= TASKBUFSIZ
    {
    }

    lemma Counters()
      requires Valid()
      ensures head == tail <==> queue == []
    {
      Positions(head, tail, |queue|);
    }

    /** The system call has put these bytes at position p. */
    method Place(p: nat, data: seq<Byte>)
      requires p + |data| <= buf.Length
      modifies buf
      ensures forall j | 0 <= j < buf.Length :: buf[j] == if p <= j < p + |data| then data[j - p] else old(buf[j])
    {
      forall i | 0 <= i < |data| { buf[p + i] := data[i]; }
    }

    /** read_to_taskbuf from a file with these bytes left. */
    method ReadTo(left: seq<Byte>, e: Event) returns (r: Result, got: seq<Byte>)
      requires Valid()
      modifies this`tail, this`queue, buf
      ensures Valid() && got <= left && queue == old(queue) + got
      ensures r == OK <==> got != []
      ensures r == ERROR <==> e == Fails
      ensures r == AGAIN <==> e == Retry
      ensures r == END && old(queue) == [] ==> left == []
      ensures r == END && left != [] ==> |queue| == TASKBUFSIZ
      ensures e.Moves? && got == [] ==> r == END
      ensures e.Moves? ==> |got| == Min(if e.k == 0 then 1 else e.k, Min(Room(old(tail), |old(queue)|), |left|))
      ensures tail == (old(tail) + |got|) % TWO32
    {
      var headpos, tailpos := head % TASKBUFSIZ, tail % TASKBUFSIZ;
      Positions(head, tail, |queue|);
      Chunks(head, tail, |queue|);
      RingSizes(buf[..], head, tail, queue);
      hide Ring, Spot, Room, Ready, Delivered, Min;
      var n := if head == tail || headpos < tailpos then TASKBUFSIZ - tailpos else headpos - tailpos;
      got := [];
      match e
      case Fails => r := ERROR;
      case Retry => r := AGAIN;
      case Moves(k) =>
        got := Delivered(left, n, k);
        DeliveredSize(left, n, k);
        if got == [] { return END, got; }
        Place(tailpos, got);
        AfterRead(head, tail, old(buf[..]), buf[..], queue, got);
        tail := (tail + |got|) % TWO32;
        queue := queue + got;
        r := OK;
    }

    /** The oldest bytes, which do not wrap, have left. */
    method Release(amt: nat) returns (gone: seq<Byte>)
      requires Valid() && amt <= |queue| && head % TASKBUFSIZ + amt <= TASKBUFSIZ
      modifies this`head, this`queue, this`totalWritten
      ensures Valid() && |gone| == amt && old(queue) == gone + queue && totalWritten == old(totalWritten) + |gone|
      ensures head == (old(head) + amt) % TWO32
    {
      RingSizes(buf[..], head, tail, queue);
      hide Ring, Spot;
      var headpos := head % TASKBUFSIZ;
      gone := buf[headpos..headpos + amt];
      AfterWrite(head, tail, buf[..], queue, amt);
      Chop(queue, amt);
      head := (head + amt) % TWO32;
      totalWritten := totalWritten + amt;
      queue := queue[amt..];
    }

    /** write_from_taskbuf; gone is what the file received. */
    method WriteFrom(e: Event) returns (r: Result, gone: seq<Byte>)
      requires Valid()
      modifies this`head, this`queue, this`totalWritten
      ensures Valid() && old(queue) == gone + queue && totalWritten == old(totalWritten) + |gone|
      ensures r == OK <==> gone != []
      ensures e.Moves? && e.k > 0 && old(queue) != [] ==> gone != []
      ensures r == ERROR <==> e == Fails && old(queue) != []
      ensures r == AGAIN <==> e == Retry && old(queue) != []
      ensures e.Moves? ==> |gone| == Min(e.k, Ready(old(head), |old(queue)|))
      ensures head == (old(head) + |gone|) % TWO32
    {
      var headpos, tailpos := head % TASKBUFSIZ, tail % TASKBUFSIZ;
      Positions(head, tail, |queue|);
      Chunks(head, tail, |queue|);
      RingSizes(buf[..], head, tail, queue);
      hide Ring, Spot, Room, Ready;
      gone := [];
      if head == tail { return END, gone; }
      var n := if headpos < tailpos then tailpos - headpos else TASKBUFSIZ - headpos;
      match e
      case Fails => r := ERROR;
      case Retry => r := AGAIN;
      case Moves(k) =>
        gone := Release(Min(k, n));
        r := if gone == [] then END else OK;
    }
  }

  /** Rounds of a transfer: the bytes that came in and the bytes that went out. */
  function Received(moved: seq<(nat, nat)>): nat {
    if moved == [] then 0 else Received(moved[..|moved| - 1]) + moved[|moved| - 1].0
  }

  function Sent(moved: seq<(nat, nat)>): nat {
    if moved == [] then 0 else Sent(moved[..|moved| - 1]) + moved[|moved| - 1].1
  }

  /** How much a read brings in when r bytes came in before, s went out, and there are `total`. */
  function Incoming(e: Event, r: nat, s: nat, total: nat): nat
    requires s <= r <= s + TASKBUFSIZ && r <= total
  {
    if !e.Moves? then 0
    else Min(if e.k == 0 then 1 else e.k, Min(Min(TASKBUFSIZ - (r - s), TASKBUFSIZ - r % TASKBUFSIZ), total - r))
  }

  /** How much a write takes out. */
  function Outgoing(e: Event, r: nat, s: nat): nat
    requires s <= r
  {
    if e.Moves? then Min(e.k, Min(r - s, TASKBUFSIZ - s % TASKBUFSIZ)) else 0
  }

  lemma OneMoreRound(moved: seq<(nat, nat)>, r: (nat, nat))
    ensures Received(moved + [r]) == Received(moved) + r.0 && Sent(moved + [r]) == Sent(moved) + r.1
  {
    assert (moved + [r])[..|moved|] == moved;
  }

  /** What went out, what the buffer holds and what is to come make up the input. */
  ghost predicate Parts(input: seq<Byte>, output: seq<Byte>, queue: seq<Byte>, left: seq<Byte>) {
    input == output + queue + left
  }

  lemma PartsStart(input: seq<Byte>)
    ensures Parts(input, [], [], input)
  {
  }

  lemma PartsEnd(input: seq<Byte>, output: seq<Byte>, queue: seq<Byte>, left: seq<Byte>)
    requires Parts(input, output, queue, left)
    ensures output <= input && |output| + |queue| <= |input| && (queue == [] && left == [] ==> output == input)
    ensures |output| + |queue| == |input| ==> left == []
  {
  }

  lemma Arrives(input: seq<Byte>, output: seq<Byte>, queue: seq<Byte>, got: seq<Byte>, left: seq<Byte>)
    requires Parts(input, output, queue, left) && got <= left
    ensures Parts(input, output, queue + got, left[|got|..])
  {
    assert output + queue + left == output + (queue + got) + left[|got|..];
  }

  lemma Departs(input: seq<Byte>, output: seq<Byte>, gone: seq<Byte>, queue: seq<Byte>, left: seq<Byte>)
    requires Parts(input, output, gone + queue, left)
    ensures Parts(input, output + gone, queue, left)
  {
    assert output + (gone + queue) + left == (output + gone) + queue + left;
  }

  /** How a transfer ended, or that the given system calls did not suffice to end it. */
  datatype Status = Done | Failed | TooLong | Running

  /** A round of the download with these bytes moved before it: the read does not fail and is not
      at the end with an empty buffer, and the write does not fail with bytes to write. */
  ghost predicate Round(before: seq<(nat, nat)>, e: (Event, Event), total: nat, m: (nat, nat)) {
    var r, s := Received(before), Sent(before);
    && s <= r <= s + TASKBUFSIZ && r <= total
    && m.0 == Incoming(e.0, r, s, total) && m.1 == Outgoing(e.1, r + m.0, s)
    && e.0 != Fails && (e.1 == Fails ==> r + m.0 == s) && (e.0.Moves? && r == s ==> r < total)
  }

  /** The same for the upload, which writes first. */
  ghost predicate UpRound(before: seq<(nat, nat)>, e: (Event, Event), total: nat, m: (nat, nat)) {
    var r, s := Received(before), Sent(before);
    && s <= r <= s + TASKBUFSIZ && r <= total
    && m.1 == Outgoing(e.1, r, s) && s + m.1 <= r && m.0 == Incoming(e.0, r, s + m.1, total)
    && e.0 != Fails && (e.1 == Fails ==> r == s) && (e.0.Moves? && r == s + m.1 ==> r < total)
  }

  /** The completed rounds of a download, none of them but the last past the size limit. */
  ghost predicate Rounds(moved: seq<(nat, nat)>, events: seq<(Event, Event)>, total: nat) {
    && |moved| <= |events|
    && forall i | 0 <= i < |moved| :: Round(moved[..i], events[i], total, moved[i]) && Sent(moved[..i]) <= MAXFILESIZ
  }

  ghost predicate UpRounds(moved: seq<(nat, nat)>, events: seq<(Event, Event)>, total: nat) {
    |moved| <= |events| && forall i | 0 <= i < |moved| :: UpRound(moved[..i], events[i], total, moved[i])
  }

  lemma RoundsMore(moved: seq<(nat, nat)>, events: seq<(Event, Event)>, total: nat, m: (nat, nat))
    requires |moved| < |events|
    ensures Rounds(moved, events, total) && Round(moved, events[|moved|], total, m) && Sent(moved) <= MAXFILESIZ ==>
              Rounds(moved + [m], events, total)
    ensures UpRounds(moved, events, total) && UpRound(moved, events[|moved|], total, m) ==>
              UpRounds(moved + [m], events, total)
    ensures Received(moved + [m]) == Received(moved) + m.0 && Sent(moved + [m]) == Sent(moved) + m.1
  {
    var more := moved + [m];
    assert forall i | 0 <= i <= |moved| :: more[..i] == moved[..i];
    assert moved[..|moved|] == moved;
    hide Round, UpRound;
    OneMoreRound(moved, m);
  }

  /** The counters are the bytes that came in and went out, modulo 2^32; q are in the buffer and l are
      still to come. */
  ghost predicate Kept(total: nat, o: nat, q: nat, l: nat, moved: seq<(nat, nat)>, head: nat, tail: nat) {
    var r, s := Received(moved), Sent(moved);
    s == o && r == o + q && q <= TASKBUFSIZ && total == r + l && head == s % TWO32 && tail == r % TWO32
  }

  lemma ModAdd(n: nat, a: nat)
    ensures (n % TWO32 + a) % TWO32 == (n + a) % TWO32
  {
    assert n == TWO32 * (n / TWO32) + n % TWO32;
  }

  /** A round's worth of bytes later they still are. */
  lemma KeptRound(total: nat, o: nat, q: nat, l: nat, moved: seq<(nat, nat)>, h: nat, t: nat, got: nat, gone: nat)
    requires Kept(total, o, q, l, moved, h, t) && got <= l && gone <= q + got <= gone + TASKBUFSIZ
    ensures Kept(total, o + gone, q + got - gone, l - got, moved + [(got, gone)],
                 (h + gone) % TWO32, (t + got) % TWO32)
  {
    OneMoreRound(moved, (got, gone));
    ModAdd(Sent(moved), gone);
    ModAdd(Received(moved), got);
    hide Received, Sent;
  }

  lemma KeptSizes(total: nat, o: nat, q: nat, l: nat, moved: seq<(nat, nat)>, head: nat, tail: nat)
    requires Kept(total, o, q, l, moved, head, tail)
    ensures Sent(moved) == o && Received(moved) == o + q && total == o + q + l
    ensures q <= TASKBUFSIZ && head == o % TWO32 && tail == (o + q) % TWO32
  {
  }

  /** What a read of e moves, by the buffer's counters and by the totals. */
  function Reads(e: Event, tail: nat, q: nat, left: nat): nat
    requires q <= TASKBUFSIZ
  {
    if e.Moves? then Min(if e.k == 0 then 1 else e.k, Min(Room(tail, q), left)) else 0
  }

  function Writes(e: Event, head: nat, q: nat): nat { if e.Moves? then Min(e.k, Ready(head, q)) else 0 }

  lemma AmountsAgree(e: Event, r: nat, s: nat, total: nat)
    requires s <= r <= s + TASKBUFSIZ && r <= total
    ensures Incoming(e, r, s, total) == Reads(e, r % TWO32, r - s, total - r)
    ensures Outgoing(e, r, s) == Writes(e, s % TWO32, r - s)
  {
    WrapSpot(r);
    WrapSpot(s);
  }

  /** One call of read_to_taskbuf in a transfer of `input`. */
  method Receive(t: TaskBuf, input: seq<Byte>, ghost output: seq<Byte>, left: seq<Byte>, e: Event)
    returns (ret: Result, left': seq<Byte>)
    requires t.Valid() && Parts(input, output, t.queue, left)
    modifies t`tail, t`queue, t.buf
    ensures t.Valid() && Parts(input, output, t.queue, left') && |old(t.queue)| <= TASKBUFSIZ
    ensures var got := Reads(e, old(t.tail), |old(t.queue)|, |left|);
            && got <= |left| && |t.queue| == |old(t.queue)| + got <= TASKBUFSIZ && |left'| == |left| - got
            && t.tail == (old(t.tail) + got) % TWO32
            && (ret == OK <==> got > 0) && (ret == ERROR <==> e == Fails) && (ret == END <==> e.Moves? && got == 0)
    ensures ret == END && t.queue == [] ==> left' == []
  {
    hide Ring, Delivered, Room;
    t.Bounded();
    ghost var q := t.queue;
    var got;
    ret, got := t.ReadTo(left, e);
    t.Bounded();
    Arrives(input, output, q, got, left);
    left' := left[|got|..];
  }

  /** One call of write_from_taskbuf. */
  method Send(t: TaskBuf, input: seq<Byte>, output: seq<Byte>, ghost left: seq<Byte>, e: Event)
    returns (ret: Result, output': seq<Byte>)
    requires t.Valid() && Parts(input, output, t.queue, left)
    modifies t`head, t`queue, t`totalWritten
    ensures t.Valid() && Parts(input, output', t.queue, left)
    ensures var gone := Writes(e, old(t.head), |old(t.queue)|);
            && gone <= |old(t.queue)| <= TASKBUFSIZ && |t.queue| == |old(t.queue)| - gone
            && output <= output' && |output'| == |output| + gone && t.head == (old(t.head) + gone) % TWO32
            && t.totalWritten == old(t.totalWritten) + gone && (ret == ERROR <==> e == Fails && old(t.queue) != [])
            && (e.Moves? && e.k > 0 && old(t.queue) != [] ==> gone > 0)
  {
    hide Ring, Ready;
    t.Bounded();
    var gone;
    ret, gone := t.WriteFrom(e);
    Departs(input, output, gone, t.queue, left);
    output' := output + gone;
  }

  /** The state of a transfer between two rounds. */
  ghost predicate Going(input: seq<Byte>, output: seq<Byte>, left: seq<Byte>, moved: seq<(nat, nat)>,
                        queue: seq<Byte>, head: nat, tail: nat) {
    && Parts(input, output, queue, left)
    && Kept(|input|, |output|, |queue|, |left|, moved, head, tail)
  }

  lemma Starts(input: seq<Byte>, events: seq<(Event, Event)>)
    ensures Going(input, [], input, [], [], 0, 0)
    ensures Rounds([], events, |input|) && UpRounds([], events, |input|) && Received([]) == Sent([]) == 0
  {
  }

  lemma GoingSizes(input: seq<Byte>, output: seq<Byte>, left: seq<Byte>, moved: seq<(nat, nat)>,
        queue: seq<Byte>, head: nat, tail: nat)
    requires Going(input, output, left, moved, queue, head, tail)
    ensures output <= input && Sent(moved) == |output| <= Received(moved) <= |input|
    ensures Received(moved) == |output| + |queue| <= |output| + TASKBUFSIZ
  {
    PartsEnd(input, output, queue, left);
    hide Received, Sent;
  }

  /** The first failing call of a download: the read of this round fails, or its write does with bytes to write. */
  ghost predicate Fault(before: seq<(nat, nat)>, e: (Event, Event), total: nat) {
    var r, s := Received(before), Sent(before);
    && s <= r <= s + TASKBUFSIZ && r <= total
    && (e.0 == Fails || (e.1 == Fails && r + Incoming(e.0, r, s, total) > s))
  }

  /** That of an upload, whose failing round has written n bytes before the read. */
  ghost predicate UpFault(before: seq<(nat, nat)>, e: (Event, Event), total: nat, n: nat) {
    var r, s := Received(before), Sent(before);
    && s <= r <= s + TASKBUFSIZ && r <= total && n == Outgoing(e.1, r, s)
    && (e.0 == Fails || (e.1 == Fails && r > s))
  }

  lemma Faulty(total: nat, o: nat, q: nat, l: nat, moved: seq<(nat, nat)>, h: nat, t: nat, e: (Event, Event))
    requires Kept(total, o, q, l, moved, h, t)
    ensures e.0 == Fails || (e.1 == Fails && q + Reads(e.0, t, q, l) > 0) ==> Fault(moved, e, total)
    ensures e.0 == Fails || (e.1 == Fails && q > 0) ==> UpFault(moved, e, total, Writes(e.1, h, q))
  {
    AmountsAgree(e.0, o + q, o, total);
    AmountsAgree(e.1, o + q, o, total);
    hide Received, Sent, Incoming, Outgoing, Reads, Writes;
  }

  /** Every call moves some bytes when there are any to move. */
  predicate Moving(e: (Event, Event)) { e.0.Moves? && e.1.Moves? && e.1.k > 0 }

  lemma RoundMoves(before: seq<(nat, nat)>, e: (Event, Event), total: nat, m: (nat, nat), n: nat)
    ensures Round(before, e, total, m) && Moving(e) ==> m.1 > 0
    ensures UpRound(before, e, total, m) && Moving(e) ==>
              Received(before) + m.0 > Sent(before) + m.1 && (Received(before) > Sent(before) ==> m.1 > 0)
    ensures Fault(before, e, total) ==> !Moving(e)
    ensures UpFault(before, e, total, n) ==> !Moving(e)
  {
    hide Received, Sent;
  }

  /** One round of task_download's loop. */
  method DownloadRound(t: TaskBuf, input: seq<Byte>, output: seq<Byte>, left: seq<Byte>, e: (Event, Event),
                       ghost moved: seq<(nat, nat)>)
    returns (status: Status, output': seq<Byte>, left': seq<Byte>, ghost m: (nat, nat))
    requires t.Valid() && Going(input, output, left, moved, t.queue, t.head, t.tail)
    modifies t, t.buf
    ensures t.Valid() && status != TooLong && t.totalWritten == old(t.totalWritten) + (|output'| - |output|)
    ensures status == Failed ==> Fault(moved, e, |input|) && output' == output
    ensures status == Done ==> output' == output == input && e.0.Moves?
    ensures status == Running ==>
              && Going(input, output', left', moved + [m], t.queue, t.head, t.tail)
              && Round(moved, e, |input|, m)
  {
    hide Parts, Ring, Incoming, Outgoing, Received, Sent, Kept, Reads, Writes, Fault, Round;
    ghost var o, q, l, h, tl := |output|, |t.queue|, |left|, t.head, t.tail;
    KeptSizes(|input|, o, q, l, moved, h, tl);
    PartsEnd(input, output, t.queue, left);
    Faulty(|input|, o, q, l, moved, h, tl, e);
    status, output', m := Running, output, (0, 0);
    var ret;
    ret, left' := Receive(t, input, output, left, e.0);
    if ret == ERROR { return Failed, output, left', m; }
    t.Counters();
    PartsEnd(input, output, t.queue, left');
    if ret == END && t.head == t.tail { return Done, output, left', m; }
    ghost var got, q1 := Reads(e.0, tl, q, l), |t.queue|;
    NoneGone(e.1, h, q1);
    ret, output' := Send(t, input, output, left', e.1);
    if ret == ERROR {
      assert output' == output;
      return Failed, output', left', m;
    }
    m := (got, Writes(e.1, h, q1));
    RoundDone(moved, e, |input|, o, q, l, h, tl, m.0, m.1);
    KeptRound(|input|, o, q, l, moved, h, tl, m.0, m.1);
  }

  /** task_download's loop, for any sequence of system call results.  What reached the disk is a
      prefix of what the peer sent.  Which rounds are completed, how much each moves and how the
      loop ends is exact: at the end of the file with everything written; with the first read that
      fails or the first write that fails with bytes to write; or with the first round that gets
      past the size limit. */
  method Download(input: seq<Byte>, events: seq<(Event, Event)>)
    returns (status: Status, output: seq<Byte>, ghost moved: seq<(nat, nat)>)
    ensures output <= input && (status == Done ==> output == input)
    ensures Rounds(moved, events, |input|) && Sent(moved) == |output| <= Received(moved) <= |input|
    ensures |output| > MAXFILESIZ <==> status == TooLong
    ensures status == Running ==> |moved| == |events|
    ensures status == Done ==> |moved| < |events| && events[|moved|].0.Moves?
    ensures status == Failed ==> |moved| < |events| && Fault(moved, events[|moved|], |input|)
    ensures (forall e <- events :: Moving(e)) && |events| > |input| ==> status == Done || status == TooLong
  {
    hide Going, Ring, Rounds, Round, Received, Sent, Fault;
    var t := new TaskBuf();
    var left := input;
    output, status, moved := [], Running, [];
    Starts(input, events);
    for i := 0 to |events|
      invariant t.Valid() && fresh(t) && fresh(t.buf) && t.totalWritten == |output| <= MAXFILESIZ
      invariant Going(input, output, left, moved, t.queue, t.head, t.tail)
      invariant |moved| == i && Rounds(moved, events, |input|)
      invariant (forall e <- events :: Moving(e)) ==> i <= |output|
    {
      GoingSizes(input, output, left, moved, t.queue, t.head, t.tail);
      ghost var m;
      var ended;
      ended, output, left, m := DownloadRound(t, input, output, left, events[i], moved);
      RoundMoves(moved, events[i], |input|, m, 0);
      if ended != Running { return ended, output, moved; }
      RoundsMore(moved, events, |input|, m);
      moved := moved + [m];
      GoingSizes(input, output, left, moved, t.queue, t.head, t.tail);
      if t.totalWritten > MAXFILESIZ { return TooLong, output, moved; }
    }
    GoingSizes(input, output, left, moved, t.queue, t.head, t.tail);
  }

  lemma RoundDone(moved: seq<(nat, nat)>, e: (Event, Event), total: nat, o: nat, q: nat, l: nat, h: nat, t: nat,
        got: nat, gone: nat)
    requires Kept(total, o, q, l, moved, h, t) && got == Reads(e.0, t, q, l) && gone == Writes(e.1, h, q + got)
    requires e.0 != Fails && (e.1 == Fails ==> q + got == 0) && !(e.0.Moves? && got == 0 && q == 0)
    ensures Round(moved, e, total, (got, gone))
  {
    AmountsAgree(e.0, o + q, o, total);
    WrapSpot(o);
    hide Received, Sent;
  }

  /** One round of task_upload's loop, which writes before it reads. */
  method UploadRound(t: TaskBuf, input: seq<Byte>, output: seq<Byte>, left: seq<Byte>, e: (Event, Event),
                     ghost moved: seq<(nat, nat)>)
    returns (status: Status, output': seq<Byte>, left': seq<Byte>, ghost m: (nat, nat))
    requires t.Valid() && Going(input, output, left, moved, t.queue, t.head, t.tail)
    modifies t, t.buf
    ensures t.Valid() && status != TooLong && output' <= input
    ensures status == Failed ==> |output'| >= |output| && UpFault(moved, e, |input|, |output'| - |output|)
    ensures status == Done ==> output' == input && e.0.Moves?
    ensures status == Running ==>
              && Going(input, output', left', moved + [m], t.queue, t.head, t.tail)
              && UpRound(moved, e, |input|, m)
  {
    hide Parts, Ring, Incoming, Outgoing, Received, Sent, Kept, Reads, Writes, UpFault, UpRound;
    ghost var o, q, l, h, tl := |output|, |t.queue|, |left|, t.head, t.tail;
    KeptSizes(|input|, o, q, l, moved, h, tl);
    PartsEnd(input, output, t.queue, left);
    Faulty(|input|, o, q, l, moved, h, tl, e);
    status, left', m := Running, left, (0, 0);
    var ret;
    ret, output' := Send(t, input, output, left, e.1);
    PartsEnd(input, output', t.queue, left);
    if ret == ERROR { return Failed, output', left, m; }
    ghost var gone, q1 := Writes(e.1, h, q), |t.queue|;
    NoneGone(e.1, h, q);
    ret, left' := Receive(t, input, output', left, e.0);
    PartsEnd(input, output', t.queue, left');
    if ret == ERROR { return Failed, output', left', m; }
    t.Counters();
    if ret == END && t.head == t.tail { return Done, output', left', m; }
    m := (Reads(e.0, tl, q1, l), gone);
    UpRoundDone(moved, e, |input|, o, q, l, h, tl, m.0, m.1);
    KeptRound(|input|, o, q, l, moved, h, tl, m.0, m.1);
  }

  /** task_upload's loop; the same, without a size limit. */
  method Upload(input: seq<Byte>, events: seq<(Event, Event)>)
    returns (status: Status, output: seq<Byte>, ghost moved: seq<(nat, nat)>)
    ensures output <= input && (status == Done ==> output == input) && status != TooLong
    ensures UpRounds(moved, events, |input|) && Sent(moved) <= |output| && Received(moved) <= |input|
    ensures status == Running ==> |moved| == |events| && Sent(moved) == |output|
    ensures status == Done ==> |moved| < |events| && events[|moved|].0.Moves?
    ensures status == Failed ==>
              |moved| < |events| && UpFault(moved, events[|moved|], |input|, |output| - Sent(moved))
    ensures (forall e <- events :: Moving(e)) && |events| > |input| + 1 ==> status == Done
  {
    hide Going, Ring, UpRounds, UpRound, Received, Sent, UpFault;
    var t := new TaskBuf();
    var left := input;
    output, status, moved := [], Running, [];
    Starts(input, events);
    for i := 0 to |events|
      invariant t.Valid() && fresh(t) && fresh(t.buf)
      invariant Going(input, output, left, moved, t.queue, t.head, t.tail)
      invariant |moved| == i && UpRounds(moved, events, |input|)
      invariant (forall e <- events :: Moving(e)) && i > 0 ==> i - 1 <= |output| && t.queue != []
    {
      GoingSizes(input, output, left, moved, t.queue, t.head, t.tail);
      ghost var m;
      var ended;
      ended, output, left, m := UploadRound(t, input, output, left, events[i], moved);
      RoundMoves(moved, events[i], |input|, m, if ended == Failed then |output| - Sent(moved) else 0);
      if ended != Running { return ended, output, moved; }
      RoundsMore(moved, events, |input|, m);
      moved := moved + [m];
      GoingSizes(input, output, left, moved, t.queue, t.head, t.tail);
    }
    GoingSizes(input, output, left, moved, t.queue, t.head, t.tail);
  }

  lemma NoneGone(e: Event, h: nat, q: nat)
    ensures !e.Moves? || q == 0 ==> Writes(e, h, q) == 0
  {
  }

  lemma UpRoundDone(moved: seq<(nat, nat)>, e: (Event, Event), total: nat, o: nat, q: nat, l: nat, h: nat, t: nat,
        got: nat, gone: nat)
    requires Kept(total, o, q, l, moved, h, t) && gone == Writes(e.1, h, q) && gone <= q
    requires got == Reads(e.0, t, q - gone, l)
    requires e.0 != Fails && (e.1 == Fails ==> q == 0) && !(e.0.Moves? && got == 0 && q == gone)
    ensures UpRound(moved, e, total, (got, gone))
  {
    AmountsAgree(e.1, o + q, o, total);
    AmountsAgree(e.0, o + q, o + gone, total);
    hide Received, Sent;
  }
}
